/** The directory tree the tool scans, standing in for the host file
    system that tree.py reads through `os.listdir`, `os.path.isdir`,
    `os.walk` and `open`. */
module Fs {

  /** What reading a file yields: the decoded text, or the failure the
      read raised (its message). */
  datatype Contents = Readable(text: string) | Unreadable(reason: string)

  /** A directory entry. The children of a directory are in the order the
      operating system lists them. */
  datatype Node =
    | File(name: string, contents: Contents)
    | Dir(name: string, children: seq<Node>)

  /** A directory entry that is a file. */
  type FileNode = n: Node | n.File? witness File("", Readable(""))
}

# CppTree2AI report generator, modelled in Dafny

`tree.py` scans a C/C++ project directory and writes one Markdown report
with three sections: a box-drawing directory tree, the `#include` paths
of every C/C++ source file, and the targets and text of every
`CMakeLists.txt`. This project models everything in it except the
file-system calls and the command line:

- `Exclusion` — `should_ignore_dir`: the six fixed directory names and the
  `cmake-build` prefix, active only when build exclusion is on.
- `Fs` — the scanned tree as a value: `Node = File(name, contents) |
  Dir(name, children)`, where the contents of a file are the text a read
  returns or the message of the error it raised.
- `Ordering` — `sorted()` on entry names: code-point lexicographic order,
  an insertion sort, and proofs that it permutes and sorts.
- `TreeRender` — `generate_tree`: the recursive method with its loop,
  proved equal to a specification function, and the properties of the
  lines it draws (count, shape, sibling order, connector choice,
  contiguity, monotonicity under exclusion).
- `Text` — Python's whitespace class, `str.strip()`, line iteration over a
  text file, `str.join`, `str.endswith`.
- `Includes` — `extract_includes`: a hand-written first-match search for
  `#include\s+[<"](.+?)[">]`, proved sound and complete against a
  declarative statement of the pattern, and the per-line loop.
- `CMakeTargets` — `extract_cmake_targets`: `findall` of
  `add_executable\s*\(([^)]+)\)` and of `add_library\s*\(([^)]+)\)`,
  case-insensitively, proved sound, complete and non-overlapping, and the
  two tagging loops.
- `Report` — `scan_project`: `os.walk` as a top-down pre-order walk that
  prunes excluded directories, the per-file blocks, and the method with
  its nested loops, proved equal to a specification of the report lines.

The tree's last-entry quirk is kept: whether an entry gets `└── ` is
decided on the sorted, dot-filtered listing before excluded directories
are skipped, so when that listing ends with an excluded directory no line
of the level gets `└── ` (`TreeRender.SiblingRows`).

## Model

| member | source | states |
|---|---|---|
| Exclusion.NothingIgnoredWithoutFlag | tree.py:9-11 | with build exclusion off no name is excluded |
| Exclusion.IgnoredExactly | tree.py:5-16 | with exclusion on, a name is excluded exactly when it is one of build, .git, .vscode, out, bin, obj or starts with `cmake-build` |
| Exclusion.IgnoreExamples | tree.py:12-15 | `cmake-build-debug` and `cmake-build` are excluded; `Build`, `src` and `cmake` are not (the test is case-sensitive) |
| Ordering.PrecedesTrichotomy | tree.py:20 | any two names are equal or one sorts before the other |
| Ordering.PrecedesTransitive | tree.py:20 | the order on names is transitive |
| Ordering.PrecedesAsymmetric | tree.py:20 | no two names each sort before the other |
| Ordering.NotAfterTotal | tree.py:20 | `<=` on names is total |
| Ordering.NotAfterTransitive | tree.py:20 | `<=` on names is transitive |
| Ordering.InsertByNamePermutes | tree.py:20 | inserting an entry adds exactly that entry |
| Ordering.InsertKeepsSorted | tree.py:20 | inserting into a sorted listing keeps it sorted |
| Ordering.SortByNamePermutes | tree.py:20 | the sorted listing has the same entries as the listing |
| Ordering.SortByNameSorted | tree.py:20 | the sorted listing is in non-decreasing name order |
| TreeRender.HideDotNamesKeeps | tree.py:21 | the dot-name filter keeps only visible entries of its input |
| TreeRender.HideDotNamesComplete | tree.py:21 | every visible entry of the input survives the filter |
| TreeRender.HideDotNamesCounts | tree.py:21 | the filter keeps each visible entry as many times as the input holds it, and no hidden one |
| TreeRender.HideDotNamesKeepsSorted | tree.py:21 | the filter keeps a sorted listing sorted |
| TreeRender.Entries | tree.py:20-21 | the loop runs over exactly the visible children of the directory (no leading dot, or `.vscode` / `.git`): each entry is a visible child, and each visible child is an entry |
| TreeRender.EntriesAreVisibleChildren | tree.py:20-21 | the entries are the visible children with their multiplicities, reordered |
| TreeRender.EntriesSorted | tree.py:20-21 | the loop runs over the entries in sorted name order |
| TreeRender.GenerateTree | tree.py:18-31 | the lines returned are those of the line-by-line specification of the rendering, recursion included |
| TreeRender.ShownCountAppend | tree.py:22-30 | the reference line count adds up over concatenated listings |
| TreeRender.ShownCountRemove | tree.py:22-30 | removing one entry removes its weight from the count |
| TreeRender.HeadInPermutation | tree.py:20 | the first entry of a listing has a place in any permutation of it |
| TreeRender.ShownCountPermutation | tree.py:20 | the line count does not depend on the listing's order |
| TreeRender.ShownCountHide | tree.py:21 | hidden dot-names add no lines |
| TreeRender.EntriesLineCount | tree.py:22-30 | the first k loop iterations emit one line per shown entry among the first k, plus their subtrees |
| TreeRender.TreeLineCount | tree.py:18-31 | the tree has exactly one line per visible, non-excluded entry, summed recursively; excluded directories contribute nothing for themselves or below |
| TreeRender.SubtreeCountMonotone | tree.py:10-11 | below any node, exclusion on gives at most the lines of exclusion off |
| TreeRender.ShownCountMonotone | tree.py:24-25 | the same for a listing of siblings |
| TreeRender.ExclusionNeverAddsLines | tree.py:22-30 | turning build exclusion on never increases the number of tree lines |
| TreeRender.ShapedUnderExtension | tree.py:29-30 | a line well-formed under a child's prefix is well-formed under the parent's |
| TreeRender.HeadLineShaped | tree.py:26-27 | an entry's own line is its prefix, a connector and its name |
| TreeRender.EntriesLinesShaped | tree.py:22-30 | every line of the first k iterations is well-formed under the prefix |
| TreeRender.TreeLinesShaped | tree.py:26-30 | every line is the prefix, zero or more whole 4-character pieces (`    ` or `│   `), a connector (`└── ` or `├── `) and a name; the number of pieces is stated by `TreeRender.TreeLinesDepict` |
| TreeRender.DrawnAtUnderExtension | tree.py:29-30 | a line drawn d levels down under a child's prefix is drawn d + 1 levels down under the parent's |
| TreeRender.DepictsAppend | tree.py:22-30 | lines depicting two runs of drawn nodes, concatenated, depict the concatenated runs |
| TreeRender.DepictsUnderExtension | tree.py:29-30 | a subtree's lines depict its drawn nodes one level deeper under the parent's prefix |
| TreeRender.EntriesLinesDepict | tree.py:22-30 | line i of the first k iterations is the prefix, exactly d pieces, a connector and the name of the i-th node drawn for them, d its depth |
| TreeRender.TreeLinesDepict | tree.py:18-31 | the tree has one line per node of the pre-order listing of drawn nodes; line i is the prefix, exactly d 4-character pieces (d the node's depth below the directory), a connector and the node's name |
| TreeRender.TopLevelRowsAppend | tree.py:27-30 | reading a level's rows back distributes over concatenation |
| TreeRender.NoTopLevelUnder | tree.py:29-30 | the lines of a subtree carry no row of the parent's level |
| TreeRender.HeadRow | tree.py:27 | an entry's line reads back as its connector and name |
| TreeRender.EntryRows | tree.py:22-30 | one iteration adds the entry's row at its level, or none for an excluded directory |
| TreeRender.EntriesRows | tree.py:22-30 | the first k iterations add the rows of the first k entries, in order |
| TreeRender.RenderedRows | tree.py:22-27 | a directory's level shows one row per non-excluded entry of the sorted, filtered listing, in that order |
| TreeRender.RowsSorted | tree.py:20 | rows of a sorted listing are in name order |
| TreeRender.RowsBeforeLastAreTees | tree.py:26 | every row before the listing's last entry uses `├── ` |
| TreeRender.RowsFacts | tree.py:20-27 | rows of a sorted listing: names in order, all but the last `├── `, the last `└── ` iff the listing's last entry is not excluded |
| TreeRender.SiblingRows | tree.py:20-27 | siblings are drawn in sorted order; only the last drawn can get `└── `, and it does exactly when the last filtered entry is not an excluded directory |
| TreeRender.EntriesLinesGrow | tree.py:22-30 | the loop only appends to `lines` |
| TreeRender.BlockAt | tree.py:27-30 | a block appended to the output sits at the offset of what preceded it |
| TreeRender.BlockInTree | tree.py:22-30 | the lines of iteration i come right after those of the earlier iterations |
| TreeRender.EntryBlock | tree.py:26-30 | a non-excluded entry contributes its own line followed by its subtree's lines |
| TreeRender.SubtreeFollowsItsLine | tree.py:27-30 | a directory's descendant lines follow its own line immediately and contiguously |
| Text.SpaceRunEnd | tree.py:35 | the run of `\s` characters from i ends at the first non-space or the end |
| Text.StripIsSlice | tree.py:54-56 | `strip()` removes only leading and trailing whitespace |
| Text.StripEnds | tree.py:95 | the stripped text neither starts nor ends with whitespace |
| Text.StripEmpty | tree.py:95 | the stripped text is empty exactly for all-whitespace text |
| Text.FirstLineEnd | tree.py:38 | the first line ends at the first newline, or at the end of the text |
| Text.SplitLines | tree.py:38 | the lines a text file yields concatenate back to the text; each is non-empty, all but the last end in a newline, none holds another newline |
| Includes.CloserFrom | tree.py:35 | the lazy group stops at a closing delimiter at or after m, if one is reached |
| Includes.CloserFromSound | tree.py:35 | it stops at the first `"` or `>` and crosses no newline |
| Includes.CloserFromFinds | tree.py:35 | it finds the first closing delimiter reachable without a newline |
| Includes.IncludeAt | tree.py:35 | a match attempted at j starts at j and captures a non-empty path |
| Includes.IncludeAtSound | tree.py:35 | a match the attempt reports satisfies the pattern |
| Includes.IncludeAtComplete | tree.py:35 | every match of the pattern at j is the one the attempt reports |
| Includes.FirstInclude | tree.py:39 | the search reports a match at or after j |
| Includes.FirstIncludeFound | tree.py:39 | the search reports the attempt at the index where it stops |
| Includes.FirstIncludeIsFirst | tree.py:39 | no attempt succeeds before the reported index |
| Includes.SearchIsLeftmost | tree.py:35-41 | a line yields a path exactly when the pattern matches in it, and the path is the capture of the leftmost match |
| Includes.SearchCapture | tree.py:35-41 | the captured path is non-empty, holds no newline, and no `"` or `>` after its first character |
| Includes.ExtractIncludes | tree.py:33-44 | the includes are group 1 of the first match of each line, in line order; an unreadable file yields one diagnostic entry |
| Includes.IncludesAppend | tree.py:38-41 | includes of consecutive runs of lines concatenate: line order is kept |
| Includes.AtMostOnePerLine | tree.py:38-41 | there is at most one include per line |
| Includes.OnePerDirectiveLine | tree.py:38-41 | N lines each with a directive yield exactly their N paths, top to bottom |
| Includes.IncludesComeFromLines | tree.py:38-41 | every include is the search result of some line |
| Includes.QuotedExample | tree.py:35 | `#include "a.h"` yields `a.h` |
| Includes.FirstOnLineExample | tree.py:35-41 | a line with two directives yields only the first path |
| Includes.NoSpaceExample | tree.py:35 | `#include<vector>` yields nothing: `\s+` needs at least one space |
| CMakeTargets.CommandAtMeans | tree.py:48-49 | the command name matches at j exactly when each of its letters matches the text's, ignoring case |
| CMakeTargets.CloseParenFrom | tree.py:48-49 | the group `[^)]+` can only end at a `)` at or after m |
| CMakeTargets.CloseParenFromFirst | tree.py:48-49 | the scan finds the first `)`, and there is none when it finds nothing |
| CMakeTargets.CallAt | tree.py:48-49 | a match attempted at j starts at j and has a non-empty group |
| CMakeTargets.CallAtSound | tree.py:48-49 | a match the attempt reports satisfies the pattern |
| CMakeTargets.CallAtComplete | tree.py:48-49 | every match of the pattern at j is the one the attempt reports |
| CMakeTargets.FindAll | tree.py:53 | findall's matches lie at or after j, each with a non-empty group |
| CMakeTargets.FindAllSound | tree.py:53 | each reported match is a match of the pattern at its start |
| CMakeTargets.FindAllOrdered | tree.py:53 | matches are in text order and do not overlap |
| CMakeTargets.OrderedCons | tree.py:53 | a match ending before the next starts extends an ordered, non-overlapping run |
| CMakeTargets.FindAllComplete | tree.py:53 | no match of the pattern starts outside the reported matches |
| CMakeTargets.Groups | tree.py:53 | one group per match |
| CMakeTargets.GroupsAreClean | tree.py:48-49 | every captured argument list is non-empty and holds no `)` |
| CMakeTargets.AppendTagged | tree.py:53-56 | each loop appends one tagged, stripped description per group, in order |
| CMakeTargets.ExtractCMakeTargets | tree.py:46-60 | the targets are the executables' then the libraries' descriptions, with the whole text; an unreadable file yields one diagnostic and empty text |
| CMakeTargets.TaggedAt | tree.py:53-56 | tagging keeps one description per group, at the same index |
| CMakeTargets.TaggedPair | tree.py:53-56 | two tagged lists joined hold the first list's tagged, stripped groups, then the second's |
| CMakeTargets.ReadableTargets | tree.py:53-56 | every `[Executable]` target comes before every `[Library]` target, whatever their order in the text, each the tag plus the stripped group |
| CMakeTargets.UnreadableTargets | tree.py:57-59 | a read error yields only the diagnostic and empty content |
| CMakeTargets.UnclosedCallsIgnored | tree.py:48-49 | a call whose `(` is never closed is not reported |
| CMakeTargets.FindAllSkips | tree.py:53 | positions where no match starts add nothing to findall |
| CMakeTargets.MismatchAt | tree.py:48-49 | no match starts where the text differs from the command name |
| CMakeTargets.SingleCall | tree.py:53 | a sole call that ends the text is the one group reported |
| CMakeTargets.CommandAtVerbatim | tree.py:48-49 | the command name written as in the pattern matches |
| CMakeTargets.CallOf | tree.py:48-49 | name, `(`, arguments without `)`, and `)` make a match |
| CMakeTargets.TaggedVerbatim | tree.py:54 | a group without surrounding whitespace is reported verbatim |
| CMakeTargets.CallTextParts | tree.py:48 | `cmd(` + args + `)` has its name, parentheses and arguments where expected |
| CMakeTargets.ExecutableCallShape | tree.py:48 | `add_executable(` + args + `)` is a match whose group is args |
| CMakeTargets.ExecutableRoundTrip | tree.py:48-54 | `add_executable(` + args + `)` yields first `[Executable] ` + args stripped, so `add_executable(foo a.cpp b.cpp)` gives `[Executable] foo a.cpp b.cpp` |
| Report.AppendBullets | tree.py:77-78 | appends one bullet per item, in order |
| Report.AppendIncludeBlock | tree.py:75-78 | reads the file's includes and appends its heading and one double-quoted bullet per include |
| Report.AppendCMakeBlock | tree.py:86-96 | reads the file's targets and text and appends its heading, the targets section when there are targets, and the fenced, stripped text |
| Report.AppendFile | tree.py:71-96 | a file adds its analysis block when its name is selected, nothing otherwise |
| Report.AppendFiles | tree.py:71 | the inner loop adds the blocks of a directory's files in order |
| Report.FilesLinesStep | tree.py:71 | one more file adds its own block at the end |
| Report.AppendSection | tree.py:69-71 | an analysis loop adds the blocks of the walked directories in walk order |
| Report.ScanProject | tree.py:62-98 | the report is the specified lines joined with newlines: headers, root name, tree, include section, CMake section |
| Report.WalkPruned | tree.py:69-70 | the walk yields its start first; every later directory lies strictly below it, and no component of its path is an excluded name |
| Report.WalkBelowPruned | tree.py:70 | directories walked below a node have no excluded component on their path |
| Report.WalkLength | tree.py:69-70 | the walk yields each entered directory once |
| Report.WalkBelowLength | tree.py:69-70 | the same for the walks below the first k children |
| Report.WalkedDirsMonotone | tree.py:70 | exclusion on enters at most the directories exclusion off enters |
| Report.DescendedDirsMonotone | tree.py:70 | the same for a listing of children |
| Report.ExclusionNeverAddsSteps | tree.py:69-70 | turning exclusion on never makes the walk enter more directories |
| Report.WalkDotNamesExample | tree.py:69-70 | the walk enters `.cache` (no dot-name hiding) and prunes `.git` only with exclusion on |
| Report.BulletsAt | tree.py:77-78 | one bullet per item, at the item's index |
| Report.IncludeFileBlock | tree.py:72-78 | a source file gets its heading and one bullet per include, always written with double quotes |
| Report.CMakeBlockShape | tree.py:89-96 | a CMake block is the heading, `### Targets:` exactly when there are targets, one bullet per target at its index, then `### Content:` and the fenced, stripped text |
| Report.CMakeFileBlock | tree.py:84-96 | a CMakeLists.txt gets its heading; `### Targets:` and the target bullets only when there are targets; then always `### Content:` and the fenced, stripped text |
| Report.UnselectedFileSilent | tree.py:72 | a file neither analysis selects adds no line |
| Report.PlainStartNotHeader | tree.py:64-80 | a line starting with neither `#` nor a newline is no section header |
| Report.BulletsNotHeaders | tree.py:78 | bullet lines are no section headers |
| Report.FileLinesNotHeaders | tree.py:71-96 | no line of a file block is a section header |
| Report.FilesLinesNotHeaders | tree.py:71-96 | the same for a directory's files |
| Report.SectionLinesNotHeaders | tree.py:69-96 | the same for a whole analysis section |
| Report.TreeLinesNotHeaders | tree.py:66 | no tree line is a section header |
| Report.HeadersAmong | tree.py:64-80 | in the report's layout, with no header among the tree and section lines, the three headers sit at 0, after the tree, and after the include section, and nowhere else |
| Report.SectionHeadersInOrder | tree.py:64-80 | each section header appears exactly once, in the order Project Structure, Header Include Analysis, CMakeLists.txt Analysis; the tree and the include section lie between them |

## Left out

- File-system access (`os.listdir`, `os.path.isdir`, `os.path.join`, `open`) is replaced by the `Node` value; symbolic links are not modelled.
- `os.walk` lists siblings in an operating-system order; the model takes the children in the order the `Node` holds them.
- `os.path.relpath` is modelled as the path components below the root joined with `/`, and `os.path.basename(root_dir)` as the root node's name; a root path given with a trailing separator (whose basename is empty) is not modelled.
- Report.ScanProject, TreeRender.GenerateTree: the root must be a directory; the source raises from `os.listdir` otherwise, and a directory that cannot be listed (an exception in the tree, silently skipped by `os.walk`) is not modelled.
- Includes.ExtractIncludes: a read error yields only the diagnostic entry; the source appends it after the includes of any lines read before the error, which the model does not capture. The diagnostic text is the error's message taken as given.
- UTF-8 decoding with `errors='ignore'` and universal-newline translation are not modelled: a readable file's contents are the already decoded text.
- CMakeTargets.CommandAtMeans: case-insensitive matching folds only ASCII letters; Python's `re.IGNORECASE` also lets a few non-ASCII letters that Unicode case-maps to `i` (such as the dotless `ı`) match the `i` of `add_library`.
- CMakeTargets.ExecutableRoundTrip: states only the first target of the text; that the text holds no library declaration is not stated.
- Writing the output file, the console message and the argument parser (tree.py:100-113) are I/O and are left out.

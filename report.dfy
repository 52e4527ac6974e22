/** `scan_project` in tree.py: the Markdown report, built as a list of
    lines and joined with newlines. It has three parts: the directory
    tree, the `#include` lines of every C/C++ source file, and the targets
    and text of every CMakeLists.txt. The last two visit files in the order
    of a top-down `os.walk` that prunes excluded directories. */
module Report {
  import opened Text
  import opened Fs
  import opened Exclusion
  import opened TreeRender
  import Includes
  import CMakeTargets

  const StructureHeader: string := "# Project Structure\n"
  const IncludeHeader: string := "\n# Header Include Analysis\n"
  const CMakeHeader: string := "\n# CMakeLists.txt Analysis\n"
  /** Every analysed file gets a heading line: this, then its path. */
  const HeadingPrefix: string := "\n## "
  const IncludePrefix: string := "- #include \""
  const IncludeSuffix: string := "\""
  const TargetPrefix: string := "- "
  const TargetsLine: string := "### Targets:"
  const ContentLine: string := "### Content:"
  const FenceOpen: string := "```cmake"
  const FenceClose: string := "```"
  const CMakeListsName: string := "CMakeLists.txt"

  /** A name ending in one of the C/C++ suffixes the include analysis reads. */
  predicate IsSourceFile(name: string) {
    EndsWith(name, ".cpp") || EndsWith(name, ".cc") || EndsWith(name, ".c") ||
    EndsWith(name, ".hpp") || EndsWith(name, ".h")
  }

  // ---------------------------------------------------------------------
  // The walk.

  /** One directory the walk yields: its path below the root, as
      components, and its files in listing order. */
  datatype Step = Step(path: seq<string>, files: seq<FileNode>)

  /** The files among cs, in order (the walk's `filenames`). */
  function FilesIn(cs: seq<Node>): seq<FileNode> {
    if cs == [] then []
    else FilesIn(cs[..|cs| - 1]) + (if cs[|cs| - 1].File? then [cs[|cs| - 1]] else [])
  }

  /** A child directory the walk goes into: the loop body removes the
      ignored names from `dirnames` before the walk descends. Dot names
      are not hidden here, unlike in the tree. */
  predicate Descends(c: Node, excludeBuild: bool) {
    c.Dir? && !Excluded(c, excludeBuild)
  }

  /** The directories a top-down `os.walk` from dir yields, once its loop
      has pruned `dirnames`: dir itself first, then, child directory by
      child directory in listing order, the walk of each one kept. The
      directory the walk starts from is never pruned. */
  function Walk(dir: Node, path: seq<string>, excludeBuild: bool): seq<Step>
    requires dir.Dir?
    decreases dir, 1
  {
    [Step(path, FilesIn(dir.children))] + WalkBelow(dir, |dir.children|, path, excludeBuild)
  }

  /** The walks of the first k children of dir that the walk descends into. */
  function WalkBelow(dir: Node, k: nat, path: seq<string>, excludeBuild: bool): seq<Step>
    requires dir.Dir? && k <= |dir.children|
    decreases dir, 0, k
  {
    if k == 0 then []
    else
      var c := dir.children[k - 1];
      assert c in dir.children;
      WalkBelow(dir, k - 1, path, excludeBuild) +
      (if Descends(c, excludeBuild) then Walk(c, path + [c.name], excludeBuild) else [])
  }

  // ---------------------------------------------------------------------
  // The lines of the report.

  /** The two per-file analyses; each one walks the tree again. */
  datatype Analysis = IncludeAnalysis | CMakeAnalysis

  /** Whether the analysis reads a file with this name. */
  predicate Selects(a: Analysis, name: string) {
    match a
    case IncludeAnalysis => IsSourceFile(name)
    case CMakeAnalysis => name == CMakeListsName
  }

  /** `os.path.relpath` of a file at path below the root: the components
      joined by `/`. */
  function RelPath(path: seq<string>, name: string): string {
    Join(path + [name], "/")
  }

  /** One line per item: prefix, the item, suffix. */
  function Bullets(prefix: string, suffix: string, items: seq<string>): seq<string> {
    if items == [] then []
    else Bullets(prefix, suffix, items[..|items| - 1]) + [prefix + items[|items| - 1] + suffix]
  }

  function IncludeBlock(rel: string, includes: seq<string>): seq<string> {
    [HeadingPrefix + rel] + Bullets(IncludePrefix, IncludeSuffix, includes)
  }

  function CMakeBlock(rel: string, targets: seq<string>, content: string): seq<string> {
    [HeadingPrefix + rel] +
    (if targets == [] then [] else [TargetsLine] + Bullets(TargetPrefix, "", targets)) +
    [ContentLine, FenceOpen, Strip(content), FenceClose]
  }

  /** The lines one file adds to the section of analysis a. */
  function FileLines(a: Analysis, path: seq<string>, f: FileNode): seq<string> {
    if !Selects(a, f.name) then []
    else
      match a
      case IncludeAnalysis =>
        IncludeBlock(RelPath(path, f.name), Includes.IncludesOf(f.contents))
      case CMakeAnalysis =>
        CMakeBlock(RelPath(path, f.name), CMakeTargets.TargetsOf(f.contents), CMakeTargets.ContentOf(f.contents))
  }

  /** The lines the files of one directory add, in order. */
  function FilesLines(a: Analysis, path: seq<string>, files: seq<FileNode>): seq<string> {
    if files == [] then []
    else FilesLines(a, path, files[..|files| - 1]) + FileLines(a, path, files[|files| - 1])
  }

  /** The body of the section of analysis a, over the walk's steps. */
  function SectionLines(a: Analysis, steps: seq<Step>): seq<string> {
    if steps == [] then []
    else
      var last := steps[|steps| - 1];
      SectionLines(a, steps[..|steps| - 1]) + FilesLines(a, last.path, last.files)
  }

  /** The list `scan_project` joins: the structure header, the root's
      name, the tree, then the two analyses, each under its header. */
  function ReportLines(root: Node, excludeBuild: bool): seq<string>
    requires root.Dir?
  {
    [StructureHeader, root.name + "/"] + TreeLines(root, "", excludeBuild) +
    [IncludeHeader] + SectionLines(IncludeAnalysis, Walk(root, [], excludeBuild)) +
    [CMakeHeader] + SectionLines(CMakeAnalysis, Walk(root, [], excludeBuild))
  }

  // ---------------------------------------------------------------------
  // The program.

  method AppendBullets(lines: seq<string>, prefix: string, suffix: string, items: seq<string>)
    returns (result: seq<string>)
    ensures result == lines + Bullets(prefix, suffix, items)
  {
    result := lines;
    for i := 0 to |items|
      invariant result == lines + Bullets(prefix, suffix, items[..i])
    {
      assert items[..i + 1][..i] == items[..i];
      result := result + [prefix + items[i] + suffix];
    }
    assert items[..|items|] == items;
  }

  /** The include analysis of one file: read it, then append its
      heading and one bullet per include. */
  method AppendIncludeBlock(lines: seq<string>, rel: string, contents: Contents) returns (result: seq<string>)
    ensures result == lines + IncludeBlock(rel, Includes.IncludesOf(contents))
  {
    var includes := Includes.ExtractIncludes(contents);
    result := lines + [HeadingPrefix + rel];
    result := AppendBullets(result, IncludePrefix, IncludeSuffix, includes);
  }

  /** The CMake analysis of one file: read it, then append its heading,
      its targets if it has any, and its stripped text in a fence. */
  method AppendCMakeBlock(lines: seq<string>, rel: string, contents: Contents) returns (result: seq<string>)
    ensures result == lines + CMakeBlock(rel, CMakeTargets.TargetsOf(contents), CMakeTargets.ContentOf(contents))
  {
    var targets, content := CMakeTargets.ExtractCMakeTargets(contents);
    ghost var head := [HeadingPrefix + rel];
    ghost var listed := if targets == [] then [] else [TargetsLine] + Bullets(TargetPrefix, "", targets);
    ghost var fence := [ContentLine, FenceOpen, Strip(content), FenceClose];
    result := lines + [HeadingPrefix + rel];
    if targets != [] {
      result := result + [TargetsLine];
      result := AppendBullets(result, TargetPrefix, "", targets);
      AppendAssoc(lines + head, [TargetsLine], Bullets(TargetPrefix, "", targets));
    } else {
      assert result == lines + head + listed;
    }
    result := result + [ContentLine, FenceOpen, Strip(content), FenceClose];
    AppendAssoc(lines, head, listed);
    AppendAssoc(lines, head + listed, fence);
    assert CMakeBlock(rel, targets, content) == head + listed + fence;
  }

  /** The body of the inner loop for one file: the analysis reads it,
      then appends its heading and findings. */
  method AppendFile(lines: seq<string>, a: Analysis, path: seq<string>, f: FileNode)
    returns (result: seq<string>)
    ensures result == lines + FileLines(a, path, f)
  {
    result := lines;
    if Selects(a, f.name) {
      var rel := RelPath(path, f.name);
      match a {
        case IncludeAnalysis =>
          result := AppendIncludeBlock(result, rel, f.contents);
        case CMakeAnalysis =>
          result := AppendCMakeBlock(result, rel, f.contents);
      }
    }
  }

  /** The inner loop: every file of one directory, in order. */
  method AppendFiles(lines: seq<string>, a: Analysis, path: seq<string>, files: seq<FileNode>)
    returns (result: seq<string>)
    ensures result == lines + FilesLines(a, path, files)
  {
    result := lines;
    for j := 0 to |files|
      invariant result == lines + FilesLines(a, path, files[..j])
    {
      FilesLinesStep(a, path, files, j);
      ghost var before := FilesLines(a, path, files[..j]);
      ghost var added := FileLines(a, path, files[j]);
      result := AppendFile(result, a, path, files[j]);
      AppendAssoc(lines, before, added);
    }
    assert files[..|files|] == files;
  }

  lemma AppendAssoc<T>(x: seq<T>, y: seq<T>, z: seq<T>)
    ensures (x + y) + z == x + (y + z)
  {
  }

  lemma FilesLinesStep(a: Analysis, path: seq<string>, files: seq<FileNode>, j: nat)
    requires j < |files|
    ensures FilesLines(a, path, files[..j + 1]) == FilesLines(a, path, files[..j]) + FileLines(a, path, files[j])
  {
    assert files[..j + 1][..j] == files[..j];
  }

  lemma SectionLinesStep(a: Analysis, walk: seq<Step>, i: nat)
    requires i < |walk|
    ensures SectionLines(a, walk[..i + 1]) == SectionLines(a, walk[..i]) + FilesLines(a, walk[i].path, walk[i].files)
  {
    assert walk[..i + 1][..i] == walk[..i];
  }

  /** One analysis loop: every directory the walk yields. */
  method AppendSection(lines: seq<string>, a: Analysis, walk: seq<Step>) returns (result: seq<string>)
    ensures result == lines + SectionLines(a, walk)
  {
    result := lines;
    for i := 0 to |walk|
      invariant result == lines + SectionLines(a, walk[..i])
    {
      SectionLinesStep(a, walk, i);
      ghost var before := SectionLines(a, walk[..i]);
      ghost var added := FilesLines(a, walk[i].path, walk[i].files);
      result := AppendFiles(result, a, walk[i].path, walk[i].files);
      AppendAssoc(lines, before, added);
    }
    assert walk[..|walk|] == walk;
  }

  /** `scan_project`. */
  method ScanProject(root: Node, excludeBuild: bool) returns (report: string)
    requires root.Dir?
    ensures report == Join(ReportLines(root, excludeBuild), "\n")
  {
    var lines := [StructureHeader, root.name + "/"];
    var tree := GenerateTree(root, "", excludeBuild);
    lines := lines + tree;
    lines := lines + [IncludeHeader];
    lines := AppendSection(lines, IncludeAnalysis, Walk(root, [], excludeBuild));
    lines := lines + [CMakeHeader];
    lines := AppendSection(lines, CMakeAnalysis, Walk(root, [], excludeBuild));
    report := Join(lines, "\n");
  }

  // ---------------------------------------------------------------------
  // The walk: top-down, pruned.

  /** Every directory the walk yields lies below `path`, and no component
      of its path below `path` is a name the policy excludes; the
      directory the walk starts from comes first, its descendants after. */
  lemma {:induction false} WalkPruned(dir: Node, path: seq<string>, excludeBuild: bool)
    requires dir.Dir?
    ensures var w := Walk(dir, path, excludeBuild);
            w[0].path == path &&
            forall i :: 0 <= i < |w| ==>
              |path| <= |w[i].path| && w[i].path[..|path|] == path &&
              (i > 0 ==> |path| < |w[i].path|) &&
              forall k :: |path| <= k < |w[i].path| ==> !ShouldIgnoreDir(w[i].path[k], excludeBuild)
    decreases dir, 1
  {
    WalkBelowPruned(dir, |dir.children|, path, excludeBuild);
    var w := Walk(dir, path, excludeBuild);
    var below := WalkBelow(dir, |dir.children|, path, excludeBuild);
    assert w == [Step(path, FilesIn(dir.children))] + below;
    forall i | 0 < i < |w|
      ensures w[i] in below
    {
      assert w[i] == below[i - 1];
    }
  }

  lemma {:induction false} WalkBelowPruned(dir: Node, k: nat, path: seq<string>, excludeBuild: bool)
    requires dir.Dir? && k <= |dir.children|
    ensures forall s :: s in WalkBelow(dir, k, path, excludeBuild) ==>
              |path| < |s.path| && s.path[..|path|] == path &&
              forall q :: |path| <= q < |s.path| ==> !ShouldIgnoreDir(s.path[q], excludeBuild)
    decreases dir, 0, k
  {
    if k > 0 {
      var c := dir.children[k - 1];
      assert c in dir.children;
      WalkBelowPruned(dir, k - 1, path, excludeBuild);
      if Descends(c, excludeBuild) {
        var cp := path + [c.name];
        WalkPruned(c, cp, excludeBuild);
        var w := Walk(c, cp, excludeBuild);
        forall s | s in w
          ensures |path| < |s.path| && s.path[..|path|] == path &&
                  forall q :: |path| <= q < |s.path| ==> !ShouldIgnoreDir(s.path[q], excludeBuild)
        {
          var i :| 0 <= i < |w| && w[i] == s;
          assert s.path[..|cp|] == cp;
          assert s.path[..|path|] == cp[..|path|] == path;
          assert s.path[|path|] == cp[|path|] == c.name;
        }
      }
    }
  }

  /** Number of directories a pruned walk from n enters, n included;
      defined on the tree, independently of the order of the walk. */
  function WalkedDirs(n: Node, excludeBuild: bool): nat
    decreases n
  {
    match n
    case File(_, _) => 0
    case Dir(_, cs) => 1 + DescendedDirs(cs, excludeBuild)
  }

  function DescendedDirs(cs: seq<Node>, excludeBuild: bool): nat
    decreases cs
  {
    if cs == [] then 0
    else
      DescendedDirs(cs[..|cs| - 1], excludeBuild) +
      (if Descends(cs[|cs| - 1], excludeBuild) then WalkedDirs(cs[|cs| - 1], excludeBuild) else 0)
  }

  /** The walk yields each entered directory once. */
  lemma {:induction false} WalkLength(dir: Node, path: seq<string>, excludeBuild: bool)
    requires dir.Dir?
    ensures |Walk(dir, path, excludeBuild)| == WalkedDirs(dir, excludeBuild)
    decreases dir, 1
  {
    WalkBelowLength(dir, |dir.children|, path, excludeBuild);
    assert dir.children[..|dir.children|] == dir.children;
  }

  lemma {:induction false} WalkBelowLength(dir: Node, k: nat, path: seq<string>, excludeBuild: bool)
    requires dir.Dir? && k <= |dir.children|
    ensures |WalkBelow(dir, k, path, excludeBuild)| == DescendedDirs(dir.children[..k], excludeBuild)
    decreases dir, 0, k
  {
    if k > 0 {
      var c := dir.children[k - 1];
      assert c in dir.children;
      WalkBelowLength(dir, k - 1, path, excludeBuild);
      assert dir.children[..k][..k - 1] == dir.children[..k - 1];
      if Descends(c, excludeBuild) {
        WalkLength(c, path + [c.name], excludeBuild);
      }
    }
  }

  lemma {:induction false} WalkedDirsMonotone(n: Node)
    ensures WalkedDirs(n, true) <= WalkedDirs(n, false)
    decreases n
  {
    match n
    case File(_, _) =>
    case Dir(_, cs) => DescendedDirsMonotone(cs);
  }

  lemma {:induction false} DescendedDirsMonotone(cs: seq<Node>)
    ensures DescendedDirs(cs, true) <= DescendedDirs(cs, false)
    decreases cs
  {
    if cs != [] {
      var c := cs[|cs| - 1];
      assert c in cs;
      DescendedDirsMonotone(cs[..|cs| - 1]);
      WalkedDirsMonotone(c);
    }
  }

  /** Turning build exclusion on never makes the walk enter more
      directories. */
  lemma ExclusionNeverAddsSteps(dir: Node, path: seq<string>)
    requires dir.Dir?
    ensures |Walk(dir, path, true)| <= |Walk(dir, path, false)|
  {
    WalkLength(dir, path, true);
    WalkLength(dir, path, false);
    WalkedDirsMonotone(dir);
  }

  /** Unlike the tree, the walk does not hide dot-names: a `.cache`
      directory is entered, while `.git` is pruned once exclusion is on. */
  lemma WalkDotNamesExample()
    ensures Walk(Dir("p", [Dir(".cache", [])]), [], true) == [Step([], []), Step([".cache"], [])]
    ensures Walk(Dir("p", [Dir(".git", [])]), [], true) == [Step([], [])]
    ensures Walk(Dir("p", [Dir(".git", [])]), [], false) == [Step([], []), Step([".git"], [])]
  {
    var cache, git := Dir(".cache", []), Dir(".git", []);
    assert FilesIn([cache]) == FilesIn([git]) == [];
    assert ".cache" !in IgnoredDirs && !(CMakeBuildPrefix <= ".cache");
    assert Descends(cache, true) && Descends(git, false);
    assert WalkBelow(Dir("p", [cache]), 0, [], true) == WalkBelow(Dir("p", [git]), 0, [], false) == [];
    assert Walk(cache, [".cache"], true) == [Step([".cache"], [])];
    var p1 := Dir("p", [cache]);
    assert p1.children[0] == cache;
    var path: seq<string> := [];
    assert path + [cache.name] == [".cache"];
    assert WalkBelow(p1, 1, path, true) == WalkBelow(p1, 0, path, true) + Walk(cache, path + [cache.name], true);
    assert Walk(git, [".git"], false) == [Step([".git"], [])];
    var p2 := Dir("p", [git]);
    assert p2.children[0] == git;
    assert path + [git.name] == [".git"];
    assert WalkBelow(p2, 1, path, false) == WalkBelow(p2, 0, path, false) + Walk(git, path + [git.name], false);
  }

  // ---------------------------------------------------------------------
  // Shape of the per-file blocks.

  /** One bullet per item, in order. */
  lemma {:induction false} BulletsAt(prefix: string, suffix: string, items: seq<string>)
    ensures |Bullets(prefix, suffix, items)| == |items|
    ensures forall i :: 0 <= i < |items| ==> Bullets(prefix, suffix, items)[i] == prefix + items[i] + suffix
  {
    if items != [] {
      var init := items[..|items| - 1];
      BulletsAt(prefix, suffix, init);
      var b := Bullets(prefix, suffix, items);
      assert b == Bullets(prefix, suffix, init) + [prefix + items[|items| - 1] + suffix];
      forall i | 0 <= i < |items|
        ensures b[i] == prefix + items[i] + suffix
      {
        if i < |init| {
          assert init[i] == items[i];
        }
      }
    }
  }

  /** A source file gets its heading, then one bullet per extracted
      include, in extraction order, always written with double quotes
      whatever delimiter the directive used. */
  lemma IncludeFileBlock(path: seq<string>, f: FileNode)
    requires IsSourceFile(f.name)
    ensures var b := FileLines(IncludeAnalysis, path, f);
            var incs := Includes.IncludesOf(f.contents);
            |b| == 1 + |incs| && b[0] == HeadingPrefix + RelPath(path, f.name) &&
            forall i :: 0 <= i < |incs| ==> b[1 + i] == "- #include \"" + incs[i] + "\""
  {
    BulletsAt(IncludePrefix, IncludeSuffix, Includes.IncludesOf(f.contents));
  }

  /** The CMake block: heading; the `### Targets:` line and one bullet
      per target only when there are targets; then always the
      `### Content:` line and the fenced, stripped text. */
  lemma CMakeBlockShape(rel: string, t: seq<string>, content: string)
    ensures var b := CMakeBlock(rel, t, content);
            var n := if t == [] then 1 else 2 + |t|;
            |b| == n + 4 && b[0] == HeadingPrefix + rel &&
            (b[1] == TargetsLine <==> t != []) &&
            (forall i :: 0 <= i < |t| ==> b[2 + i] == TargetPrefix + t[i]) &&
            b[n..] == [ContentLine, FenceOpen, Strip(content), FenceClose]
  {
    BulletsAt(TargetPrefix, "", t);
    var b := CMakeBlock(rel, t, content);
    var tail := [ContentLine, FenceOpen, Strip(content), FenceClose];
    if t == [] {
      assert b == [HeadingPrefix + rel] + tail;
    } else {
      var bullets := Bullets(TargetPrefix, "", t);
      assert b == [HeadingPrefix + rel] + ([TargetsLine] + bullets) + tail;
      forall i | 0 <= i < |t|
        ensures b[2 + i] == TargetPrefix + t[i]
      {
        assert b[2 + i] == bullets[i];
      }
    }
  }

  /** A CMakeLists.txt gets its heading; the `### Targets:` line and one
      bullet per target only when there are targets; then always the
      `### Content:` line and the fenced, stripped text. */
  lemma CMakeFileBlock(path: seq<string>, f: FileNode)
    requires f.name == CMakeListsName
    ensures var b := FileLines(CMakeAnalysis, path, f);
            var t := CMakeTargets.TargetsOf(f.contents);
            var n := if t == [] then 1 else 2 + |t|;
            |b| == n + 4 && b[0] == HeadingPrefix + RelPath(path, f.name) &&
            (b[1] == TargetsLine <==> t != []) &&
            (forall i :: 0 <= i < |t| ==> b[2 + i] == TargetPrefix + t[i]) &&
            b[n..] == [ContentLine, FenceOpen, Strip(CMakeTargets.ContentOf(f.contents)), FenceClose]
  {
    assert Selects(CMakeAnalysis, f.name);
    CMakeBlockShape(RelPath(path, f.name), CMakeTargets.TargetsOf(f.contents), CMakeTargets.ContentOf(f.contents));
  }

  /** A file neither analysis selects adds no line to its section. */
  lemma UnselectedFileSilent(a: Analysis, path: seq<string>, f: FileNode)
    requires !IsSourceFile(f.name) && f.name != CMakeListsName
    ensures FileLines(a, path, f) == []
  {
  }

  // ---------------------------------------------------------------------
  // The three section headers.

  predicate IsSectionHeader(line: string) {
    line == StructureHeader || line == IncludeHeader || line == CMakeHeader
  }

  /** A line that starts with neither `#` nor a newline is no header. */
  lemma PlainStartNotHeader(line: string)
    requires line != [] && line[0] != '#' && line[0] != '\n'
    ensures !IsSectionHeader(line)
  {
    assert StructureHeader[0] == '#' && IncludeHeader[0] == '\n' && CMakeHeader[0] == '\n';
  }

  lemma BulletsNotHeaders(prefix: string, suffix: string, items: seq<string>)
    requires prefix != [] && prefix[0] == '-'
    ensures forall l :: l in Bullets(prefix, suffix, items) ==> !IsSectionHeader(l)
  {
    BulletsAt(prefix, suffix, items);
    forall l | l in Bullets(prefix, suffix, items)
      ensures !IsSectionHeader(l)
    {
      var i :| 0 <= i < |items| && Bullets(prefix, suffix, items)[i] == l;
      assert l[0] == prefix[0];
      PlainStartNotHeader(l);
    }
  }

  lemma HeadingNotHeader(rel: string)
    ensures !IsSectionHeader(HeadingPrefix + rel)
  {
    var heading := HeadingPrefix + rel;
    assert heading[..3] == "\n##";
    assert StructureHeader[0] == '#' && IncludeHeader[..3] == "\n# " && CMakeHeader[..3] == "\n# ";
  }

  /** A stripped text is no section header: every header starts or ends
      with whitespace. */
  lemma StrippedNotHeader(content: string)
    ensures !IsSectionHeader(Strip(content))
  {
    var body := Strip(content);
    StripEnds(content);
    if body != [] {
      assert IsSpace(StructureHeader[|StructureHeader| - 1]) && IsSpace(IncludeHeader[0]) && IsSpace(CMakeHeader[0]);
    }
  }

  lemma CMakeBlockNotHeaders(rel: string, t: seq<string>, content: string)
    ensures forall l :: l in CMakeBlock(rel, t, content) ==> !IsSectionHeader(l)
  {
    HeadingNotHeader(rel);
    BulletsNotHeaders(TargetPrefix, "", t);
    StrippedNotHeader(content);
    assert TargetsLine[..2] == ContentLine[..2] == "##" && StructureHeader[..2] == "# ";
    assert IncludeHeader[0] == CMakeHeader[0] == '\n';
    PlainStartNotHeader(FenceOpen);
    PlainStartNotHeader(FenceClose);
  }

  lemma FileLinesNotHeaders(a: Analysis, path: seq<string>, f: FileNode)
    ensures forall l :: l in FileLines(a, path, f) ==> !IsSectionHeader(l)
  {
    if Selects(a, f.name) {
      var rel := RelPath(path, f.name);
      match a
      case IncludeAnalysis =>
        HeadingNotHeader(rel);
        BulletsNotHeaders(IncludePrefix, IncludeSuffix, Includes.IncludesOf(f.contents));
      case CMakeAnalysis =>
        CMakeBlockNotHeaders(rel, CMakeTargets.TargetsOf(f.contents), CMakeTargets.ContentOf(f.contents));
    }
  }

  lemma {:induction false} FilesLinesNotHeaders(a: Analysis, path: seq<string>, files: seq<FileNode>)
    ensures forall l :: l in FilesLines(a, path, files) ==> !IsSectionHeader(l)
  {
    if files != [] {
      FilesLinesNotHeaders(a, path, files[..|files| - 1]);
      FileLinesNotHeaders(a, path, files[|files| - 1]);
    }
  }

  lemma {:induction false} SectionLinesNotHeaders(a: Analysis, steps: seq<Step>)
    ensures forall l :: l in SectionLines(a, steps) ==> !IsSectionHeader(l)
  {
    if steps != [] {
      var last := steps[|steps| - 1];
      SectionLinesNotHeaders(a, steps[..|steps| - 1]);
      FilesLinesNotHeaders(a, last.path, last.files);
    }
  }

  lemma TreeLinesNotHeaders(root: Node, excludeBuild: bool)
    requires root.Dir?
    ensures forall l :: l in TreeLines(root, "", excludeBuild) ==> !IsSectionHeader(l)
  {
    TreeLinesShaped(root, "", excludeBuild);
    forall l | l in TreeLines(root, "", excludeBuild)
      ensures !IsSectionHeader(l)
    {
      assert WellShaped(l, "");
      assert l[0] == l[0..4][0];
      PlainStartNotHeader(l);
    }
  }

  /** The report holds each of its three section headers exactly once, in
      the order Project Structure, Header Include Analysis, CMakeLists.txt
      Analysis: the first after the root's name line and the whole tree,
      the second after the whole include section. */
  lemma SectionHeadersInOrder(root: Node, excludeBuild: bool)
    requires root.Dir?
    ensures var lines := ReportLines(root, excludeBuild);
            var inc := 2 + |TreeLines(root, "", excludeBuild)|;
            var cm := inc + 1 + |SectionLines(IncludeAnalysis, Walk(root, [], excludeBuild))|;
            0 < inc < cm < |lines| &&
            lines[0] == StructureHeader && lines[1] == root.name + "/" &&
            lines[inc] == IncludeHeader && lines[cm] == CMakeHeader &&
            forall k :: 0 <= k < |lines| && k != 0 && k != inc && k != cm ==> !IsSectionHeader(lines[k])
  {
    var tree := TreeLines(root, "", excludeBuild);
    var incs := SectionLines(IncludeAnalysis, Walk(root, [], excludeBuild));
    var cms := SectionLines(CMakeAnalysis, Walk(root, [], excludeBuild));
    TreeLinesNotHeaders(root, excludeBuild);
    SectionLinesNotHeaders(IncludeAnalysis, Walk(root, [], excludeBuild));
    SectionLinesNotHeaders(CMakeAnalysis, Walk(root, [], excludeBuild));
    var rootLine := root.name + "/";
    assert rootLine[|rootLine| - 1] == '/';
    HeadersAmong(rootLine, tree, incs, cms);
  }

  /** The report's layout: where the three headers sit, given that no
      other piece is a header. */
  lemma HeadersAmong(rootLine: string, tree: seq<string>, incs: seq<string>, cms: seq<string>)
    requires |rootLine| > 0 && rootLine[|rootLine| - 1] == '/'
    requires forall l :: l in tree ==> !IsSectionHeader(l)
    requires forall l :: l in incs ==> !IsSectionHeader(l)
    requires forall l :: l in cms ==> !IsSectionHeader(l)
    ensures var lines := [StructureHeader, rootLine] + tree + [IncludeHeader] + incs + [CMakeHeader] + cms;
            var inc := 2 + |tree|;
            var cm := inc + 1 + |incs|;
            0 < inc < cm < |lines| &&
            lines[0] == StructureHeader && lines[1] == rootLine &&
            lines[inc] == IncludeHeader && lines[cm] == CMakeHeader &&
            forall k :: 0 <= k < |lines| && k != 0 && k != inc && k != cm ==> !IsSectionHeader(lines[k])
  {
    var lines := [StructureHeader, rootLine] + tree + [IncludeHeader] + incs + [CMakeHeader] + cms;
    var inc := 2 + |tree|;
    var cm := inc + 1 + |incs|;
    assert !IsSectionHeader(rootLine);
    forall k | 0 <= k < |lines| && k != 0 && k != inc && k != cm
      ensures !IsSectionHeader(lines[k])
    {
      if k == 1 {
        assert lines[k] == rootLine;
      } else if 2 <= k < inc {
        assert lines[k] == tree[k - 2];
      } else if inc < k < cm {
        assert lines[k] == incs[k - inc - 1];
      } else if cm < k {
        assert lines[k] == cms[k - cm - 1];
      }
    }
  }
}

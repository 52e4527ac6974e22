/** The box-drawing directory tree (`generate_tree` in tree.py): entries
    sorted by name, dot-names hidden except `.vscode` and `.git`, excluded
    directories skipped, one line per remaining entry followed at once by
    the lines of its own subtree. */
module TreeRender {
  import opened Fs
  import opened Exclusion
  import opened Ordering

  const Tee: string := "├── "
  const Elbow: string := "└── "
  const Bar: string := "│   "
  const Blank: string := "    "

  /** The connector drawn before an entry's name. */
  function Connector(last: bool): string {
    if last then Elbow else Tee
  }

  /** The piece that extends the prefix handed to an entry's children. */
  function Extension(last: bool): string {
    if last then Blank else Bar
  }

  /** A name the tree shows: not starting with `.`, or `.vscode` or `.git`. */
  predicate VisibleName(name: string) {
    !(|name| > 0 && name[0] == '.') || name == ".vscode" || name == ".git"
  }

  /** An entry the exclusion policy removes (only directories are removed). */
  predicate Excluded(e: Node, excludeBuild: bool) {
    e.Dir? && ShouldIgnoreDir(e.name, excludeBuild)
  }

  /** Drops the hidden dot-names from a listing, keeping its order. */
  function HideDotNames(s: seq<Node>): seq<Node> {
    if s == [] then []
    else if VisibleName(s[0].name) then [s[0]] + HideDotNames(s[1..])
    else HideDotNames(s[1..])
  }

  /** What survives the filter is a visible entry of the listing. */
  lemma {:induction false} HideDotNamesKeeps(s: seq<Node>)
    ensures forall i :: 0 <= i < |HideDotNames(s)| ==> HideDotNames(s)[i] in s && VisibleName(HideDotNames(s)[i].name)
  {
    if s != [] {
      HideDotNamesKeeps(s[1..]);
    }
  }

  /** Every visible entry of the listing survives the filter. */
  lemma {:induction false} HideDotNamesComplete(s: seq<Node>)
    ensures forall x :: x in s && VisibleName(x.name) ==> x in HideDotNames(s)
  {
    if s != [] {
      HideDotNamesComplete(s[1..]);
      forall x | x in s && VisibleName(x.name)
        ensures x in HideDotNames(s)
      {
        if x != s[0] {
          assert x in s[1..];
        }
      }
    }
  }

  /** The filter keeps each visible entry as often as the listing holds
      it, and no hidden one. */
  lemma {:induction false} HideDotNamesCounts(s: seq<Node>)
    ensures forall x :: multiset(HideDotNames(s))[x] == if VisibleName(x.name) then multiset(s)[x] else 0
  {
    if s != [] {
      HideDotNamesCounts(s[1..]);
      assert s == [s[0]] + s[1..];
      assert multiset(s) == multiset([s[0]]) + multiset(s[1..]);
    }
  }

  lemma {:induction false} HideDotNamesKeepsSorted(s: seq<Node>)
    requires SortedByName(s)
    ensures SortedByName(HideDotNames(s))
  {
    if s != [] {
      HideDotNamesKeepsSorted(s[1..]);
      HideDotNamesKeeps(s[1..]);
      var rest := HideDotNames(s[1..]);
      forall j | 0 <= j < |rest|
        ensures NotAfter(s[0].name, rest[j].name)
      {
        assert rest[j] in s[1..];
      }
    }
  }

  /** The entries of a directory the loop of `generate_tree` runs over:
      the sorted listing with the hidden dot-names removed. */
  function Entries(dir: Node): (r: seq<Node>)
    requires dir.Dir?
    ensures forall i :: 0 <= i < |r| ==> r[i] in dir.children && VisibleName(r[i].name)
    ensures forall c :: c in dir.children && VisibleName(c.name) ==> c in r
  {
    var sorted := SortByName(dir.children);
    SortByNamePermutes(dir.children);
    HideDotNamesKeeps(sorted);
    HideDotNamesComplete(sorted);
    assert forall x :: x in sorted ==> x in multiset(dir.children);
    assert forall x :: x in dir.children ==> x in multiset(sorted);
    HideDotNames(sorted)
  }

  /** The entries are exactly the visible children, each as often as the
      directory lists it: a reordering of the filtered listing. */
  lemma EntriesAreVisibleChildren(dir: Node)
    requires dir.Dir?
    ensures multiset(Entries(dir)) == multiset(HideDotNames(dir.children))
  {
    var sorted := SortByName(dir.children);
    SortByNamePermutes(dir.children);
    HideDotNamesCounts(sorted);
    HideDotNamesCounts(dir.children);
    assert forall x :: multiset(HideDotNames(sorted))[x] == multiset(HideDotNames(dir.children))[x];
  }

  /** The entries come in sorted name order. */
  lemma EntriesSorted(dir: Node)
    requires dir.Dir?
    ensures SortedByName(Entries(dir))
  {
    SortByNameSorted(dir.children);
    HideDotNamesKeepsSorted(SortByName(dir.children));
  }

  /** Every entry of the listing is a child of dir. */
  ghost predicate ListedIn(entries: seq<Node>, dir: Node)
    requires dir.Dir?
  {
    forall i :: 0 <= i < |entries| ==> entries[i] in dir.children
  }

  /** The lines `generate_tree(dir, prefix, excludeBuild)` returns. */
  function TreeLines(dir: Node, prefix: string, excludeBuild: bool): seq<string>
    requires dir.Dir?
    decreases dir, 2
  {
    var entries := Entries(dir);
    EntriesLines(dir, entries, |entries|, prefix, excludeBuild)
  }

  /** The lines produced by the first k iterations of the loop. */
  function EntriesLines(dir: Node, entries: seq<Node>, k: nat, prefix: string, excludeBuild: bool): seq<string>
    requires dir.Dir? && ListedIn(entries, dir) && k <= |entries|
    decreases dir, 1, k
  {
    if k == 0 then []
    else EntriesLines(dir, entries, k - 1, prefix, excludeBuild) + EntryLines(dir, entries, k - 1, prefix, excludeBuild)
  }

  /** The lines iteration i of the loop appends. Whether the entry is the
      last one is decided on the whole filtered listing, before excluded
      directories are skipped. */
  function EntryLines(dir: Node, entries: seq<Node>, i: nat, prefix: string, excludeBuild: bool): seq<string>
    requires dir.Dir? && ListedIn(entries, dir) && i < |entries|
    decreases dir, 0
  {
    var e := entries[i];
    var last := i == |entries| - 1;
    if Excluded(e, excludeBuild) then []
    else if e.Dir? then
      assert e in dir.children;
      [prefix + Connector(last) + e.name] + TreeLines(e, prefix + Extension(last), excludeBuild)
    else [prefix + Connector(last) + e.name]
  }

  /** `generate_tree`: lists, sorts and filters the directory, then walks
      its entries, recursing into every directory that is not excluded. */
  method GenerateTree(dir: Node, prefix: string, excludeBuild: bool) returns (lines: seq<string>)
    requires dir.Dir?
    ensures lines == TreeLines(dir, prefix, excludeBuild)
    decreases dir
  {
    lines := [];
    var entries := Entries(dir);
    var i := 0;
    while i < |entries|
      invariant 0 <= i <= |entries|
      invariant lines == EntriesLines(dir, entries, i, prefix, excludeBuild)
    {
      var entry := entries[i];
      ghost var before := lines;
      ghost var last := i == |entries| - 1;
      if !(entry.Dir? && ShouldIgnoreDir(entry.name, excludeBuild)) {
        var connector := if i == |entries| - 1 then Elbow else Tee;
        assert connector == Connector(last);
        lines := lines + [prefix + connector + entry.name];
        if entry.Dir? {
          var extension := if i == |entries| - 1 then Blank else Bar;
          assert entry in dir.children;
          var sub := GenerateTree(entry, prefix + extension, excludeBuild);
          assert EntryLines(dir, entries, i, prefix, excludeBuild) == [prefix + connector + entry.name] + sub;
          lines := lines + sub;
        } else {
          assert EntryLines(dir, entries, i, prefix, excludeBuild) == [prefix + connector + entry.name];
        }
      } else {
        assert EntryLines(dir, entries, i, prefix, excludeBuild) == [];
      }
      assert lines == before + EntryLines(dir, entries, i, prefix, excludeBuild);
      i := i + 1;
    }
  }

  // ---------------------------------------------------------------------
  // Line count: one line per shown entry, summed over the whole tree.

  /** Shown in the tree: a visible name that the policy does not exclude. */
  predicate Shown(e: Node, excludeBuild: bool) {
    VisibleName(e.name) && !Excluded(e, excludeBuild)
  }

  /** Reference count of the lines below a node: its shown children, each
      with the lines below it, taken over the unsorted listing. */
  function SubtreeLineCount(n: Node, excludeBuild: bool): nat
    decreases n
  {
    match n
    case File(_, _) => 0
    case Dir(_, cs) => ShownCount(cs, excludeBuild)
  }

  function ShownCount(cs: seq<Node>, excludeBuild: bool): nat
    decreases cs
  {
    if cs == [] then 0
    else
      (if Shown(cs[0], excludeBuild) then 1 + SubtreeLineCount(cs[0], excludeBuild) else 0)
      + ShownCount(cs[1..], excludeBuild)
  }

  lemma {:induction false} ShownCountAppend(a: seq<Node>, b: seq<Node>, excludeBuild: bool)
    ensures ShownCount(a + b, excludeBuild) == ShownCount(a, excludeBuild) + ShownCount(b, excludeBuild)
  {
    if a == [] {
      assert a + b == b;
    } else {
      assert (a + b)[0] == a[0];
      assert (a + b)[1..] == a[1..] + b;
      ShownCountAppend(a[1..], b, excludeBuild);
    }
  }

  /** Taking one entry out of a listing takes its weight out of the count. */
  lemma ShownCountRemove(b: seq<Node>, k: nat, excludeBuild: bool)
    requires k < |b|
    ensures ShownCount(b, excludeBuild) == ShownCount([b[k]], excludeBuild) + ShownCount(b[..k] + b[k + 1..], excludeBuild)
  {
    assert b == b[..k] + [b[k]] + b[k + 1..];
    ShownCountAppend(b[..k] + [b[k]], b[k + 1..], excludeBuild);
    ShownCountAppend(b[..k], [b[k]], excludeBuild);
    ShownCountAppend(b[..k], b[k + 1..], excludeBuild);
  }

  /** Where the head of a listing went in a permutation of it, and what
      is left of both once it is taken out. */
  lemma HeadInPermutation<T>(a: seq<T>, b: seq<T>) returns (k: nat)
    requires multiset(a) == multiset(b) && a != []
    ensures k < |b| && b[k] == a[0]
    ensures multiset(a[1..]) == multiset(b[..k] + b[k + 1..])
  {
    assert a[0] in multiset(b);
    k :| 0 <= k < |b| && b[k] == a[0];
    assert b == b[..k] + [b[k]] + b[k + 1..];
    assert a == [a[0]] + a[1..];
    assert multiset(b[..k] + b[k + 1..]) == multiset(b) - multiset([b[k]]);
    assert multiset(a[1..]) == multiset(a) - multiset([a[0]]);
  }

  /** The count does not depend on the order of the listing. */
  lemma {:induction false} ShownCountPermutation(a: seq<Node>, b: seq<Node>, excludeBuild: bool)
    requires multiset(a) == multiset(b)
    ensures ShownCount(a, excludeBuild) == ShownCount(b, excludeBuild)
    decreases |a|
  {
    if a != [] {
      var k := HeadInPermutation(a, b);
      ShownCountPermutation(a[1..], b[..k] + b[k + 1..], excludeBuild);
      ShownCountRemove(b, k, excludeBuild);
      ShownCountRemove(a, 0, excludeBuild);
      assert a[..0] + a[1..] == a[1..];
    }
  }

  /** Hidden dot-names weigh nothing in the count. */
  lemma {:induction false} ShownCountHide(s: seq<Node>, excludeBuild: bool)
    ensures ShownCount(HideDotNames(s), excludeBuild) == ShownCount(s, excludeBuild)
  {
    if s != [] {
      ShownCountHide(s[1..], excludeBuild);
      if VisibleName(s[0].name) {
        assert ([s[0]] + HideDotNames(s[1..]))[1..] == HideDotNames(s[1..]);
      }
    }
  }

  lemma {:induction false} EntriesLineCount(dir: Node, entries: seq<Node>, k: nat, prefix: string, excludeBuild: bool)
    requires dir.Dir? && entries == Entries(dir) && k <= |entries|
    ensures |EntriesLines(dir, entries, k, prefix, excludeBuild)| == ShownCount(entries[..k], excludeBuild)
    decreases dir, 1, k
  {
    if k > 0 {
      EntriesLineCount(dir, entries, k - 1, prefix, excludeBuild);
      var e := entries[k - 1];
      assert entries[..k] == entries[..k - 1] + [e];
      ShownCountAppend(entries[..k - 1], [e], excludeBuild);
      assert [e][1..] == [];
      assert e in entries;
      assert VisibleName(e.name);
      if e.Dir? && !ShouldIgnoreDir(e.name, excludeBuild) {
        assert e in dir.children;
        TreeLineCount(e, prefix + Extension(k - 1 == |entries| - 1), excludeBuild);
      }
    }
  }

  /** `generate_tree` emits exactly one line per entry that is visible and
      not excluded, summed recursively over the tree. */
  lemma {:induction false} TreeLineCount(dir: Node, prefix: string, excludeBuild: bool)
    requires dir.Dir?
    ensures |TreeLines(dir, prefix, excludeBuild)| == SubtreeLineCount(dir, excludeBuild)
    decreases dir, 2
  {
    var entries := Entries(dir);
    EntriesLineCount(dir, entries, |entries|, prefix, excludeBuild);
    assert entries[..|entries|] == entries;
    var sorted := SortByName(dir.children);
    SortByNamePermutes(dir.children);
    ShownCountHide(sorted, excludeBuild);
    ShownCountPermutation(sorted, dir.children, excludeBuild);
  }

  lemma {:induction false} SubtreeCountMonotone(n: Node)
    ensures SubtreeLineCount(n, true) <= SubtreeLineCount(n, false)
    decreases n
  {
    match n
    case File(_, _) =>
    case Dir(_, cs) => ShownCountMonotone(cs);
  }

  lemma {:induction false} ShownCountMonotone(cs: seq<Node>)
    ensures ShownCount(cs, true) <= ShownCount(cs, false)
    decreases cs
  {
    if cs != [] {
      SubtreeCountMonotone(cs[0]);
      ShownCountMonotone(cs[1..]);
    }
  }

  /** Turning build exclusion on never adds lines to the tree. */
  lemma ExclusionNeverAddsLines(dir: Node, prefix: string)
    requires dir.Dir?
    ensures |TreeLines(dir, prefix, true)| <= |TreeLines(dir, prefix, false)|
  {
    TreeLineCount(dir, prefix, true);
    TreeLineCount(dir, prefix, false);
    SubtreeCountMonotone(dir);
  }

  // ---------------------------------------------------------------------
  // Shape of a line: the prefix, whole 4-character indent pieces, then a
  // connector and the name.

  predicate IsConnector(s: string) {
    s == Tee || s == Elbow
  }

  predicate IsExtension(s: string) {
    s == Bar || s == Blank
  }

  /** `line` is `p`, then zero or more indent pieces, then a connector. */
  predicate WellShaped(line: string, p: string)
    decreases |line| - |p|
  {
    |p| + 4 <= |line| && line[..|p|] == p &&
    (IsConnector(line[|p|..|p| + 4]) ||
     (IsExtension(line[|p|..|p| + 4]) && WellShaped(line, line[..|p| + 4])))
  }

  /** A line shaped under a child's prefix is shaped under its parent's. */
  lemma ShapedUnderExtension(line: string, p: string, ext: string)
    requires IsExtension(ext) && WellShaped(line, p + ext)
    ensures WellShaped(line, p)
  {
    assert line[..|p| + 4] == p + ext;
    assert line[..|p|] == (p + ext)[..|p|] == p;
    assert line[|p|..|p| + 4] == ext;
  }

  lemma HeadLineShaped(p: string, c: string, name: string)
    requires IsConnector(c)
    ensures WellShaped(p + c + name, p)
  {
    var line := p + c + name;
    assert line[..|p|] == p;
    assert line[|p|..|p| + 4] == c;
  }

  lemma {:induction false} EntriesLinesShaped(dir: Node, entries: seq<Node>, k: nat, prefix: string, excludeBuild: bool)
    requires dir.Dir? && ListedIn(entries, dir) && k <= |entries|
    ensures forall l :: l in EntriesLines(dir, entries, k, prefix, excludeBuild) ==> WellShaped(l, prefix)
    decreases dir, 1, k
  {
    if k > 0 {
      EntriesLinesShaped(dir, entries, k - 1, prefix, excludeBuild);
      var e := entries[k - 1];
      var last := k - 1 == |entries| - 1;
      if !Excluded(e, excludeBuild) {
        HeadLineShaped(prefix, Connector(last), e.name);
        if e.Dir? {
          assert e in dir.children;
          var ext := Extension(last);
          TreeLinesShaped(e, prefix + ext, excludeBuild);
          forall l | l in TreeLines(e, prefix + ext, excludeBuild)
            ensures WellShaped(l, prefix)
          {
            ShapedUnderExtension(l, prefix, ext);
          }
        }
      }
    }
  }

  /** Every line is the prefix, whole 4-character indent pieces (`"    "`
      or `"│   "`), a connector (`"└── "` or `"├── "`) and a name; how
      many pieces, one per level, is `TreeLinesDepict` below. */
  lemma {:induction false} TreeLinesShaped(dir: Node, prefix: string, excludeBuild: bool)
    requires dir.Dir?
    ensures forall l :: l in TreeLines(dir, prefix, excludeBuild) ==> WellShaped(l, prefix)
    decreases dir, 2
  {
    var entries := Entries(dir);
    EntriesLinesShaped(dir, entries, |entries|, prefix, excludeBuild);
  }

  // ---------------------------------------------------------------------
  // Depth: a line drawn for a node d levels below the directory is the
  // prefix, exactly d indent pieces, a connector and the node's name.

  /** A node the tree draws, with its depth below the directory. */
  datatype Drawing = Drawing(depth: nat, node: Node)

  /** The same drawings, one level deeper. */
  function Deeper(ds: seq<Drawing>): (r: seq<Drawing>)
    ensures |r| == |ds|
    ensures forall i :: 0 <= i < |r| ==> r[i] == Drawing(ds[i].depth + 1, ds[i].node)
  {
    seq(|ds|, i requires 0 <= i < |ds| => Drawing(ds[i].depth + 1, ds[i].node))
  }

  /** The nodes drawn below dir, in pre-order: each shown entry of the
      sorted, filtered listing at depth 0, followed by what is drawn
      below it one level deeper. */
  function Drawn(dir: Node, excludeBuild: bool): seq<Drawing>
    requires dir.Dir?
    decreases dir, 2
  {
    var entries := Entries(dir);
    DrawnEntries(dir, entries, |entries|, excludeBuild)
  }

  function DrawnEntries(dir: Node, entries: seq<Node>, k: nat, excludeBuild: bool): seq<Drawing>
    requires dir.Dir? && ListedIn(entries, dir) && k <= |entries|
    decreases dir, 1, k
  {
    if k == 0 then []
    else
      var e := entries[k - 1];
      DrawnEntries(dir, entries, k - 1, excludeBuild) +
      (if Excluded(e, excludeBuild) then []
       else if e.Dir? then
         assert e in dir.children;
         [Drawing(0, e)] + Deeper(Drawn(e, excludeBuild))
       else [Drawing(0, e)])
  }

  /** `line` is `p`, exactly `depth` indent pieces, a connector and `name`. */
  predicate DrawnAt(line: string, p: string, depth: nat, name: string)
    decreases depth
  {
    |p| + 4 <= |line| && line[..|p|] == p &&
    if depth == 0 then IsConnector(line[|p|..|p| + 4]) && line[|p| + 4..] == name
    else IsExtension(line[|p|..|p| + 4]) && DrawnAt(line, line[..|p| + 4], depth - 1, name)
  }

  /** Line i of `lines` draws drawing i under the prefix p. */
  predicate Depicts(lines: seq<string>, p: string, ds: seq<Drawing>) {
    |lines| == |ds| &&
    forall i :: 0 <= i < |lines| ==> DrawnAt(lines[i], p, ds[i].depth, ds[i].node.name)
  }

  /** A line drawn under a child's prefix is one level deeper under the
      parent's. */
  lemma DrawnAtUnderExtension(line: string, p: string, ext: string, depth: nat, name: string)
    requires IsExtension(ext) && DrawnAt(line, p + ext, depth, name)
    ensures DrawnAt(line, p, depth + 1, name)
  {
    assert line[..|p| + 4] == p + ext;
    assert line[..|p|] == (p + ext)[..|p|] == p;
    assert line[|p|..|p| + 4] == ext;
  }

  lemma DepictsAppend(a: seq<string>, b: seq<string>, p: string, da: seq<Drawing>, db: seq<Drawing>)
    requires Depicts(a, p, da) && Depicts(b, p, db)
    ensures Depicts(a + b, p, da + db)
  {
    forall i | 0 <= i < |a + b|
      ensures DrawnAt((a + b)[i], p, (da + db)[i].depth, (da + db)[i].node.name)
    {
      if i < |a| {
        assert (a + b)[i] == a[i] && (da + db)[i] == da[i];
      } else {
        assert (a + b)[i] == b[i - |a|] && (da + db)[i] == db[i - |a|];
      }
    }
  }

  lemma DepictsUnderExtension(lines: seq<string>, p: string, ext: string, ds: seq<Drawing>)
    requires IsExtension(ext) && Depicts(lines, p + ext, ds)
    ensures Depicts(lines, p, Deeper(ds))
  {
    forall i | 0 <= i < |lines|
      ensures DrawnAt(lines[i], p, Deeper(ds)[i].depth, Deeper(ds)[i].node.name)
    {
      DrawnAtUnderExtension(lines[i], p, ext, ds[i].depth, ds[i].node.name);
    }
  }

  lemma {:induction false} EntriesLinesDepict(dir: Node, entries: seq<Node>, k: nat, prefix: string, excludeBuild: bool)
    requires dir.Dir? && ListedIn(entries, dir) && k <= |entries|
    ensures Depicts(EntriesLines(dir, entries, k, prefix, excludeBuild), prefix, DrawnEntries(dir, entries, k, excludeBuild))
    decreases dir, 1, k
  {
    if k > 0 {
      EntriesLinesDepict(dir, entries, k - 1, prefix, excludeBuild);
      var e := entries[k - 1];
      var last := k - 1 == |entries| - 1;
      var before := EntriesLines(dir, entries, k - 1, prefix, excludeBuild);
      var dBefore := DrawnEntries(dir, entries, k - 1, excludeBuild);
      if Excluded(e, excludeBuild) {
        assert EntriesLines(dir, entries, k, prefix, excludeBuild) == before + [];
        assert DrawnEntries(dir, entries, k, excludeBuild) == dBefore + [];
      } else {
        var head := prefix + Connector(last) + e.name;
        assert head[..|prefix|] == prefix;
        assert head[|prefix|..|prefix| + 4] == Connector(last);
        assert head[|prefix| + 4..] == e.name;
        assert Depicts([head], prefix, [Drawing(0, e)]);
        if e.Dir? {
          assert e in dir.children;
          var ext := Extension(last);
          var sub := TreeLines(e, prefix + ext, excludeBuild);
          TreeLinesDepict(e, prefix + ext, excludeBuild);
          DepictsUnderExtension(sub, prefix, ext, Drawn(e, excludeBuild));
          DepictsAppend([head], sub, prefix, [Drawing(0, e)], Deeper(Drawn(e, excludeBuild)));
          DepictsAppend(before, [head] + sub, prefix, dBefore, [Drawing(0, e)] + Deeper(Drawn(e, excludeBuild)));
        } else {
          DepictsAppend(before, [head], prefix, dBefore, [Drawing(0, e)]);
        }
      }
    }
  }

  /** Line i of the tree is the prefix, exactly d indent pieces, a
      connector and the name of the i-th node drawn in pre-order, where d
      is that node's depth below dir. */
  lemma {:induction false} TreeLinesDepict(dir: Node, prefix: string, excludeBuild: bool)
    requires dir.Dir?
    ensures Depicts(TreeLines(dir, prefix, excludeBuild), prefix, Drawn(dir, excludeBuild))
    decreases dir, 2
  {
    var entries := Entries(dir);
    EntriesLinesDepict(dir, entries, |entries|, prefix, excludeBuild);
  }

  // ---------------------------------------------------------------------
  // The entries of one directory level: their lines, read back from the
  // output, are the visible non-excluded entries in sorted order.

  /** A line drawn for an entry of the level whose prefix is p. */
  datatype Row = Row(connector: string, name: string)

  predicate TopLevel(line: string, p: string) {
    |p| + 4 <= |line| && line[..|p|] == p && IsConnector(line[|p|..|p| + 4])
  }

  /** The row a line stands for at the level of p, if it is drawn there. */
  function LineRow(line: string, p: string): seq<Row> {
    if TopLevel(line, p) then [Row(line[|p|..|p| + 4], line[|p| + 4..])] else []
  }

  /** The connector and name of every line drawn at the level of p. */
  function TopLevelRows(lines: seq<string>, p: string): seq<Row> {
    if lines == [] then [] else LineRow(lines[0], p) + TopLevelRows(lines[1..], p)
  }

  lemma {:induction false} TopLevelRowsAppend(a: seq<string>, b: seq<string>, p: string)
    ensures TopLevelRows(a + b, p) == TopLevelRows(a, p) + TopLevelRows(b, p)
  {
    if a == [] {
      assert a + b == b;
    } else {
      calc {
        TopLevelRows(a + b, p);
        LineRow((a + b)[0], p) + TopLevelRows((a + b)[1..], p);
        { assert (a + b)[0] == a[0]; assert (a + b)[1..] == a[1..] + b; }
        LineRow(a[0], p) + TopLevelRows(a[1..] + b, p);
        { TopLevelRowsAppend(a[1..], b, p); }
        LineRow(a[0], p) + (TopLevelRows(a[1..], p) + TopLevelRows(b, p));
        TopLevelRows(a, p) + TopLevelRows(b, p);
      }
    }
  }

  lemma {:induction false} NoTopLevelUnder(lines: seq<string>, p: string, ext: string)
    requires IsExtension(ext)
    requires forall l :: l in lines ==> WellShaped(l, p + ext)
    ensures TopLevelRows(lines, p) == []
  {
    if lines != [] {
      var l := lines[0];
      assert WellShaped(l, p + ext);
      assert l[..|p| + 4] == p + ext;
      assert l[|p|..|p| + 4] == ext;
      NoTopLevelUnder(lines[1..], p, ext);
    }
  }

  /** The row expected for entry i: none for an excluded directory. */
  function RowOf(entries: seq<Node>, i: nat, excludeBuild: bool): seq<Row>
    requires i < |entries|
  {
    if Excluded(entries[i], excludeBuild) then []
    else [Row(Connector(i == |entries| - 1), entries[i].name)]
  }

  function RowsUpTo(entries: seq<Node>, k: nat, excludeBuild: bool): seq<Row>
    requires k <= |entries|
  {
    if k == 0 then [] else RowsUpTo(entries, k - 1, excludeBuild) + RowOf(entries, k - 1, excludeBuild)
  }

  /** The line drawn for an entry reads back as its connector and name. */
  lemma HeadRow(p: string, c: string, name: string)
    requires IsConnector(c)
    ensures TopLevelRows([p + c + name], p) == [Row(c, name)]
  {
    var head := p + c + name;
    assert head[..|p|] == p;
    assert head[|p|..|p| + 4] == c;
    assert head[|p| + 4..] == name;
  }

  /** What iteration i appends reads back as the row expected for entry i:
      its subtree's lines sit one level deeper and add no row. */
  lemma EntryRows(dir: Node, entries: seq<Node>, i: nat, prefix: string, excludeBuild: bool)
    requires dir.Dir? && ListedIn(entries, dir) && i < |entries|
    ensures TopLevelRows(EntryLines(dir, entries, i, prefix, excludeBuild), prefix) == RowOf(entries, i, excludeBuild)
  {
    var e := entries[i];
    var last := i == |entries| - 1;
    if !Excluded(e, excludeBuild) {
      var head := prefix + Connector(last) + e.name;
      HeadRow(prefix, Connector(last), e.name);
      if e.Dir? {
        assert e in dir.children;
        var sub := TreeLines(e, prefix + Extension(last), excludeBuild);
        assert EntryLines(dir, entries, i, prefix, excludeBuild) == [head] + sub;
        TreeLinesShaped(e, prefix + Extension(last), excludeBuild);
        NoTopLevelUnder(sub, prefix, Extension(last));
        TopLevelRowsAppend([head], sub, prefix);
      }
    }
  }

  lemma {:induction false} EntriesRows(dir: Node, entries: seq<Node>, k: nat, prefix: string, excludeBuild: bool)
    requires dir.Dir? && ListedIn(entries, dir) && k <= |entries|
    ensures TopLevelRows(EntriesLines(dir, entries, k, prefix, excludeBuild), prefix) == RowsUpTo(entries, k, excludeBuild)
  {
    if k > 0 {
      var before := EntriesLines(dir, entries, k - 1, prefix, excludeBuild);
      var block := EntryLines(dir, entries, k - 1, prefix, excludeBuild);
      assert EntriesLines(dir, entries, k, prefix, excludeBuild) == before + block;
      EntriesRows(dir, entries, k - 1, prefix, excludeBuild);
      EntryRows(dir, entries, k - 1, prefix, excludeBuild);
      TopLevelRowsAppend(before, block, prefix);
    }
  }

  /** Reading the level's lines back gives one row per entry that is not
      excluded, in the order of the sorted, filtered listing. */
  lemma RenderedRows(dir: Node, prefix: string, excludeBuild: bool)
    requires dir.Dir?
    ensures TopLevelRows(TreeLines(dir, prefix, excludeBuild), prefix)
            == RowsUpTo(Entries(dir), |Entries(dir)|, excludeBuild)
  {
    var entries := Entries(dir);
    EntriesRows(dir, entries, |entries|, prefix, excludeBuild);
  }

  lemma {:induction false} RowsSorted(entries: seq<Node>, k: nat, excludeBuild: bool)
    requires SortedByName(entries) && k <= |entries|
    ensures forall a, b :: 0 <= a < b < |RowsUpTo(entries, k, excludeBuild)| ==>
              NotAfter(RowsUpTo(entries, k, excludeBuild)[a].name, RowsUpTo(entries, k, excludeBuild)[b].name)
    ensures forall a, m :: 0 <= a < |RowsUpTo(entries, k, excludeBuild)| && k <= m < |entries| ==>
              NotAfter(RowsUpTo(entries, k, excludeBuild)[a].name, entries[m].name)
  {
    if k > 0 {
      RowsSorted(entries, k - 1, excludeBuild);
      var prev := RowsUpTo(entries, k - 1, excludeBuild);
      var rows := RowsUpTo(entries, k, excludeBuild);
      var extra := RowOf(entries, k - 1, excludeBuild);
      assert rows == prev + extra;
      assert forall a :: 0 <= a < |prev| ==> rows[a] == prev[a];
      assert forall a :: |prev| <= a < |rows| ==> rows[a].name == entries[k - 1].name;
      forall a, b | 0 <= a < b < |rows|
        ensures NotAfter(rows[a].name, rows[b].name)
      {
        if b >= |prev| {
          assert NotAfter(prev[a].name, entries[k - 1].name);
        }
      }
      forall a, m | 0 <= a < |rows| && k <= m < |entries|
        ensures NotAfter(rows[a].name, entries[m].name)
      {
        if a >= |prev| {
          assert NotAfter(entries[k - 1].name, entries[m].name);
        } else {
          assert NotAfter(prev[a].name, entries[m].name);
        }
      }
    }
  }

  lemma {:induction false} RowsBeforeLastAreTees(entries: seq<Node>, k: nat, excludeBuild: bool)
    requires k < |entries|
    ensures forall a :: 0 <= a < |RowsUpTo(entries, k, excludeBuild)| ==> RowsUpTo(entries, k, excludeBuild)[a].connector == Tee
  {
    if k > 0 {
      RowsBeforeLastAreTees(entries, k - 1, excludeBuild);
    }
  }

  /** The rows of a sorted listing: names in order, every row but the
      last a `├── `, and the last a `└── ` exactly when the listing's last
      entry is not excluded. */
  lemma RowsFacts(entries: seq<Node>, excludeBuild: bool)
    requires SortedByName(entries)
    ensures var rows := RowsUpTo(entries, |entries|, excludeBuild);
            (forall a, b :: 0 <= a < b < |rows| ==> NotAfter(rows[a].name, rows[b].name)) &&
            (forall a :: 0 <= a < |rows| - 1 ==> rows[a].connector == Tee) &&
            ((|rows| > 0 && rows[|rows| - 1].connector == Elbow) <==>
             (|entries| > 0 && !Excluded(entries[|entries| - 1], excludeBuild)))
  {
    RowsSorted(entries, |entries|, excludeBuild);
    if |entries| > 0 {
      RowsBeforeLastAreTees(entries, |entries| - 1, excludeBuild);
    }
  }

  /** The siblings of one level are drawn in sorted name order; every one
      but the last drawn gets `├── `, and the last drawn gets `└── ` exactly
      when the last entry of the filtered listing is not an excluded
      directory. So when the listing ends with an excluded directory, no
      line of that level gets `└── `. */
  lemma SiblingRows(dir: Node, prefix: string, excludeBuild: bool)
    requires dir.Dir?
    ensures var rows := TopLevelRows(TreeLines(dir, prefix, excludeBuild), prefix);
            var entries := Entries(dir);
            (forall a, b :: 0 <= a < b < |rows| ==> NotAfter(rows[a].name, rows[b].name)) &&
            (forall a :: 0 <= a < |rows| - 1 ==> rows[a].connector == Tee) &&
            ((|rows| > 0 && rows[|rows| - 1].connector == Elbow) <==>
             (|entries| > 0 && !Excluded(entries[|entries| - 1], excludeBuild)))
  {
    RenderedRows(dir, prefix, excludeBuild);
    EntriesSorted(dir);
    RowsFacts(Entries(dir), excludeBuild);
  }

  // ---------------------------------------------------------------------
  // Contiguity: a directory's own lines follow its line immediately.

  lemma {:induction false} EntriesLinesGrow(dir: Node, entries: seq<Node>, j: nat, k: nat, prefix: string, excludeBuild: bool)
    requires dir.Dir? && ListedIn(entries, dir) && j <= k <= |entries|
    ensures EntriesLines(dir, entries, j, prefix, excludeBuild) <= EntriesLines(dir, entries, k, prefix, excludeBuild)
    decreases k - j
  {
    if j < k {
      EntriesLinesGrow(dir, entries, j, k - 1, prefix, excludeBuild);
    }
  }

  /** A block appended after `before` sits at offset |before| of any
      sequence that extends the result. */
  lemma BlockAt<T>(before: seq<T>, x: T, rest: seq<T>, whole: seq<T>)
    requires before + ([x] + rest) <= whole
    ensures |before| + 1 + |rest| <= |whole|
    ensures whole[|before|] == x
    ensures whole[|before| + 1..|before| + 1 + |rest|] == rest
  {
    var n := |before|;
    assert whole[..n + 1 + |rest|] == before + ([x] + rest);
    assert whole[n] == (before + ([x] + rest))[n];
    forall k | 0 <= k < |rest|
      ensures whole[n + 1 + k] == rest[k]
    {
      assert whole[n + 1 + k] == (before + ([x] + rest))[n + 1 + k];
    }
  }

  /** The lines of iteration i come right after those of the iterations
      before it, at the head of what remains of the output. */
  lemma BlockInTree(dir: Node, prefix: string, excludeBuild: bool, i: nat)
    requires dir.Dir? && i < |Entries(dir)|
    ensures EntriesLines(dir, Entries(dir), i, prefix, excludeBuild) + EntryLines(dir, Entries(dir), i, prefix, excludeBuild)
            <= TreeLines(dir, prefix, excludeBuild)
  {
    var entries := Entries(dir);
    EntriesLinesGrow(dir, entries, i + 1, |entries|, prefix, excludeBuild);
    assert TreeLines(dir, prefix, excludeBuild) == EntriesLines(dir, entries, |entries|, prefix, excludeBuild);
    assert EntriesLines(dir, entries, i + 1, prefix, excludeBuild)
        == EntriesLines(dir, entries, i, prefix, excludeBuild) + EntryLines(dir, entries, i, prefix, excludeBuild);
  }

  /** The lines of subtree of entry i, as the loop renders them. */
  function SubtreeOf(dir: Node, entries: seq<Node>, i: nat, prefix: string, excludeBuild: bool): seq<string>
    requires dir.Dir? && ListedIn(entries, dir) && i < |entries|
  {
    var e := entries[i];
    if e.Dir? then
      assert e in dir.children;
      TreeLines(e, prefix + Extension(i == |entries| - 1), excludeBuild)
    else []
  }

  /** A non-excluded entry contributes its own line, then its subtree. */
  lemma EntryBlock(dir: Node, entries: seq<Node>, i: nat, prefix: string, excludeBuild: bool)
    requires dir.Dir? && ListedIn(entries, dir) && i < |entries| && !Excluded(entries[i], excludeBuild)
    ensures EntryLines(dir, entries, i, prefix, excludeBuild)
            == [prefix + Connector(i == |entries| - 1) + entries[i].name] + SubtreeOf(dir, entries, i, prefix, excludeBuild)
  {
  }

  /** The line of entry i sits right after the lines of the entries before
      it, and the lines of its subtree follow it without a gap. */
  lemma SubtreeFollowsItsLine(dir: Node, prefix: string, excludeBuild: bool, i: nat)
    requires dir.Dir? && i < |Entries(dir)| && !Excluded(Entries(dir)[i], excludeBuild)
    ensures var entries := Entries(dir);
            var lines := TreeLines(dir, prefix, excludeBuild);
            var at := |EntriesLines(dir, entries, i, prefix, excludeBuild)|;
            var sub := SubtreeOf(dir, entries, i, prefix, excludeBuild);
            at + 1 + |sub| <= |lines| &&
            lines[at] == prefix + Connector(i == |entries| - 1) + entries[i].name &&
            lines[at + 1..at + 1 + |sub|] == sub
  {
    var entries := Entries(dir);
    var lines := TreeLines(dir, prefix, excludeBuild);
    var before := EntriesLines(dir, entries, i, prefix, excludeBuild);
    var block := EntryLines(dir, entries, i, prefix, excludeBuild);
    var sub := SubtreeOf(dir, entries, i, prefix, excludeBuild);
    EntryBlock(dir, entries, i, prefix, excludeBuild);
    BlockInTree(dir, prefix, excludeBuild, i);
    BlockAt(before, prefix + Connector(i == |entries| - 1) + entries[i].name, sub, lines);
  }
}

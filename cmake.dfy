/** The CMake target extractor (`extract_cmake_targets` in tree.py): all
    non-overlapping matches of `add_executable\s*\(([^)]+)\)` and then of
    `add_library\s*\(([^)]+)\)`, matched case-insensitively over the whole
    file, each reported as a tagged, stripped target description. */
module CMakeTargets {
  import opened Text
  import opened Fs

  const ExecutableCommand: string := "add_executable"
  const LibraryCommand: string := "add_library"
  const ExecutableTag: string := "[Executable] "
  const LibraryTag: string := "[Library] "

  /** Diagnostic target that replaces the targets of an unreadable file. */
  const ReadErrorPrefix: string := "# Error reading CMakeLists.txt: "

  /** A match that starts at index `start`; the group `([^)]+)` is
      `s[lo..hi]`, the opening parenthesis is at `lo - 1` and the closing
      one at `hi`. */
  datatype Call = Call(start: nat, lo: nat, hi: nat)

  /** Case-insensitive comparison of a text character with a pattern
      character, for the ASCII letters and symbols of the command names. */
  predicate FoldedEq(c: char, p: char) {
    c == p || ('a' <= p <= 'z' && c as int == p as int - 32)
  }

  /** The command name occurs at j, in any letter case. */
  predicate CommandAt(s: string, j: nat, cmd: string)
    decreases cmd
  {
    if cmd == [] then j <= |s|
    else j < |s| && FoldedEq(s[j], cmd[0]) && CommandAt(s, j + 1, cmd[1..])
  }

  /** The command name occurs at j exactly when it fits in the text from
      j and each of its characters matches the text's, ignoring case. */
  lemma {:induction false} CommandAtMeans(s: string, j: nat, cmd: string)
    ensures CommandAt(s, j, cmd) <==>
              j + |cmd| <= |s| && forall k :: 0 <= k < |cmd| ==> FoldedEq(s[j + k], cmd[k])
    decreases cmd
  {
    if cmd != [] {
      var tail := cmd[1..];
      CommandAtMeans(s, j + 1, tail);
      if CommandAt(s, j, cmd) {
        forall k | 0 <= k < |cmd|
          ensures FoldedEq(s[j + k], cmd[k])
        {
          if k > 0 {
            assert cmd[k] == tail[k - 1];
            assert j + k == (j + 1) + (k - 1);
          }
        }
      }
      if j + |cmd| <= |s| && forall k :: 0 <= k < |cmd| ==> FoldedEq(s[j + k], cmd[k]) {
        forall k | 0 <= k < |tail|
          ensures FoldedEq(s[j + 1 + k], tail[k])
        {
          assert tail[k] == cmd[k + 1];
          assert FoldedEq(s[j + (k + 1)], cmd[k + 1]);
        }
        assert FoldedEq(s[j + 0], cmd[0]);
      }
    }
  }

  /** The pattern for `cmd` matches at j with the group s[lo..hi]: the
      command name, optional whitespace, `(`, a non-empty run without `)`,
      and the `)` that ends it. */
  ghost predicate IsCallAt(s: string, j: nat, cmd: string, lo: nat, hi: nat) {
    CommandAt(s, j, cmd) && j + |cmd| < lo < hi < |s| &&
    (forall k :: j + |cmd| <= k < lo - 1 ==> IsSpace(s[k])) &&
    s[lo - 1] == '(' &&
    (forall k :: lo <= k < hi ==> s[k] != ')') &&
    s[hi] == ')'
  }

  /** Index of the first `)` at or after m. */
  function CloseParenFrom(s: string, m: nat): (r: Option<nat>)
    requires m <= |s|
    ensures r.Some? ==> m <= r.value < |s|
    decreases |s| - m
  {
    if m == |s| then None
    else if s[m] == ')' then Some(m)
    else CloseParenFrom(s, m + 1)
  }

  /** CloseParenFrom finds the first `)` from m, and none exists when it
      finds nothing. */
  lemma {:induction false} CloseParenFromFirst(s: string, m: nat)
    requires m <= |s|
    ensures CloseParenFrom(s, m).Some? ==>
              var h := CloseParenFrom(s, m).value;
              s[h] == ')' && forall k :: m <= k < h ==> s[k] != ')'
    ensures CloseParenFrom(s, m).None? ==> forall k :: m <= k < |s| ==> s[k] != ')'
    decreases |s| - m
  {
    if m < |s| && s[m] != ')' {
      CloseParenFromFirst(s, m + 1);
    }
  }

  /** The attempt to match the pattern for `cmd` at index j. `[^)]+` is
      greedy but can only end just before the first `)`, so no
      backtracking is needed. */
  function CallAt(s: string, j: nat, cmd: string): (r: Option<Call>)
    requires j <= |s|
    ensures r.Some? ==> r.value.start == j < r.value.lo < r.value.hi < |s|
  {
    if j + |cmd| > |s| || !CommandAt(s, j, cmd) then None
    else
      var o := SpaceRunEnd(s, j + |cmd|);
      if o == |s| || s[o] != '(' then None
      else
        match CloseParenFrom(s, o + 1)
        case None => None
        case Some(h) => if h == o + 1 then None else Some(Call(j, o + 1, h))
  }

  /** A match the attempt at j reports is a match of the pattern at j. */
  lemma CallAtSound(s: string, j: nat, cmd: string)
    requires j <= |s| && CallAt(s, j, cmd).Some?
    ensures IsCallAt(s, j, cmd, CallAt(s, j, cmd).value.lo, CallAt(s, j, cmd).value.hi)
  {
    CloseParenFromFirst(s, SpaceRunEnd(s, j + |cmd|) + 1);
  }

  /** The attempt at j finds every match of the pattern at j. */
  lemma CallAtComplete(s: string, j: nat, cmd: string, lo: nat, hi: nat)
    requires j <= |s| && IsCallAt(s, j, cmd, lo, hi)
    ensures CallAt(s, j, cmd) == Some(Call(j, lo, hi))
  {
    assert SpaceRunEnd(s, j + |cmd|) == lo - 1;
    CloseParenFromFirst(s, lo);
  }

  /** `pattern.findall` from index j: matches are taken left to right, and
      scanning resumes just after the `)` of each match. */
  function FindAll(s: string, cmd: string, j: nat): (r: seq<Call>)
    requires j <= |s|
    ensures forall i :: 0 <= i < |r| ==> j <= r[i].start < r[i].lo < r[i].hi < |s|
    decreases |s| - j
  {
    if j == |s| then []
    else
      match CallAt(s, j, cmd)
      case Some(c) => [c] + FindAll(s, cmd, c.hi + 1)
      case None => FindAll(s, cmd, j + 1)
  }

  /** Every reported match is what the attempt at its start finds. */
  lemma {:induction false} FindAllSound(s: string, cmd: string, j: nat)
    requires j <= |s|
    ensures forall i :: 0 <= i < |FindAll(s, cmd, j)| ==>
              CallAt(s, FindAll(s, cmd, j)[i].start, cmd) == Some(FindAll(s, cmd, j)[i])
    decreases |s| - j
  {
    if j < |s| {
      var r := FindAll(s, cmd, j);
      match CallAt(s, j, cmd)
      case Some(c) =>
        FindAllSound(s, cmd, c.hi + 1);
        var rest := FindAll(s, cmd, c.hi + 1);
        assert r == [c] + rest;
        forall i | 0 < i < |r|
          ensures CallAt(s, r[i].start, cmd) == Some(r[i])
        {
          assert r[i] == rest[i - 1];
        }
      case None =>
        FindAllSound(s, cmd, j + 1);
        assert r == FindAll(s, cmd, j + 1);
    }
  }

  /** Each match ends before the next one starts: the matches are in
      text order and do not overlap. */
  predicate InTextOrder(r: seq<Call>) {
    forall i :: 0 < i < |r| ==> r[i - 1].hi < r[i].start
  }

  /** The matches come in text order and do not overlap: each starts after
      the `)` of the one before. */
  lemma {:induction false} FindAllOrdered(s: string, cmd: string, j: nat)
    requires j <= |s|
    ensures InTextOrder(FindAll(s, cmd, j))
    decreases |s| - j
  {
    if j < |s| {
      var r := FindAll(s, cmd, j);
      match CallAt(s, j, cmd)
      case Some(c) =>
        FindAllOrdered(s, cmd, c.hi + 1);
        var rest := FindAll(s, cmd, c.hi + 1);
        assert r == [c] + rest;
        OrderedCons(c, rest);
      case None =>
        FindAllOrdered(s, cmd, j + 1);
        assert r == FindAll(s, cmd, j + 1);
    }
  }

  /** A match ending before the next one starts extends a run of
      matches that are in order and do not overlap. */
  lemma OrderedCons(c: Call, rest: seq<Call>)
    requires InTextOrder(rest)
    requires rest != [] ==> c.hi < rest[0].start
    ensures InTextOrder([c] + rest)
  {
    var r := [c] + rest;
    forall i | 0 < i < |r|
      ensures r[i - 1].hi < r[i].start
    {
      if i > 1 {
        assert r[i - 1] == rest[i - 2] && r[i] == rest[i - 1];
      }
    }
  }

  /** Index q lies inside none of the reported matches. */
  ghost predicate Outside(r: seq<Call>, q: nat) {
    forall i :: 0 <= i < |r| ==> !(r[i].start <= q <= r[i].hi)
  }

  /** An index outside a run of matches is outside its first one and
      outside the rest. */
  lemma OutsideTail(c: Call, rest: seq<Call>, q: nat)
    requires Outside([c] + rest, q)
    ensures !(c.start <= q <= c.hi) && Outside(rest, q)
  {
    var r := [c] + rest;
    assert r[0] == c;
    forall i | 0 <= i < |rest|
      ensures !(rest[i].start <= q <= rest[i].hi)
    {
      assert r[i + 1] == rest[i];
    }
  }

  /** Nothing is missed: the pattern matches at no index from j on that
      lies outside the reported matches. */
  lemma {:induction false} FindAllComplete(s: string, cmd: string, j: nat)
    requires j <= |s|
    ensures forall q: nat :: j <= q <= |s| && Outside(FindAll(s, cmd, j), q) ==> CallAt(s, q, cmd).None?
    decreases |s| - j
  {
    if j < |s| {
      var r := FindAll(s, cmd, j);
      match CallAt(s, j, cmd)
      case Some(c) =>
        FindAllComplete(s, cmd, c.hi + 1);
        var rest := FindAll(s, cmd, c.hi + 1);
        assert r == [c] + rest;
        forall q: nat | j <= q <= |s| && Outside(r, q)
          ensures CallAt(s, q, cmd).None?
        {
          OutsideTail(c, rest, q);
        }
      case None =>
        FindAllComplete(s, cmd, j + 1);
        assert r == FindAll(s, cmd, j + 1);
    }
  }

  /** The groups of the matches, in match order. */
  function Groups(s: string, r: seq<Call>): (g: seq<string>)
    requires forall i :: 0 <= i < |r| ==> r[i].lo <= r[i].hi <= |s|
    ensures |g| == |r|
  {
    seq(|r|, i requires 0 <= i < |r| => s[r[i].lo..r[i].hi])
  }

  /** What `pattern.findall(content)` returns for the pattern of `cmd`. */
  function FindAllGroups(s: string, cmd: string): seq<string> {
    Groups(s, FindAll(s, cmd, 0))
  }

  /** Each group of findall is non-empty and holds no `)`. */
  lemma GroupsAreClean(s: string, cmd: string)
    ensures forall i :: 0 <= i < |FindAllGroups(s, cmd)| ==>
              FindAllGroups(s, cmd)[i] != [] && ')' !in FindAllGroups(s, cmd)[i]
  {
    var r := FindAll(s, cmd, 0);
    FindAllSound(s, cmd, 0);
    forall i | 0 <= i < |r|
      ensures FindAllGroups(s, cmd)[i] != [] && ')' !in FindAllGroups(s, cmd)[i]
    {
      assert CallAt(s, r[i].start, cmd) == Some(r[i]);
      CallAtSound(s, r[i].start, cmd);
      assert IsCallAt(s, r[i].start, cmd, r[i].lo, r[i].hi);
      var g := s[r[i].lo..r[i].hi];
      assert g == FindAllGroups(s, cmd)[i];
      forall k | 0 <= k < |g|
        ensures g[k] != ')'
      {
        assert g[k] == s[r[i].lo + k];
      }
    }
  }

  /** The tagged target descriptions of a run of groups, in order. */
  function Tagged(tag: string, groups: seq<string>): seq<string> {
    if groups == [] then []
    else Tagged(tag, groups[..|groups| - 1]) + [tag + Strip(groups[|groups| - 1])]
  }

  /** The targets `extract_cmake_targets` reports for a file. */
  function TargetsOf(file: Contents): seq<string> {
    match file
    case Readable(text) =>
      Tagged(ExecutableTag, FindAllGroups(text, ExecutableCommand)) +
      Tagged(LibraryTag, FindAllGroups(text, LibraryCommand))
    case Unreadable(reason) => [ReadErrorPrefix + reason]
  }

  /** The content `extract_cmake_targets` reports for a file. */
  function ContentOf(file: Contents): string {
    match file
    case Readable(text) => text
    case Unreadable(_) => ""
  }

  /** One of the two loops of `extract_cmake_targets`: appends the tagged,
      stripped description of each group, in order. */
  method AppendTagged(targets: seq<string>, tag: string, groups: seq<string>) returns (result: seq<string>)
    ensures result == targets + Tagged(tag, groups)
  {
    result := targets;
    for i := 0 to |groups|
      invariant result == targets + Tagged(tag, groups[..i])
    {
      assert groups[..i + 1][..i] == groups[..i];
      assert Tagged(tag, groups[..i + 1]) == Tagged(tag, groups[..i]) + [tag + Strip(groups[i])];
      result := result + [tag + Strip(groups[i])];
    }
    assert groups[..|groups|] == groups;
  }

  /** `extract_cmake_targets`: the executables' descriptions, then the
      libraries', and the whole text; an unreadable file yields one
      diagnostic and empty content. */
  method ExtractCMakeTargets(file: Contents) returns (targets: seq<string>, content: string)
    ensures targets == TargetsOf(file) && content == ContentOf(file)
  {
    targets := [];
    match file {
      case Unreadable(reason) =>
        targets := targets + [ReadErrorPrefix + reason];
        content := "";
      case Readable(text) =>
        content := text;
        var execs := FindAllGroups(content, ExecutableCommand);
        var libs := FindAllGroups(content, LibraryCommand);
        targets := AppendTagged(targets, ExecutableTag, execs);
        assert targets == Tagged(ExecutableTag, execs);
        targets := AppendTagged(targets, LibraryTag, libs);
    }
  }

  /** Tagging keeps one description per group, in order. */
  lemma {:induction false} TaggedAt(tag: string, groups: seq<string>)
    ensures |Tagged(tag, groups)| == |groups|
    ensures forall i :: 0 <= i < |groups| ==> Tagged(tag, groups)[i] == tag + Strip(groups[i])
  {
    if groups != [] {
      var init := groups[..|groups| - 1];
      var last := tag + Strip(groups[|groups| - 1]);
      TaggedAt(tag, init);
      var t := Tagged(tag, groups);
      assert t == Tagged(tag, init) + [last];
      forall i | 0 <= i < |groups|
        ensures t[i] == tag + Strip(groups[i])
      {
        if i < |init| {
          assert t[i] == Tagged(tag, init)[i];
          assert init[i] == groups[i];
        }
      }
    }
  }

  /** A readable file's targets are first one description per executable
      match, then one per library match, each the stripped group behind
      its tag. */
  lemma ReadableTargets(text: string)
    ensures var execs := FindAllGroups(text, ExecutableCommand);
            var libs := FindAllGroups(text, LibraryCommand);
            var t := TargetsOf(Readable(text));
            |t| == |execs| + |libs| &&
            (forall i :: 0 <= i < |execs| ==> t[i] == ExecutableTag + Strip(execs[i])) &&
            (forall i :: 0 <= i < |libs| ==> t[|execs| + i] == LibraryTag + Strip(libs[i]))
  {
    TaggedPair(ExecutableTag, FindAllGroups(text, ExecutableCommand), LibraryTag, FindAllGroups(text, LibraryCommand));
  }

  /** Two tagged lists joined: the first list's entries, then the
      second's, each the stripped group behind its tag. */
  lemma TaggedPair(ta: string, a: seq<string>, tb: string, b: seq<string>)
    ensures var t := Tagged(ta, a) + Tagged(tb, b);
            |t| == |a| + |b| &&
            (forall i :: 0 <= i < |a| ==> t[i] == ta + Strip(a[i])) &&
            (forall i :: 0 <= i < |b| ==> t[|a| + i] == tb + Strip(b[i]))
  {
    var x := Tagged(ta, a);
    var y := Tagged(tb, b);
    TaggedAt(ta, a);
    TaggedAt(tb, b);
    forall i | 0 <= i < |a|
      ensures (x + y)[i] == ta + Strip(a[i])
    {
      assert (x + y)[i] == x[i];
    }
    forall i | 0 <= i < |b|
      ensures (x + y)[|a| + i] == tb + Strip(b[i])
    {
      assert (x + y)[|a| + i] == y[i];
    }
  }

  /** An unreadable file reports only the diagnostic, and no content. */
  lemma UnreadableTargets(reason: string)
    ensures TargetsOf(Unreadable(reason)) == [ReadErrorPrefix + reason]
    ensures ContentOf(Unreadable(reason)) == ""
  {
  }

  /** A call whose parenthesis is never closed is not reported: without
      a `)` from j on there are no matches. */
  lemma {:induction false} UnclosedCallsIgnored(s: string, cmd: string, j: nat)
    requires j <= |s|
    requires forall k :: j <= k < |s| ==> s[k] != ')'
    ensures FindAll(s, cmd, j) == []
    decreases |s| - j
  {
    if j < |s| {
      if CallAt(s, j, cmd).Some? {
        CallAtSound(s, j, cmd);
      }
      UnclosedCallsIgnored(s, cmd, j + 1);
    }
  }

  /** Positions where the attempt fails are skipped by the scan. */
  lemma {:induction false} FindAllSkips(s: string, cmd: string, j: nat, q: nat)
    requires j <= q <= |s|
    requires forall p :: j <= p < q ==> CallAt(s, p, cmd).None?
    ensures FindAll(s, cmd, j) == FindAll(s, cmd, q)
    decreases q - j
  {
    if j < q {
      FindAllSkips(s, cmd, j + 1, q);
    }
  }

  /** The pattern cannot match where the text differs from the command
      name at its k-th character. */
  lemma MismatchAt(s: string, p: nat, cmd: string, k: nat)
    requires p <= |s| && k < |cmd|
    requires p + k >= |s| || !FoldedEq(s[p + k], cmd[k])
    ensures CallAt(s, p, cmd).None?
  {
    CommandAtMeans(s, p, cmd);
  }

  /** The only call of `cmd` in s runs to the end of the text: its whole
      argument list is the one group reported. */
  lemma SingleCall(s: string, cmd: string, j: nat, lo: nat)
    requires |s| > 0 && IsCallAt(s, j, cmd, lo, |s| - 1)
    requires forall p :: 0 <= p < j ==> CallAt(s, p, cmd).None?
    ensures FindAllGroups(s, cmd) == [s[lo..|s| - 1]]
  {
    FindAllSkips(s, cmd, 0, j);
    CallAtComplete(s, j, cmd, lo, |s| - 1);
    assert FindAll(s, cmd, j) == [Call(j, lo, |s| - 1)] + FindAll(s, cmd, |s|);
  }

  /** The command name, written exactly as in the pattern, occurs at j. */
  lemma {:induction false} CommandAtVerbatim(s: string, j: nat, cmd: string)
    requires j + |cmd| <= |s| && s[j..j + |cmd|] == cmd
    ensures CommandAt(s, j, cmd)
    decreases cmd
  {
    if cmd != [] {
      assert s[j + 1..j + 1 + |cmd[1..]|] == s[j..j + |cmd|][1..];
      CommandAtVerbatim(s, j + 1, cmd[1..]);
    }
  }

  /** The pattern of `cmd` matches at j when the name is followed at once
      by `(`, arguments without `)`, and `)`. */
  lemma CallOf(s: string, j: nat, cmd: string, hi: nat)
    requires j + |cmd| + 1 < hi < |s| && s[j..j + |cmd|] == cmd && s[j + |cmd|] == '('
    requires forall k :: j + |cmd| < k < hi ==> s[k] != ')'
    requires s[hi] == ')'
    ensures IsCallAt(s, j, cmd, j + |cmd| + 1, hi)
  {
    CommandAtVerbatim(s, j, cmd);
  }

  /** The tagged description of a group that has no surrounding
      whitespace keeps the group verbatim. */
  lemma TaggedVerbatim(tag: string, g: string)
    requires g != [] && !IsSpace(g[0]) && !IsSpace(g[|g| - 1])
    ensures Tagged(tag, [g]) == [tag + g]
  {
    assert Strip(g) == g;
    assert [g][..0] == [];
  }

  /** The pieces of `cmd(` + args + `)`. */
  lemma CallTextParts(cmd: string, args: string)
    requires ')' !in args
    ensures var s := cmd + "(" + args + ")";
            s[..|cmd|] == cmd && s[|cmd|] == '(' && s[|s| - 1] == ')' &&
            s[|cmd| + 1..|s| - 1] == args &&
            forall k :: |cmd| < k < |s| - 1 ==> s[k] != ')'
  {
    var s := cmd + "(" + args + ")";
    forall k | |cmd| < k < |s| - 1
      ensures s[k] != ')'
    {
      assert s[k] == args[k - |cmd| - 1];
    }
    assert s[|cmd| + 1..|s| - 1] == args;
  }

  /** `add_executable(` + args + `)` is one executable call whose group
      is args. */
  lemma ExecutableCallShape(args: string)
    requires args != [] && ')' !in args
    ensures var s := ExecutableCommand + "(" + args + ")";
            IsCallAt(s, 0, ExecutableCommand, 15, |s| - 1) && s[15..|s| - 1] == args
  {
    var s := ExecutableCommand + "(" + args + ")";
    CallTextParts(ExecutableCommand, args);
    CallOf(s, 0, ExecutableCommand, |s| - 1);
  }

  /** Round trip for one declaration: the text `add_executable(` + args +
      `)`, for any non-empty argument list without `)`, yields first the
      target `[Executable] ` followed by the stripped arguments, verbatim
      otherwise (so `add_executable(foo a.cpp b.cpp)` yields
      `[Executable] foo a.cpp b.cpp`). */
  lemma ExecutableRoundTrip(args: string)
    requires args != [] && ')' !in args
    ensures var t := TargetsOf(Readable(ExecutableCommand + "(" + args + ")"));
            |t| >= 1 && t[0] == ExecutableTag + Strip(args)
  {
    var s := ExecutableCommand + "(" + args + ")";
    ExecutableCallShape(args);
    SingleCall(s, ExecutableCommand, 0, 15);
    ReadableTargets(s);
  }
}

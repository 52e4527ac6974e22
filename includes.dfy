/** The include extractor (`extract_includes` in tree.py): every line of a
    source file is searched for the first match of
    `#include\s+[<"](.+?)[">]`, and the captured path is kept. The regular
    expression is written out here as a first-match scan. */
module Includes {
  import opened Text
  import opened Fs

  const Directive: string := "#include"

  /** Diagnostic entry that replaces the includes of an unreadable file. */
  const ReadErrorPrefix: string := "# Error reading file: "

  /** `[<"]` */
  predicate IsOpener(c: char) {
    c == '<' || c == '"'
  }

  /** `[">]` */
  predicate IsCloser(c: char) {
    c == '"' || c == '>'
  }

  /** A match that starts at index `start`; the captured path is
      `s[lo..hi]`, the opening delimiter is at `lo - 1` and the closing one
      at `hi`. */
  datatype Hit = Hit(start: nat, lo: nat, hi: nat)

  ghost predicate NoNewline(s: string, from: nat, to: nat)
    requires from <= to <= |s|
  {
    forall k :: from <= k < to ==> s[k] != '\n'
  }

  /** The pattern matches at j with the capture s[lo..hi]: `#include`, at
      least one whitespace character, an opening delimiter, then the
      shortest non-empty run of non-newline characters followed by a
      closing delimiter. */
  ghost predicate IsIncludeAt(s: string, j: nat, lo: nat, hi: nat) {
    j + 9 < lo < hi < |s| &&
    s[j..j + 8] == Directive &&
    (forall k :: j + 8 <= k < lo - 1 ==> IsSpace(s[k])) &&
    IsOpener(s[lo - 1]) &&
    NoNewline(s, lo, hi) &&
    (forall k :: lo < k < hi ==> !IsCloser(s[k])) &&
    IsCloser(s[hi])
  }

  /** Extends the lazy group one character at a time, from index m, until
      a closing delimiter is reached; a newline or the end of the line
      stops the attempt. */
  function CloserFrom(s: string, m: nat): (r: Option<nat>)
    requires m <= |s|
    ensures r.Some? ==> m <= r.value < |s|
    decreases |s| - m
  {
    if m == |s| then None
    else if IsCloser(s[m]) then Some(m)
    else if s[m] == '\n' then None
    else CloserFrom(s, m + 1)
  }

  /** The delimiter CloserFrom stops at is the first closing delimiter
      from m, and no newline comes before it. */
  lemma {:induction false} CloserFromSound(s: string, m: nat)
    requires m <= |s| && CloserFrom(s, m).Some?
    ensures var h := CloserFrom(s, m).value;
            IsCloser(s[h]) && NoNewline(s, m, h) && forall k :: m <= k < h ==> !IsCloser(s[k])
    decreases |s| - m
  {
    if !IsCloser(s[m]) {
      CloserFromSound(s, m + 1);
    }
  }

  /** Any closing delimiter reached from m without a newline is the one
      CloserFrom stops at, or comes after it. */
  lemma {:induction false} CloserFromFinds(s: string, m: nat, h: nat)
    requires m <= h < |s| && IsCloser(s[h]) && NoNewline(s, m, h)
    requires forall k :: m <= k < h ==> !IsCloser(s[k])
    ensures CloserFrom(s, m) == Some(h)
    decreases h - m
  {
    if m < h {
      CloserFromFinds(s, m + 1, h);
    }
  }

  /** The attempt to match the pattern at index j. */
  function IncludeAt(s: string, j: nat): (r: Option<Hit>)
    requires j <= |s|
    ensures r.Some? ==> r.value.start == j < r.value.lo < r.value.hi < |s|
  {
    if j + 8 > |s| || s[j..j + 8] != Directive then None
    else
      var o := SpaceRunEnd(s, j + 8);
      if o == j + 8 || o == |s| || !IsOpener(s[o]) || o + 1 == |s| || s[o + 1] == '\n' then None
      else
        match CloserFrom(s, o + 2)
        case None => None
        case Some(h) => Some(Hit(j, o + 1, h))
  }

  /** A match the attempt at j reports is a match of the pattern at j. */
  lemma IncludeAtSound(s: string, j: nat)
    requires j <= |s| && IncludeAt(s, j).Some?
    ensures IsIncludeAt(s, j, IncludeAt(s, j).value.lo, IncludeAt(s, j).value.hi)
  {
    CloserFromSound(s, SpaceRunEnd(s, j + 8) + 2);
  }

  /** The attempt at j finds every match of the pattern at j, so a match is
      unique once its start is fixed. */
  lemma IncludeAtComplete(s: string, j: nat, lo: nat, hi: nat)
    requires j <= |s| && IsIncludeAt(s, j, lo, hi)
    ensures IncludeAt(s, j) == Some(Hit(j, lo, hi))
  {
    assert SpaceRunEnd(s, j + 8) == lo - 1;
    CloserFromFinds(s, lo + 1, hi);
  }

  /** `pattern.search(s)` from index j: the first index at which the
      pattern matches. */
  function FirstInclude(s: string, j: nat): (r: Option<Hit>)
    requires j <= |s|
    ensures r.Some? ==> j <= r.value.start < r.value.lo < r.value.hi < |s|
    decreases |s| - j
  {
    var here := IncludeAt(s, j);
    if here.Some? then here
    else if j == |s| then None
    else FirstInclude(s, j + 1)
  }

  /** What the search reports is the attempt at the index where it stopped. */
  lemma {:induction false} FirstIncludeFound(s: string, j: nat)
    requires j <= |s| && FirstInclude(s, j).Some?
    ensures IncludeAt(s, FirstInclude(s, j).value.start) == FirstInclude(s, j)
    decreases |s| - j
  {
    if IncludeAt(s, j).None? {
      FirstIncludeFound(s, j + 1);
    }
  }

  /** The search stops at the first index where the attempt succeeds, and
      reports nothing only when the attempt fails everywhere. */
  lemma {:induction false} FirstIncludeIsFirst(s: string, j: nat)
    requires j <= |s|
    ensures var end := if FirstInclude(s, j).Some? then FirstInclude(s, j).value.start else |s| + 1;
            forall q :: j <= q < end ==> IncludeAt(s, q).None?
    decreases |s| - j
  {
    if IncludeAt(s, j).None? && j < |s| {
      FirstIncludeIsFirst(s, j + 1);
      var r := FirstInclude(s, j + 1);
      assert FirstInclude(s, j) == r;
      var end := if r.Some? then r.value.start else |s| + 1;
      forall q | j <= q < end
        ensures IncludeAt(s, q).None?
      {
        if q == j {
        } else {
          assert j + 1 <= q;
        }
      }
    }
  }

  /** Group 1 of `pattern.search(line)`, if the line matches. */
  function SearchInclude(line: string): Option<string> {
    match FirstInclude(line, 0)
    case None => None
    case Some(h) => Some(line[h.lo..h.hi])
  }

  /** The search finds a path exactly when the pattern matches somewhere in
      the line, and the path it finds is the capture of the leftmost match. */
  lemma SearchIsLeftmost(line: string)
    ensures SearchInclude(line).None? <==> forall j: nat, lo: nat, hi: nat :: !IsIncludeAt(line, j, lo, hi)
    ensures SearchInclude(line).Some? ==>
              exists h: Hit :: IsIncludeAt(line, h.start, h.lo, h.hi) &&
                SearchInclude(line).value == line[h.lo..h.hi] &&
                forall q: nat, lo: nat, hi: nat :: q < h.start ==> !IsIncludeAt(line, q, lo, hi)
  {
    var r := FirstInclude(line, 0);
    FirstIncludeIsFirst(line, 0);
    if r.Some? {
      FirstIncludeFound(line, 0);
    }
    forall j: nat, lo: nat, hi: nat | IsIncludeAt(line, j, lo, hi)
      ensures r.Some? && r.value.start <= j
    {
      IncludeAtComplete(line, j, lo, hi);
    }
    if r.Some? {
      var h := r.value;
      forall q: nat, lo: nat, hi: nat | q < h.start
        ensures !IsIncludeAt(line, q, lo, hi)
      {
        if IsIncludeAt(line, q, lo, hi) {
          IncludeAtComplete(line, q, lo, hi);
        }
      }
      IncludeAtSound(line, h.start);
      assert IsIncludeAt(line, h.start, h.lo, h.hi);
    }
  }

  /** The path the search returns is what `(.+?)` captures: non-empty,
      without a newline, and without a closing delimiter except possibly at
      its first position. */
  lemma SearchCapture(line: string)
    requires SearchInclude(line).Some?
    ensures var c := SearchInclude(line).value;
            c != [] && (forall k :: 0 <= k < |c| ==> c[k] != '\n') &&
            forall k :: 0 < k < |c| ==> !IsCloser(c[k])
  {
    FirstIncludeFound(line, 0);
    var h := FirstInclude(line, 0).value;
    IncludeAtSound(line, h.start);
    assert NoNewline(line, h.lo, h.hi);
    assert forall k :: h.lo < k < h.hi ==> !IsCloser(line[k]);
    var c := line[h.lo..h.hi];
    assert c == SearchInclude(line).value;
    forall k | 0 <= k < |c|
      ensures c[k] != '\n' && (k > 0 ==> !IsCloser(c[k]))
    {
      assert c[k] == line[h.lo + k];
    }
  }

  /** Group 1 of the first match on a line, or nothing. */
  function LineCaptures(line: string): seq<string> {
    match SearchInclude(line)
    case None => []
    case Some(c) => [c]
  }

  /** The includes collected from a sequence of lines, in line order. */
  function IncludesOfLines(lines: seq<string>): seq<string> {
    if lines == [] then []
    else IncludesOfLines(lines[..|lines| - 1]) + LineCaptures(lines[|lines| - 1])
  }

  /** What `extract_includes` returns for a file. */
  function IncludesOf(file: Contents): seq<string> {
    match file
    case Readable(text) => IncludesOfLines(SplitLines(text))
    case Unreadable(reason) => [ReadErrorPrefix + reason]
  }

  /** `extract_includes`: searches each line of the file in turn and keeps
      group 1 of the first match; an unreadable file yields one diagnostic. */
  method ExtractIncludes(file: Contents) returns (includes: seq<string>)
    ensures includes == IncludesOf(file)
  {
    includes := [];
    match file {
      case Unreadable(reason) =>
        includes := includes + [ReadErrorPrefix + reason];
      case Readable(text) =>
        var lines := SplitLines(text);
        for i := 0 to |lines|
          invariant includes == IncludesOfLines(lines[..i])
        {
          assert lines[..i + 1][..i] == lines[..i];
          var m := SearchInclude(lines[i]);
          if m.Some? {
            includes := includes + [m.value];
          }
        }
        assert lines[..|lines|] == lines;
    }
  }

  /** Includes of consecutive runs of lines are concatenated: the result
      follows line order. */
  lemma {:induction false} IncludesAppend(a: seq<string>, b: seq<string>)
    ensures IncludesOfLines(a + b) == IncludesOfLines(a) + IncludesOfLines(b)
    decreases |b|
  {
    if b == [] {
      assert a + b == a;
    } else {
      var b' := b[..|b| - 1];
      assert (a + b)[..|a + b| - 1] == a + b';
      assert (a + b)[|a + b| - 1] == b[|b| - 1];
      IncludesAppend(a, b');
    }
  }

  /** At most one include is taken from each line. */
  lemma {:induction false} AtMostOnePerLine(lines: seq<string>)
    ensures |IncludesOfLines(lines)| <= |lines|
  {
    if lines != [] {
      AtMostOnePerLine(lines[..|lines| - 1]);
    }
  }

  /** When every line holds a directive, there is exactly one include per
      line, in the order of the lines. */
  lemma {:induction false} OnePerDirectiveLine(lines: seq<string>, paths: seq<string>)
    requires |paths| == |lines|
    requires forall i :: 0 <= i < |lines| ==> SearchInclude(lines[i]) == Some(paths[i])
    ensures IncludesOfLines(lines) == paths
  {
    if lines != [] {
      var n := |lines| - 1;
      OnePerDirectiveLine(lines[..n], paths[..n]);
      assert LineCaptures(lines[n]) == [paths[n]];
      assert paths == paths[..n] + [paths[n]];
    }
  }

  /** Every collected include is the search result of some line. */
  lemma {:induction false} IncludesComeFromLines(lines: seq<string>)
    ensures forall c :: c in IncludesOfLines(lines) ==>
              exists i :: 0 <= i < |lines| && SearchInclude(lines[i]) == Some(c)
  {
    if lines != [] {
      var init := lines[..|lines| - 1];
      IncludesComeFromLines(init);
      forall c | c in IncludesOfLines(lines)
        ensures exists i :: 0 <= i < |lines| && SearchInclude(lines[i]) == Some(c)
      {
        if c in IncludesOfLines(init) {
          var i :| 0 <= i < |init| && SearchInclude(init[i]) == Some(c);
          assert lines[i] == init[i];
        } else {
          assert SearchInclude(lines[|lines| - 1]) == Some(c);
        }
      }
    }
  }

  /** A quoted directive yields the path between the quotes. */
  lemma QuotedExample()
    ensures SearchInclude("#include \"a.h\"\n") == Some("a.h")
  {
    var l := "#include \"a.h\"\n";
    assert l[..8] == Directive;
    assert IsIncludeAt(l, 0, 10, 13);
    IncludeAtComplete(l, 0, 10, 13);
    assert l[10..13] == "a.h";
  }

  /** Of two directives on one line only the first is taken. */
  lemma FirstOnLineExample()
    ensures SearchInclude("#include <a> #include <b>\n") == Some("a")
  {
    var l := "#include <a> #include <b>\n";
    assert l[..8] == Directive;
    assert IsIncludeAt(l, 0, 10, 11);
    IncludeAtComplete(l, 0, 10, 11);
    assert l[10..11] == "a";
  }

  /** `\s+` demands at least one whitespace character after `#include`. */
  lemma NoSpaceExample()
    ensures SearchInclude("#include<vector>\n") == None
  {
    var l := "#include<vector>\n";
    assert forall j: nat, lo: nat, hi: nat :: !IsIncludeAt(l, j, lo, hi);
    SearchIsLeftmost(l);
  }
}

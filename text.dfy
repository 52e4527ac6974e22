/** Character classes and the small string operations of Python's `str`
    that tree.py relies on: whitespace, `strip()`, line iteration over a
    text file, and `str.join`. */
module Text {

  datatype Option<+T> = None | Some(value: T)

  /** Python's `str.isspace()`, which is also what the regex class `\s`
      matches in a `str` pattern. */
  predicate IsSpace(c: char) {
    ('\t' <= c <= '\r') || ('\U{1c}' <= c <= '\U{1f}') || c == ' ' ||
    c == '\U{85}' || c == '\U{a0}' || c == '\U{1680}' ||
    ('\U{2000}' <= c <= '\U{200a}') || c == '\U{2028}' || c == '\U{2029}' ||
    c == '\U{202f}' || c == '\U{205f}' || c == '\U{3000}'
  }

  /** End of the run of whitespace that starts at index i. */
  function SpaceRunEnd(s: string, i: nat): (e: nat)
    requires i <= |s|
    ensures i <= e <= |s|
    ensures forall k :: i <= k < e ==> IsSpace(s[k])
    ensures e == |s| || !IsSpace(s[e])
    decreases |s| - i
  {
    if i == |s| || !IsSpace(s[i]) then i else SpaceRunEnd(s, i + 1)
  }

  /** Python's `str.strip()` with no argument: drops whitespace from the
      front, then from the back. */
  function Strip(s: string): string
    decreases |s|
  {
    if s != [] && IsSpace(s[0]) then Strip(s[1..])
    else if s != [] && IsSpace(s[|s| - 1]) then Strip(s[..|s| - 1])
    else s
  }

  /** s is a run of `a` whitespace characters, then r, then whitespace. */
  ghost predicate PaddedAt(s: string, r: string, a: nat) {
    a + |r| <= |s| && s[a..a + |r|] == r &&
    (forall k :: 0 <= k < a ==> IsSpace(s[k])) &&
    (forall k :: a + |r| <= k < |s| ==> IsSpace(s[k]))
  }

  /** Strip removes only leading and trailing whitespace: s is whitespace,
      then the result, then whitespace. */
  lemma {:induction false} StripIsSlice(s: string)
    ensures exists a: nat :: PaddedAt(s, Strip(s), a)
    decreases |s|
  {
    var r := Strip(s);
    if s != [] && IsSpace(s[0]) {
      var t := s[1..];
      StripIsSlice(t);
      assert r == Strip(t);
      var a: nat :| PaddedAt(t, r, a);
      assert forall k :: a + 1 <= k < a + 1 + |r| ==> s[k] == t[k - 1];
      assert s[a + 1..a + 1 + |r|] == t[a..a + |r|];
      forall k | 0 <= k < a + 1
        ensures IsSpace(s[k])
      {
        if k > 0 {
          assert s[k] == t[k - 1];
        }
      }
      forall k | a + 1 + |r| <= k < |s|
        ensures IsSpace(s[k])
      {
        assert s[k] == t[k - 1];
      }
      assert PaddedAt(s, r, a + 1);
    } else if s != [] && IsSpace(s[|s| - 1]) {
      var t := s[..|s| - 1];
      StripIsSlice(t);
      assert r == Strip(t);
      var a: nat :| PaddedAt(t, r, a);
      assert s[a..a + |r|] == t[a..a + |r|];
      assert a == 0;
      forall k | a + |r| <= k < |s|
        ensures IsSpace(s[k])
      {
        if k < |t| {
          assert s[k] == t[k];
        }
      }
      assert PaddedAt(s, r, a);
    } else {
      assert s[0..|s|] == s;
      assert PaddedAt(s, r, 0);
    }
  }

  /** What Strip returns neither starts nor ends with whitespace. */
  lemma {:induction false} StripEnds(s: string)
    ensures Strip(s) != [] ==> !IsSpace(Strip(s)[0]) && !IsSpace(Strip(s)[|Strip(s)| - 1])
    decreases |s|
  {
    if s != [] && IsSpace(s[0]) {
      StripEnds(s[1..]);
    } else if s != [] && IsSpace(s[|s| - 1]) {
      StripEnds(s[..|s| - 1]);
    }
  }

  /** Strip returns the empty string exactly for an all-whitespace s. */
  lemma {:induction false} StripEmpty(s: string)
    ensures Strip(s) == [] <==> forall k :: 0 <= k < |s| ==> IsSpace(s[k])
    decreases |s|
  {
    if s != [] && IsSpace(s[0]) {
      var t := s[1..];
      StripEmpty(t);
      assert forall k :: 0 < k < |s| ==> s[k] == t[k - 1];
    } else if s != [] && IsSpace(s[|s| - 1]) {
      var t := s[..|s| - 1];
      StripEmpty(t);
      assert forall k :: 0 <= k < |t| ==> s[k] == t[k];
    }
  }

  /** Concatenation of a sequence of strings (`''.join`). */
  function Concat(ss: seq<string>): string {
    if ss == [] then [] else ss[0] + Concat(ss[1..])
  }

  /** Length of the first line of a non-empty text, its newline included. */
  function FirstLineEnd(t: string): (n: nat)
    requires t != []
    ensures 0 < n <= |t|
    ensures forall k :: 0 <= k < n - 1 ==> t[k] != '\n'
    ensures n == |t| || t[n - 1] == '\n'
  {
    if t[0] == '\n' || |t| == 1 then 1 else 1 + FirstLineEnd(t[1..])
  }

  /** The lines a Python text file yields when iterated: each keeps its
      terminating newline, the last one may lack it, none is empty. */
  function SplitLines(t: string): (lines: seq<string>)
    ensures Concat(lines) == t
    ensures forall i :: 0 <= i < |lines| ==> lines[i] != []
    ensures forall i :: 0 <= i < |lines| - 1 ==> lines[i][|lines[i]| - 1] == '\n'
    ensures forall i, k :: 0 <= i < |lines| && 0 <= k < |lines[i]| - 1 ==> lines[i][k] != '\n'
    decreases |t|
  {
    if t == [] then []
    else
      var n := FirstLineEnd(t);
      assert t == t[..n] + t[n..];
      [t[..n]] + SplitLines(t[n..])
  }

  /** Python's `sep.join(parts)`. */
  function Join(parts: seq<string>, sep: string): string {
    if parts == [] then []
    else if |parts| == 1 then parts[0]
    else Join(parts[..|parts| - 1], sep) + sep + parts[|parts| - 1]
  }

  /** `s.endswith(suffix)`. */
  predicate EndsWith(s: string, suffix: string) {
    |suffix| <= |s| && s[|s| - |suffix|..] == suffix
  }
}

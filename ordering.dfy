/** The order `sorted()` puts directory entries in: Python compares `str`
    values code point by code point, a proper prefix coming first. */
module Ordering {
  import opened Fs

  /** `a < b` on Python strings. */
  predicate Precedes(a: string, b: string)
    decreases |a|
  {
    |b| > 0 && (|a| == 0 || a[0] < b[0] || (a[0] == b[0] && Precedes(a[1..], b[1..])))
  }

  /** `a <= b` on Python strings. */
  predicate NotAfter(a: string, b: string) {
    !Precedes(b, a)
  }

  lemma {:induction false} PrecedesTrichotomy(a: string, b: string)
    ensures Precedes(a, b) || a == b || Precedes(b, a)
    decreases |a|
  {
    if |a| > 0 && |b| > 0 && a[0] == b[0] {
      PrecedesTrichotomy(a[1..], b[1..]);
      if a[1..] == b[1..] {
        assert a == [a[0]] + a[1..] && b == [b[0]] + b[1..];
      }
    }
  }

  lemma {:induction false} PrecedesTransitive(a: string, b: string, c: string)
    requires Precedes(a, b) && Precedes(b, c)
    ensures Precedes(a, c)
    decreases |a|
  {
    if |a| > 0 && a[0] == b[0] && b[0] == c[0] {
      PrecedesTransitive(a[1..], b[1..], c[1..]);
    }
  }

  lemma {:induction false} PrecedesAsymmetric(a: string, b: string)
    requires Precedes(a, b)
    ensures !Precedes(b, a)
    decreases |a|
  {
    if |a| > 0 && a[0] == b[0] {
      PrecedesAsymmetric(a[1..], b[1..]);
    }
  }

  /** `<=` on strings is a total order. */
  lemma NotAfterTotal(a: string, b: string)
    ensures NotAfter(a, b) || NotAfter(b, a)
  {
    PrecedesTrichotomy(a, b);
    if Precedes(a, b) { PrecedesAsymmetric(a, b); }
  }

  lemma NotAfterTransitive(a: string, b: string, c: string)
    requires NotAfter(a, b) && NotAfter(b, c)
    ensures NotAfter(a, c)
  {
    if Precedes(c, a) {
      PrecedesTrichotomy(a, b);
      if Precedes(a, b) { PrecedesTransitive(c, a, b); }
    }
  }

  /** Entries in non-decreasing name order. */
  ghost predicate SortedByName(s: seq<Node>) {
    forall i, j :: 0 <= i < j < |s| ==> NotAfter(s[i].name, s[j].name)
  }

  /** Puts x in front of the first entry of a listing that does not
      precede it. */
  function InsertByName(x: Node, s: seq<Node>): seq<Node> {
    if s == [] || !Precedes(s[0].name, x.name) then [x] + s
    else [s[0]] + InsertByName(x, s[1..])
  }

  lemma {:induction false} InsertByNamePermutes(x: Node, s: seq<Node>)
    ensures multiset(InsertByName(x, s)) == multiset(s) + multiset{x}
  {
    if s != [] && Precedes(s[0].name, x.name) {
      InsertByNamePermutes(x, s[1..]);
      assert s == [s[0]] + s[1..];
    }
  }

  /** Inserting into a sorted listing keeps it sorted. */
  lemma {:induction false} InsertKeepsSorted(x: Node, s: seq<Node>)
    requires SortedByName(s)
    ensures SortedByName(InsertByName(x, s))
  {
    var r := InsertByName(x, s);
    if s == [] || !Precedes(s[0].name, x.name) {
      forall j | 0 < j < |r|
        ensures NotAfter(x.name, r[j].name)
      {
        if j > 1 { NotAfterTransitive(x.name, s[0].name, s[j - 1].name); }
      }
    } else {
      var rest := InsertByName(x, s[1..]);
      InsertKeepsSorted(x, s[1..]);
      InsertByNamePermutes(x, s[1..]);
      PrecedesAsymmetric(s[0].name, x.name);
      forall j | 0 <= j < |rest|
        ensures NotAfter(s[0].name, rest[j].name)
      {
        assert rest[j] in multiset(rest);
        assert rest[j] == x || rest[j] in multiset(s[1..]);
      }
      assert r == [s[0]] + rest;
    }
  }

  /** `sorted()` of a directory listing, by entry name. */
  function SortByName(s: seq<Node>): seq<Node> {
    if s == [] then [] else InsertByName(s[0], SortByName(s[1..]))
  }

  /** The sorted listing is a permutation of the listing. */
  lemma {:induction false} SortByNamePermutes(s: seq<Node>)
    ensures multiset(SortByName(s)) == multiset(s)
  {
    if s != [] {
      SortByNamePermutes(s[1..]);
      InsertByNamePermutes(s[0], SortByName(s[1..]));
      assert s == [s[0]] + s[1..];
    }
  }

  /** The sorted listing is in non-decreasing name order. */
  lemma {:induction false} SortByNameSorted(s: seq<Node>)
    ensures SortedByName(SortByName(s))
  {
    if s != [] {
      SortByNameSorted(s[1..]);
      InsertKeepsSorted(s[0], SortByName(s[1..]));
    }
  }
}

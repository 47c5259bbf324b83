/**
  Views of a list of entries that the snapshot condenser relies on: the
  set of its entries, the absence of repeats, the position where an entry
  first appears, and the two lists the condenser builds, each defined
  once here as a function of its inputs.
 */
module SeqViews {

  /** The entries of `s`, forgetting order and repeats. */
  ghost function Elements<T>(s: seq<T>): set<T> {
    set x | x in s
  }

  /** No entry occurs twice in `s`. */
  ghost predicate NoDuplicates<T>(s: seq<T>) {
    forall i, j :: 0 <= i < j < |s| ==> s[i] != s[j]
  }

  /** The position of the first occurrence of `x` in `s`. */
  ghost function FirstIndex<T>(s: seq<T>, x: T): (k: nat)
    requires x in s
    ensures k < |s| && s[k] == x
    ensures forall m :: 0 <= m < k ==> s[m] != x
  {
    if s[0] == x then 0 else 1 + FirstIndex(s[1..], x)
  }

  /** Every entry of `r` occurs in `s`, and `r` lists them in the order in
      which they first appear in `s` (so, strictly, without repeats). */
  ghost predicate OrderedBy<T>(r: seq<T>, s: seq<T>) {
    && (forall x :: x in r ==> x in s)
    && forall i, j :: 0 <= i < j < |r| ==> FirstIndex(s, r[i]) < FirstIndex(s, r[j])
  }

  /** The entries of `s`, each kept at its first occurrence: what a loop
      builds that appends an entry unless it was seen before. */
  function Distinct<T(==, !new)>(s: seq<T>): (r: seq<T>)
    ensures forall x :: x in r <==> x in s
    ensures NoDuplicates(r)
    ensures |r| <= |s|
  {
    if s == [] then []
    else
      var p := s[..|s| - 1];
      if s[|s| - 1] in p then Distinct(p) else Distinct(p) + [s[|s| - 1]]
  }

  /** The entries of `b` that are absent from `a`, in the order of `b`. */
  function Difference<T(==, !new)>(b: seq<T>, a: seq<T>): (r: seq<T>)
    ensures forall x :: x in r <==> x in b && x !in a
    ensures |r| <= |b|
  {
    if b == [] then []
    else
      var p := b[..|b| - 1];
      if b[|b| - 1] in a then Difference(p, a) else Difference(p, a) + [b[|b| - 1]]
  }

  /** A list ordered by first appearance has no repeated entry. */
  lemma OrderedNoDuplicates<T>(r: seq<T>, s: seq<T>)
    requires OrderedBy(r, s)
    ensures NoDuplicates(r)
  {
  }

  /** A list without repeats has as many entries as its set of entries. */
  lemma {:induction false} NoDuplicatesCount<T>(r: seq<T>)
    requires NoDuplicates(r)
    ensures |Elements(r)| == |r|
  {
    if r != [] {
      var p := r[..|r| - 1];
      NoDuplicatesCount(p);
      assert Elements(r) == Elements(p) + {r[|r| - 1]};
      assert r[|r| - 1] !in Elements(p);
    }
  }

  /** Appending entries after `p` does not move first occurrences in `p`. */
  lemma {:induction false} FirstIndexPrefix<T>(p: seq<T>, t: seq<T>, x: T)
    requires x in p
    ensures FirstIndex(p + t, x) == FirstIndex(p, x)
  {
    if p[0] != x {
      assert (p + t)[1..] == p[1..] + t;
      FirstIndexPrefix(p[1..], t, x);
    }
  }

  /** An entry that is new at the end of `s` first appears there. */
  lemma FirstIndexLast<T>(s: seq<T>)
    requires s != [] && s[|s| - 1] !in s[..|s| - 1]
    ensures FirstIndex(s, s[|s| - 1]) == |s| - 1
  {
  }

  /** Extending `s` with an entry that is new keeps the order of a list
      ordered by `s`, when the entry is put last. */
  lemma OrderedSnoc<T>(r: seq<T>, s: seq<T>)
    requires s != [] && s[|s| - 1] !in s[..|s| - 1]
    requires OrderedBy(r, s[..|s| - 1])
    ensures OrderedBy(r + [s[|s| - 1]], s)
  {
    var p, x := s[..|s| - 1], s[|s| - 1];
    assert s == p + [x];
    FirstIndexLast(s);
    forall y | y in r ensures FirstIndex(s, y) == FirstIndex(p, y) {
      FirstIndexPrefix(p, [x], y);
    }
    var r' := r + [x];
    forall i, j | 0 <= i < j < |r'| ensures FirstIndex(s, r'[i]) < FirstIndex(s, r'[j]) {
      assert r'[i] == r[i] && r[i] in r;
      if j < |r| {
        assert r'[j] == r[j] && r[j] in r;
      }
    }
  }

  /** Extending `s` keeps the order of a list ordered by `s`. */
  lemma OrderedExtend<T>(r: seq<T>, s: seq<T>)
    requires s != [] && OrderedBy(r, s[..|s| - 1])
    ensures OrderedBy(r, s)
  {
    var p := s[..|s| - 1];
    assert s == p + [s[|s| - 1]];
    forall y | y in r ensures FirstIndex(s, y) == FirstIndex(p, y) {
      FirstIndexPrefix(p, [s[|s| - 1]], y);
    }
    forall i, j | 0 <= i < j < |r| ensures FirstIndex(s, r[i]) < FirstIndex(s, r[j]) {
      assert r[i] in r && r[j] in r;
    }
  }

  /** `Distinct(s)` lists the entries of `s` in order of first appearance. */
  lemma {:induction false} DistinctOrdered<T(!new)>(s: seq<T>)
    ensures OrderedBy(Distinct(s), s)
  {
    if s != [] {
      var p := s[..|s| - 1];
      DistinctOrdered(p);
      if s[|s| - 1] in p {
        OrderedExtend(Distinct(p), s);
      } else {
        OrderedSnoc(Distinct(p), s);
      }
    }
  }

  /** `Difference(b, a)` lists its entries in the order of `b`, when `b`
      has no repeats. */
  lemma {:induction false} DifferenceOrdered<T(!new)>(b: seq<T>, a: seq<T>)
    requires NoDuplicates(b)
    ensures OrderedBy(Difference(b, a), b)
  {
    if b != [] {
      var p := b[..|b| - 1];
      assert NoDuplicates(p);
      DifferenceOrdered(p, a);
      assert b[|b| - 1] !in p by {
        assert forall m :: 0 <= m < |p| ==> p[m] == b[m];
      }
      if b[|b| - 1] in a {
        OrderedExtend(Difference(p, a), b);
      } else {
        OrderedSnoc(Difference(p, a), b);
      }
    }
  }

  /** The last entry of an ordered list is the one that appears latest. */
  lemma OrderedLast<T>(r: seq<T>, s: seq<T>)
    requires OrderedBy(r, s) && r != []
    ensures forall y :: y in r[..|r| - 1] ==> FirstIndex(s, y) < FirstIndex(s, r[|r| - 1])
    ensures forall y :: y in r[..|r| - 1] <==> y in r && y != r[|r| - 1]
    ensures OrderedBy(r[..|r| - 1], s)
  {
    var n := |r|;
    forall y | y in r[..n - 1] ensures FirstIndex(s, y) < FirstIndex(s, r[n - 1]) {
      var k :| 0 <= k < n - 1 && r[..n - 1][k] == y;
      assert r[k] == y;
    }
    forall y | y in r && y != r[n - 1] ensures y in r[..n - 1] {
      var k :| 0 <= k < n && r[k] == y;
      assert r[..n - 1][k] == y;
    }
  }

  /** Two lists with the same entries, both ordered by first appearance
      in `s`, end with the same entry. */
  lemma OrderedSameLast<T>(r1: seq<T>, r2: seq<T>, s: seq<T>)
    requires OrderedBy(r1, s) && OrderedBy(r2, s) && r1 != [] && r2 != []
    requires forall x :: x in r1 <==> x in r2
    ensures r1[|r1| - 1] == r2[|r2| - 1]
  {
    var x1, x2 := r1[|r1| - 1], r2[|r2| - 1];
    OrderedLast(r1, s);
    OrderedLast(r2, s);
    assert x1 in r2 && x2 in r1;
  }

  /** Two lists with the same entries, both ordered by first appearance in
      `s`, are the same list. */
  lemma {:induction false} OrderedUnique<T>(r1: seq<T>, r2: seq<T>, s: seq<T>)
    requires OrderedBy(r1, s) && OrderedBy(r2, s)
    requires forall x :: x in r1 <==> x in r2
    ensures r1 == r2
    decreases |r1|
  {
    if r1 != [] || r2 != [] {
      assert r1 != [] && r2 != [] by {
        assert r1 != [] ==> r1[0] in r2;
        assert r2 != [] ==> r2[0] in r1;
      }
      OrderedSameLast(r1, r2, s);
      var x := r1[|r1| - 1];
      var p1, p2 := r1[..|r1| - 1], r2[..|r2| - 1];
      OrderedLast(r1, s);
      OrderedLast(r2, s);
      forall y ensures y in p1 <==> y in p2 {
        assert y in p1 <==> y in r1 && y != x;
        assert y in p2 <==> y in r2 && y != x;
      }
      OrderedUnique(p1, p2, s);
      assert r1 == p1 + [x] && r2 == p2 + [x];
    }
  }

  /** `Distinct(s)` is the one list holding exactly the entries of `s` in
      order of first appearance. */
  lemma DistinctCharacterized<T(!new)>(s: seq<T>, r: seq<T>)
    requires OrderedBy(r, s)
    requires forall x :: x in s ==> x in r
    ensures r == Distinct(s)
  {
    DistinctOrdered(s);
    OrderedUnique(r, Distinct(s), s);
  }

  /** `Difference(b, a)` is the one list holding exactly the entries of `b`
      absent from `a` in the order of `b`, when `b` has no repeats. */
  lemma DifferenceCharacterized<T(!new)>(b: seq<T>, a: seq<T>, r: seq<T>)
    requires NoDuplicates(b)
    requires OrderedBy(r, b)
    requires forall x :: x in r <==> x in b && x !in a
    ensures r == Difference(b, a)
  {
    DifferenceOrdered(b, a);
    OrderedUnique(r, Difference(b, a), b);
  }

  /** `Distinct(s)` has one entry per distinct entry of `s`. */
  lemma DistinctCount<T(!new)>(s: seq<T>)
    ensures |Distinct(s)| == |Elements(s)|
  {
    NoDuplicatesCount(Distinct(s));
    assert Elements(Distinct(s)) == Elements(s);
  }

  /** Deduplicating a list that has no repeats leaves it as it is, so
      deduplicating twice is deduplicating once. */
  lemma {:induction false} DistinctOfDistinctFree<T(!new)>(s: seq<T>)
    requires NoDuplicates(s)
    ensures Distinct(s) == s
  {
    if s != [] {
      var p := s[..|s| - 1];
      assert NoDuplicates(p);
      DistinctOfDistinctFree(p);
      assert s[|s| - 1] !in p by {
        assert forall m :: 0 <= m < |p| ==> p[m] == s[m];
      }
      assert s == p + [s[|s| - 1]];
    }
  }

  /** Deduplicating twice gives the same list as deduplicating once. */
  lemma DistinctIdempotent<T(!new)>(s: seq<T>)
    ensures Distinct(Distinct(s)) == Distinct(s)
  {
    DistinctOfDistinctFree(Distinct(s));
  }

  /** Order by first appearance is transitive: a list ordered by `d`,
      where `d` is ordered by `s`, is ordered by `s`. */
  lemma OrderedTransitive<T>(r: seq<T>, d: seq<T>, s: seq<T>)
    requires OrderedBy(r, d) && OrderedBy(d, s)
    ensures OrderedBy(r, s)
  {
    forall i, j | 0 <= i < j < |r| ensures FirstIndex(s, r[i]) < FirstIndex(s, r[j]) {
      assert r[i] in r && r[j] in r;
      var ki, kj := FirstIndex(d, r[i]), FirstIndex(d, r[j]);
      assert d[ki] == r[i] && d[kj] == r[j];
    }
  }
}

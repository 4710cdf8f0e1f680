/**
 * Generic facts about sequences used throughout the model: absence of
 * duplicates, the position of the first occurrence of an element, and the
 * "keep the first occurrence" de-duplication that both the subset
 * enumeration and Python's insertion-ordered dictionaries perform.
 */
module Seqs {

  /** No element occurs twice. */
  predicate NoDuplicates<T(==)>(s: seq<T>)
  {
    forall i, j :: 0 <= i < j < |s| ==> s[i] != s[j]
  }

  /** The index of the first occurrence of x in s. */
  function FirstIndex<T(==)>(s: seq<T>, x: T): (k: nat)
    requires x in s
    ensures k < |s| && s[k] == x && x !in s[..k]
  {
    if s[0] == x then 0
    else
      var k := FirstIndex(s[1..], x);
      assert s[..k + 1] == [s[0]] + s[1..][..k];
      1 + k
  }

  /** The first occurrence is the only index holding x with no x before it. */
  lemma FirstIndexUnique<T>(s: seq<T>, x: T, k: nat)
    requires k < |s| && s[k] == x && x !in s[..k]
    ensures FirstIndex(s, x) == k
  {
    var f := FirstIndex(s, x);
    assert forall m :: 0 <= m < k ==> s[..k][m] == s[m];
    assert forall m :: 0 <= m < f ==> s[..f][m] == s[m];
  }

  /**
   * Keeps the first occurrence of every element, in the order of those first
   * occurrences: the list built by appending each element of s that is not
   * yet present.
   */
  function Dedup<T(==)>(s: seq<T>): (r: seq<T>)
    ensures forall i :: 0 <= i < |r| ==> r[i] in s
    ensures forall i :: 0 <= i < |s| ==> s[i] in r
    ensures NoDuplicates(r)
    ensures |r| <= |s|
  {
    if s == [] then []
    else
      var d := Dedup(s[..|s| - 1]);
      var x := s[|s| - 1];
      assert s == s[..|s| - 1] + [x];
      if x in d then d else d + [x]
  }

  /** Appending an element that is already present changes nothing. */
  lemma DedupSnoc<T>(s: seq<T>, x: T)
    ensures Dedup(s + [x]) == if x in s then Dedup(s) else Dedup(s) + [x]
  {
    assert (s + [x])[..|s + [x]| - 1] == s;
  }

  /** De-duplication keeps exactly the elements. */
  lemma DedupMembership<T>(s: seq<T>, x: T)
    ensures x in Dedup(s) <==> x in s
  {
    var r := Dedup(s);
    if x in r {
      var i :| 0 <= i < |r| && r[i] == x;
    }
    if x in s {
      var i :| 0 <= i < |s| && s[i] == x;
    }
  }

  /** The de-duplication of one more element of s, as a loop over s computes it. */
  lemma DedupPrefix<T>(s: seq<T>, i: nat)
    requires i < |s|
    ensures Dedup(s[..i + 1]) == if s[i] in Dedup(s[..i]) then Dedup(s[..i]) else Dedup(s[..i]) + [s[i]]
  {
    assert s[..i + 1] == s[..i] + [s[i]];
    DedupSnoc(s[..i], s[i]);
    DedupMembership(s[..i], s[i]);
  }

  /** Elements of the prefix keep their first index in a longer sequence. */
  lemma FirstIndexOfPrefix<T>(p: seq<T>, q: seq<T>, x: T)
    requires x in p
    ensures FirstIndex(p + q, x) == FirstIndex(p, x)
  {
    var k := FirstIndex(p, x);
    assert (p + q)[..k] == p[..k];
    FirstIndexUnique(p + q, x, k);
  }

  /**
   * Dedup lists the distinct elements in the order in which they first
   * occur in s.
   */
  lemma {:induction false} DedupFirstOccurrenceOrder<T>(s: seq<T>, i: nat, j: nat)
    requires i < j < |Dedup(s)|
    ensures FirstIndex(s, Dedup(s)[i]) < FirstIndex(s, Dedup(s)[j])
  {
    var p, x := s[..|s| - 1], s[|s| - 1];
    assert s == p + [x];
    var d := Dedup(p);
    var r := Dedup(s);
    if x in d {
      assert r == d;
      DedupFirstOccurrenceOrder(p, i, j);
      FirstIndexOfPrefix(p, [x], d[i]);
      FirstIndexOfPrefix(p, [x], d[j]);
    } else {
      assert r == d + [x];
      assert x !in p;
      FirstIndexOfPrefix(p, [x], d[i]);
      if j < |d| {
        DedupFirstOccurrenceOrder(p, i, j);
        FirstIndexOfPrefix(p, [x], d[j]);
      } else {
        assert r[j] == x;
        assert s[..|p|] == p;
        FirstIndexUnique(s, x, |p|);
      }
    }
  }

  /** A sub-multiset is no larger than the multiset it is drawn from. */
  lemma SubMultisetSize<T>(a: multiset<T>, b: multiset<T>)
    requires a <= b
    ensures |a| <= |b|
  {
    assert b == a + (b - a);
  }

  /** Inclusion of multisets is transitive. */
  lemma SubMultisetTrans<T>(a: multiset<T>, b: multiset<T>, c: multiset<T>)
    requires a <= b && b <= c
    ensures a <= c
  {
    assert forall x :: a[x] <= b[x] <= c[x];
  }

  /** Joining two duplicate-free sequences with no common element keeps it duplicate-free. */
  lemma NoDuplicatesConcat<T>(a: seq<T>, b: seq<T>)
    requires NoDuplicates(a) && NoDuplicates(b)
    requires forall i :: 0 <= i < |a| ==> a[i] !in b
    ensures NoDuplicates(a + b)
  {
    forall i, j | 0 <= i < j < |a + b|
      ensures (a + b)[i] != (a + b)[j]
    {
      if i < |a| && j >= |a| {
        assert (a + b)[j] == b[j - |a|];
      }
    }
  }
}

/** Ruby's `Array#uniq` and `Array#flatten` (one level), used by the
    attribute registry of the lazy-loading mixin and by the store's
    disambiguation. */
module Seqs {

  predicate NoDup<T(==)>(s: seq<T>) {
    forall i, j | 0 <= i < j < |s| :: s[i] != s[j]
  }

  function Elements<T>(s: seq<T>): set<T> {
    set x | x in s
  }

  /** `uniq`: the first occurrence of every element, in order. */
  function Uniq<T(==)>(s: seq<T>): (r: seq<T>)
    ensures NoDup(r)
    ensures Elements(r) == Elements(s)
    ensures |r| <= |s|
  {
    if |s| == 0 then []
    else
      var init := s[..|s| - 1];
      var r := Uniq(init);
      assert s == init + [s[|s| - 1]];
      assert Elements(s) == Elements(init) + {s[|s| - 1]};
      if s[|s| - 1] in r then r else r + [s[|s| - 1]]
  }

  /** Where `x` first occurs in `s`. */
  function FirstIndex<T(==)>(s: seq<T>, x: T): (i: nat)
    requires x in s
    ensures i < |s| && s[i] == x && x !in s[..i]
  {
    if s[0] == x then 0
    else
      assert x in s[1..];
      var k := FirstIndex(s[1..], x);
      assert s[..1 + k] == [s[0]] + s[1..][..k];
      1 + k
  }

  /** The first occurrence is the one with no earlier occurrence. */
  lemma FirstIndexUnique<T>(s: seq<T>, x: T, i: nat)
    requires i < |s| && s[i] == x && x !in s[..i]
    ensures FirstIndex(s, x) == i
  {
  }

  /** `uniq` keeps the first occurrences in the order they occur. */
  lemma {:induction false} UniqKeepsOrder<T>(s: seq<T>)
    ensures forall i | 0 <= i < |Uniq(s)| :: Uniq(s)[i] in s
    ensures forall i, j | 0 <= i < j < |Uniq(s)| :: FirstIndex(s, Uniq(s)[i]) < FirstIndex(s, Uniq(s)[j])
  {
    var r := Uniq(s);
    forall i | 0 <= i < |r|
      ensures r[i] in s
    {
      assert r[i] in Elements(r);
    }
    if |s| > 0 {
      var init := s[..|s| - 1];
      var last := s[|s| - 1];
      var r0 := Uniq(init);
      UniqKeepsOrder(init);
      assert s == init + [last];
      forall x | x in init
        ensures FirstIndex(s, x) == FirstIndex(init, x)
      {
        var k := FirstIndex(init, x);
        assert s[..k] == init[..k];
        FirstIndexUnique(s, x, k);
      }
      forall i | 0 <= i < |r0|
        ensures r0[i] in init
      {
        assert r0[i] in Elements(r0);
      }
      if last !in r0 {
        assert last !in Elements(r0);
        assert s[..|s| - 1] == init;
        FirstIndexUnique(s, last, |s| - 1);
      }
    }
  }

  /** `flatten` of an array of arrays. */
  function Flatten<T>(ss: seq<seq<T>>): (r: seq<T>)
    ensures forall i, j | 0 <= i < |ss| && 0 <= j < |ss[i]| :: ss[i][j] in r
    ensures forall k | 0 <= k < |r| :: exists i :: 0 <= i < |ss| && r[k] in ss[i]
  {
    if |ss| == 0 then []
    else
      var init := ss[..|ss| - 1];
      var r := Flatten(init) + ss[|ss| - 1];
      assert forall i | 0 <= i < |init| :: init[i] == ss[i];
      r
  }

  /** `uniq` leaves a duplicate-free array as it is. */
  lemma {:induction false} UniqOfNoDup<T>(s: seq<T>)
    requires NoDup(s)
    ensures Uniq(s) == s
  {
    if |s| > 0 {
      var init := s[..|s| - 1];
      assert NoDup(init);
      UniqOfNoDup(init);
      assert s[|s| - 1] !in init;
      assert init + [s[|s| - 1]] == s;
    }
  }

  /** A duplicate-free sequence has as many distinct elements as entries. */
  lemma {:induction false} NoDupCardinality<T>(s: seq<T>)
    requires NoDup(s)
    ensures |Elements(s)| == |s|
  {
    if |s| > 0 {
      var init := s[..|s| - 1];
      assert NoDup(init);
      NoDupCardinality(init);
      assert Elements(s) == Elements(init) + {s[|s| - 1]};
      assert s[|s| - 1] !in Elements(init);
    }
  }

  /** `uniq(s).length` counts the distinct elements of `s`. */
  lemma UniqLength<T>(s: seq<T>)
    ensures |Uniq(s)| == |Elements(s)|
  {
    NoDupCardinality(Uniq(s));
    assert Elements(Uniq(s)) == Elements(s);
  }
}

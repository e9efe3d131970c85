/**
 Distinct values in order of first appearance, as pandas `Series.unique`
 returns them (it does not sort).
 */
module Unique {
  import opened Seqs

  /** Each distinct element of `s` once, at the place it first occurs. */
  function FirstOccurrences<T(==)>(s: seq<T>): (r: seq<T>)
    ensures NoDup(r)
    ensures multiset(r) <= multiset(s)
    ensures forall i :: 0 <= i < |s| ==> s[i] in r
  {
    if |s| == 0 then []
    else
      var init := s[..|s| - 1];
      var last := s[|s| - 1];
      assert s == init + [last];
      var r0 := FirstOccurrences(init);
      if last in init then r0
      else
        assert last !in multiset(r0);
        r0 + [last]
  }

  lemma FirstOccurrencesMembers<T>(s: seq<T>, x: T)
    ensures x in FirstOccurrences(s) <==> x in s
  {
    var r := FirstOccurrences(s);
    if x in r {
      assert x in multiset(r);
    }
    if x in s {
      var i :| 0 <= i < |s| && s[i] == x;
    }
  }

  /** The position where `x` first occurs in `s`; `|s|` if it does not occur. */
  function FirstIndex<T(==)>(s: seq<T>, x: T): (i: int)
    ensures 0 <= i <= |s| && x !in s[..i]
    ensures i < |s| <==> x in s
    ensures i < |s| ==> s[i] == x
  {
    if |s| == 0 then 0
    else if s[0] == x then 0
    else
      assert s == [s[0]] + s[1..];
      var j := FirstIndex(s[1..], x);
      assert s[..j + 1] == [s[0]] + s[1..][..j];
      1 + j
  }

  lemma FirstIndexUnique<T>(s: seq<T>, x: T, i: int)
    requires 0 <= i < |s| && s[i] == x && x !in s[..i]
    ensures FirstIndex(s, x) == i
  {
  }

  lemma FirstIndexOfPrefix<T>(a: seq<T>, b: seq<T>, x: T)
    requires x in a
    ensures FirstIndex(a + b, x) == FirstIndex(a, x)
  {
    var i := FirstIndex(a, x);
    assert (a + b)[..i] == a[..i];
    FirstIndexUnique(a + b, x, i);
  }

  /**
   The distinct values come out in the order of their first appearance in
   the input: an earlier value first appeared strictly earlier.
   */
  lemma {:induction false} FirstOccurrencesInOrder<T>(s: seq<T>)
    ensures forall p, q :: 0 <= p < q < |FirstOccurrences(s)| ==>
              FirstIndex(s, FirstOccurrences(s)[p]) < FirstIndex(s, FirstOccurrences(s)[q])
  {
    if |s| > 0 {
      var init := s[..|s| - 1];
      var last := s[|s| - 1];
      assert s == init + [last];
      var r0 := FirstOccurrences(init);
      FirstOccurrencesInOrder(init);
      forall y | y in r0
        ensures FirstIndex(s, y) == FirstIndex(init, y)
      {
        FirstOccurrencesMembers(init, y);
        FirstIndexOfPrefix(init, [last], y);
      }
      if last !in init {
        FirstIndexUnique(s, last, |s| - 1);
        var r := r0 + [last];
        forall p, q | 0 <= p < q < |r|
          ensures FirstIndex(s, r[p]) < FirstIndex(s, r[q])
        {
          if q == |r0| {
            assert r[p] == r0[p] && r0[p] in r0;
            FirstOccurrencesMembers(init, r0[p]);
            assert FirstIndex(s, r[p]) == FirstIndex(init, r0[p]) < |init|;
            assert r[q] == last;
          } else {
            assert r[p] == r0[p] && r0[p] in r0;
            assert r[q] == r0[q] && r0[q] in r0;
            assert FirstIndex(init, r0[p]) < FirstIndex(init, r0[q]);
          }
        }
      }
    }
  }

  /**
   pandas' hash-table scan: walk the values once, emit each one not seen
   before.
   */
  method Unique<T(==)>(s: seq<T>) returns (r: seq<T>)
    ensures r == FirstOccurrences(s)
    ensures NoDup(r)
  {
    var seen: set<T> := {};
    r := [];
    var i := 0;
    while i < |s|
      invariant 0 <= i <= |s|
      invariant r == FirstOccurrences(s[..i])
      invariant forall x :: x in seen <==> x in s[..i]
    {
      assert s[..i + 1][..i] == s[..i];
      if s[i] !in seen {
        r := r + [s[i]];
        seen := seen + {s[i]};
      }
      i := i + 1;
    }
    assert s[..|s|] == s;
  }
}

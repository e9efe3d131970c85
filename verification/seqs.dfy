/**
 Order-preserving selection over sequences, the shape shared by every
 pandas boolean-mask filter the dashboard applies.
 */
module Seqs {

  /** No element of `s` occurs twice. */
  predicate NoDup<T(==)>(s: seq<T>) {
    forall i, j :: 0 <= i < j < |s| ==> s[i] != s[j]
  }

  predicate StrictlyIncreasing(s: seq<int>) {
    forall i, j :: 0 <= i < j < |s| ==> s[i] < s[j]
  }

  /** The elements of `s` that satisfy `p`, in their order in `s`. */
  function Keep<T>(s: seq<T>, p: T -> bool): (r: seq<T>)
    ensures |r| <= |s|
    ensures forall k :: 0 <= k < |r| ==> p(r[k])
    ensures forall i :: 0 <= i < |s| && p(s[i]) ==> s[i] in r
  {
    if |s| == 0 then []
    else
      var init := s[..|s| - 1];
      assert s == init + [s[|s| - 1]];
      Keep(init, p) + (if p(s[|s| - 1]) then [s[|s| - 1]] else [])
  }

  /** Everything `Keep` returns comes from `s`, as often at most as it occurs there. */
  lemma {:induction false} KeepFromSource<T>(s: seq<T>, p: T -> bool)
    ensures multiset(Keep(s, p)) <= multiset(s)
  {
    if |s| > 0 {
      var init := s[..|s| - 1];
      KeepFromSource(init, p);
      assert s == init + [s[|s| - 1]];
    }
  }

  /** The positions below `n` whose element satisfies `p`, ascending. */
  function KeptIndices<T>(s: seq<T>, p: T -> bool, n: nat): (idx: seq<int>)
    requires n <= |s|
    ensures StrictlyIncreasing(idx)
    ensures forall k :: 0 <= k < |idx| ==> 0 <= idx[k] < n
    ensures forall i :: 0 <= i < n ==> (i in idx <==> p(s[i]))
  {
    if n == 0 then []
    else KeptIndices(s, p, n - 1) + (if p(s[n - 1]) then [n - 1] else [])
  }

  /**
   `r` is `s` restricted to the positions where `p` holds: `idx` lists those
   positions in increasing order and `r[k]` is the element at `idx[k]`.
   */
  ghost predicate SelectedAt<T>(r: seq<T>, s: seq<T>, p: T -> bool, idx: seq<int>) {
    && StrictlyIncreasing(idx)
    && |r| == |idx|
    && (forall k :: 0 <= k < |idx| ==> 0 <= idx[k] < |s| && r[k] == s[idx[k]])
    && (forall i :: 0 <= i < |s| ==> (i in idx <==> p(s[i])))
  }

  lemma {:induction false} KeepPrefixIndexed<T>(s: seq<T>, p: T -> bool, n: nat)
    requires n <= |s|
    ensures var idx := KeptIndices(s, p, n);
            |Keep(s[..n], p)| == |idx| &&
            forall k :: 0 <= k < |idx| ==> Keep(s[..n], p)[k] == s[idx[k]]
  {
    if n > 0 {
      KeepPrefixIndexed(s, p, n - 1);
      var prev := Keep(s[..n - 1], p);
      var idx := KeptIndices(s, p, n - 1);
      var last := s[n - 1];
      assert s[..n] == s[..n - 1] + [last];
      KeepLast(s[..n], p);
      if p(last) {
        var kept := prev + [last];
        var ids := idx + [n - 1];
        assert Keep(s[..n], p) == kept;
        assert KeptIndices(s, p, n) == ids;
        forall k | 0 <= k < |ids|
          ensures kept[k] == s[ids[k]]
        {
          if k < |idx| {
            assert kept[k] == prev[k] && ids[k] == idx[k];
          }
        }
      }
    }
  }

  /** `Keep` selects exactly the positions satisfying `p`, in source order. */
  lemma KeepSelects<T>(s: seq<T>, p: T -> bool)
    ensures SelectedAt(Keep(s, p), s, p, KeptIndices(s, p, |s|))
  {
    KeepPrefixIndexed(s, p, |s|);
    assert s[..|s|] == s;
  }

  lemma {:induction false} KeepConcat<T>(a: seq<T>, b: seq<T>, p: T -> bool)
    ensures Keep(a + b, p) == Keep(a, p) + Keep(b, p)
    decreases |b|
  {
    if |b| > 0 {
      var b' := b[..|b| - 1];
      assert (a + b)[..|a + b| - 1] == a + b';
      KeepConcat(a, b', p);
    } else {
      assert a + b == a;
    }
  }

  lemma {:induction false} KeepNone<T>(s: seq<T>, p: T -> bool)
    requires forall i :: 0 <= i < |s| ==> !p(s[i])
    ensures Keep(s, p) == []
  {
    if |s| > 0 {
      KeepNone(s[..|s| - 1], p);
    }
  }

  lemma KeepLast<T>(t: seq<T>, p: T -> bool)
    requires |t| > 0
    ensures Keep(t, p) == Keep(t[..|t| - 1], p) + (if p(t[|t| - 1]) then [t[|t| - 1]] else [])
  {
  }

  /** Inserts `x` at its place in the ascending sequence `s`. */
  function InsertAscending(x: int, s: seq<int>): (r: seq<int>)
    requires StrictlyIncreasing(s) && x !in s
    ensures StrictlyIncreasing(r)
    ensures |r| == |s| + 1
    ensures forall y :: y in r <==> y == x || y in s
  {
    if |s| == 0 || x < s[0] then [x] + s
    else
      assert s == [s[0]] + s[1..];
      var rest := InsertAscending(x, s[1..]);
      assert forall y :: y in rest ==> s[0] < y;
      var r := [s[0]] + rest;
      assert forall j :: 0 < j < |r| ==> r[j] == rest[j - 1] && rest[j - 1] in rest;
      r
  }

  /** The elements of a duplicate-free `s`, ascending. */
  function SortAscending(s: seq<int>): (r: seq<int>)
    requires NoDup(s)
    ensures StrictlyIncreasing(r)
    ensures |r| == |s|
    ensures forall y :: y in r <==> y in s
  {
    if |s| == 0 then []
    else InsertAscending(s[0], SortAscending(s[1..]))
  }
}

/**
 The arithmetic the dashboard does on temperature lists: Python's
 `sum(xs)/len(xs)` and `round(x, 1)`, on exact reals.
 */
module Stats {
  import opened Wrappers

  /** Python's `sum`: a left fold from 0. */
  function Sum(xs: seq<real>): real {
    if |xs| == 0 then 0.0 else Sum(xs[..|xs| - 1]) + xs[|xs| - 1]
  }

  /** Summing two lists one after the other gives the sum of their sums. */
  lemma {:induction false} SumConcat(a: seq<real>, b: seq<real>)
    ensures Sum(a + b) == Sum(a) + Sum(b)
    decreases |b|
  {
    if |b| > 0 {
      var b' := b[..|b| - 1];
      assert (a + b)[..|a + b| - 1] == a + b';
      SumConcat(a, b');
    } else {
      assert a + b == a;
    }
  }

  /** The arithmetic mean, undefined (not zero) on an empty list. */
  function Mean(xs: seq<real>): (m: Option<real>)
    ensures m.None? <==> |xs| == 0
    ensures m.Some? ==> m.value * (|xs| as real) == Sum(xs)
  {
    if |xs| == 0 then None else Some(Sum(xs) / (|xs| as real))
  }

  lemma {:induction false} SumBounds(xs: seq<real>, lo: real, hi: real)
    requires forall i :: 0 <= i < |xs| ==> lo <= xs[i] <= hi
    ensures (|xs| as real) * lo <= Sum(xs) <= (|xs| as real) * hi
  {
    if |xs| > 0 {
      SumBounds(xs[..|xs| - 1], lo, hi);
    }
  }

  /** A mean lies between any lower and upper bound of the values it averages. */
  lemma MeanWithinBounds(xs: seq<real>, lo: real, hi: real)
    requires |xs| > 0
    requires forall i :: 0 <= i < |xs| ==> lo <= xs[i] <= hi
    ensures lo <= Mean(xs).value <= hi
  {
    SumBounds(xs, lo, hi);
    var n := |xs| as real;
    var m := Mean(xs).value;
    assert m * n == Sum(xs);
    assert (m - lo) * n >= 0.0;
    assert (hi - m) * n >= 0.0;
  }

  /** A position of a least element. */
  function ArgMin(xs: seq<real>): (i: int)
    requires |xs| > 0
    ensures 0 <= i < |xs| && forall k :: 0 <= k < |xs| ==> xs[i] <= xs[k]
  {
    if |xs| == 1 then 0
    else
      var j := ArgMin(xs[..|xs| - 1]);
      assert forall k :: 0 <= k < |xs| - 1 ==> xs[..|xs| - 1][k] == xs[k];
      if xs[|xs| - 1] < xs[j] then |xs| - 1 else j
  }

  /** A position of a greatest element. */
  function ArgMax(xs: seq<real>): (i: int)
    requires |xs| > 0
    ensures 0 <= i < |xs| && forall k :: 0 <= k < |xs| ==> xs[k] <= xs[i]
  {
    if |xs| == 1 then 0
    else
      var j := ArgMax(xs[..|xs| - 1]);
      assert forall k :: 0 <= k < |xs| - 1 ==> xs[..|xs| - 1][k] == xs[k];
      if xs[j] < xs[|xs| - 1] then |xs| - 1 else j
  }

  /** A mean lies between the least and the greatest of the values it averages. */
  lemma MeanBetweenExtremes(xs: seq<real>)
    requires |xs| > 0
    ensures xs[ArgMin(xs)] <= Mean(xs).value <= xs[ArgMax(xs)]
  {
    MeanWithinBounds(xs, xs[ArgMin(xs)], xs[ArgMax(xs)]);
  }

  /** `x` is a whole number of tenths. */
  predicate IsTenth(x: real) {
    (x * 10.0).Floor as real == x * 10.0
  }

  /**
   `round(x, 1)` counted in tenths: the integer nearest to `10 x`, a tie
   going to the even neighbour.
   */
  function RoundTenths(x: real): (k: int)
    ensures -0.5 <= x * 10.0 - k as real <= 0.5
    ensures (x * 10.0 - k as real == 0.5 || x * 10.0 - k as real == -0.5) ==> k % 2 == 0
  {
    var t := x * 10.0;
    var f := t.Floor;
    var d := t - f as real;
    if d < 0.5 then f
    else if d > 0.5 then f + 1
    else if f % 2 == 0 then f
    else f + 1
  }

  /** `RoundTenths` is the only integer with the round-half-to-even property. */
  lemma RoundTenthsUnique(x: real, j: int)
    requires -0.5 <= x * 10.0 - j as real <= 0.5
    requires (x * 10.0 - j as real == 0.5 || x * 10.0 - j as real == -0.5) ==> j % 2 == 0
    ensures j == RoundTenths(x)
  {
  }

  /** The rounded value, as a real. */
  function RoundToTenth(x: real): (r: real)
    ensures IsTenth(r)
    ensures -0.05 <= r - x <= 0.05
  {
    var k := RoundTenths(x);
    var r := k as real / 10.0;
    assert r * 10.0 == k as real;
    assert (k as real).Floor == k;
    r
  }

  /** Rounding a whole number of tenths gives it back. */
  lemma RoundToTenthIdempotent(x: real)
    requires IsTenth(x)
    ensures RoundTenths(x) as real == x * 10.0
    ensures RoundToTenth(x) == x
  {
    RoundTenthsUnique(x, (x * 10.0).Floor);
  }
}

/**
 The two metric tiles: the station's average temperature for the chosen
 month with its change from the previous month, and the average high and
 low for the month.
 */
module Metrics {
  import opened Wrappers
  import opened Stats
  import opened Decimal
  import opened Weather

  /** The change from last month: a rounded difference, or "N/A" when there is none. */
  datatype Delta = Change(amount: real) | NA

  datatype Metrics = Metrics(average: real, delta: Delta, high: real, low: real)

  /** `sum(xs)/len(xs)`, which raises ZeroDivisionError on an empty list. */
  function Average(xs: seq<real>): (r: Result<real, ScriptError>)
    ensures r.Failure? <==> |xs| == 0
    ensures r.Failure? ==> r.error == ZeroDivision
    ensures r.Success? ==> r.value * (|xs| as real) == Sum(xs)
  {
    match Mean(xs)
    case None => Failure(ZeroDivision)
    case Some(m) => Success(m)
  }

  /**
   The `try` block: average the previous month and round the difference to
   one decimal; any exception, which can only be the division by an empty
   list, gives "N/A".
   */
  function PriorDelta(current: real, prior: seq<real>): (d: Delta)
    ensures d.NA? <==> |prior| == 0
    ensures d.Change? ==> IsTenth(d.amount)
    ensures d.Change? ==> -0.05 <= d.amount - (current - Mean(prior).value) <= 0.05
  {
    match Average(prior)
    case Failure(_) => NA
    case Success(p) => Change(RoundToTenth(current - p))
  }

  /**
   Both tiles in script order: the current average first (an empty list
   raises before anything else), then the delta, then the high and the low.
   */
  function MetricBlock(t: Table, state: string, city: string, month: int): (r: Result<Metrics, ScriptError>)
    ensures r.Failure? <==>
              || |WeatherFilter(state, city, month, AvgTemp, t)| == 0
              || |WeatherFilter(state, city, month, MaxTemp, t)| == 0
              || |WeatherFilter(state, city, month, MinTemp, t)| == 0
    ensures r.Failure? ==> r.error == ZeroDivision
    ensures r.Success? ==>
              (r.value.delta.NA? <==> |WeatherFilter(state, city, month - 1, AvgTemp, t)| == 0)
    ensures r.Success? ==>
              && Mean(WeatherFilter(state, city, month, AvgTemp, t)) == Some(r.value.average)
              && Mean(WeatherFilter(state, city, month, MaxTemp, t)) == Some(r.value.high)
              && Mean(WeatherFilter(state, city, month, MinTemp, t)) == Some(r.value.low)
    ensures r.Success? && r.value.delta.Change? ==> IsTenth(r.value.delta.amount)
    ensures r.Success? && r.value.delta.Change? ==>
              -0.05 <= r.value.delta.amount
                       - (r.value.average - Mean(WeatherFilter(state, city, month - 1, AvgTemp, t)).value)
                    <= 0.05
  {
    var current :- Average(WeatherFilter(state, city, month, AvgTemp, t));
    var delta := PriorDelta(current, WeatherFilter(state, city, month - 1, AvgTemp, t));
    var high :- Average(WeatherFilter(state, city, month, MaxTemp, t));
    var low :- Average(WeatherFilter(state, city, month, MinTemp, t));
    Success(Metrics(current, delta, high, low))
  }

  /** For a January selection the previous month is month 0, which no row carries. */
  lemma JanuaryHasNoDelta(t: Table, state: string, city: string)
    requires forall i :: 0 <= i < |t| ==> 1 <= t[i].month <= 12
    ensures MetricBlock(t, state, city, 1).Success? ==> MetricBlock(t, state, city, 1).value.delta == NA
  {
    NoRowsNoValues(state, city, 0, AvgTemp, t);
  }

  const Suffix: string := " from last month"

  /**
   What stands before the suffix: Python's text of the rounded change, which
   reads back as that many tenths, or "N/A", which reads back as no number.
   */
  function DeltaLabel(d: Delta): (s: string)
    ensures d.NA? <==> ParseTenths(s).None?
    ensures d.Change? ==> ParseTenths(s) == Some(RoundTenths(d.amount))
  {
    match d
    case NA =>
      assert ParseTenths("N/A").None?;
      "N/A"
    case Change(a) =>
      ShowTenthsRoundTrip(RoundTenths(a));
      ShowTenths(RoundTenths(a))
  }

  /**
   The delta text as the script builds it: line 52 appends the suffix to the
   rounded change, and line 55 appends it again to whatever line 52 or 54
   produced.
   */
  function DeltaTextAsWritten(d: Delta): (s: string)
    ensures d.NA? ==> s == "N/A from last month"
  {
    match d
    case NA => "N/A" + Suffix
    case Change(_) => DeltaLabel(d) + Suffix + Suffix
  }

  /** The delta text with the suffix once, as the tile evidently means it. */
  function DeltaText(d: Delta): (s: string)
    ensures |s| > |Suffix| && s[(|s| - |Suffix|)..] == Suffix
  {
    DeltaLabel(d) + Suffix
  }

  /** Reads a delta back from its text; `None` if the text is not one. */
  function ParseDeltaText(s: string): Option<Delta> {
    if |s| < |Suffix| || s[(|s| - |Suffix|)..] != Suffix then None
    else
      var text := s[..(|s| - |Suffix|)];
      if text == "N/A" then Some(NA)
      else match ParseTenths(text)
        case None => None
        case Some(k) => Some(Change(k as real / 10.0))
  }

  /** Every delta the tile can show reads back from its text. */
  lemma DeltaTextRoundTrip(d: Delta)
    requires d.Change? ==> IsTenth(d.amount)
    ensures ParseDeltaText(DeltaText(d)) == Some(d)
  {
    var s := DeltaText(d);
    assert s[..(|s| - |Suffix|)] == DeltaLabel(d);
    match d
    case NA =>
    case Change(a) =>
      var text := ShowTenths(RoundTenths(a));
      assert text[|text| - 1] != 'A';
      ShowTenthsRoundTrip(RoundTenths(a));
      RoundToTenthIdempotent(a);
  }

  /**
   With prior data the text as written carries the suffix twice, and what
   precedes the final suffix no longer reads as a number.
   */
  lemma AsWrittenRepeatsSuffix(a: real)
    ensures DeltaTextAsWritten(Change(a)) == DeltaText(Change(a)) + Suffix
    ensures ParseDeltaText(DeltaTextAsWritten(Change(a))) == None
  {
    var s := DeltaTextAsWritten(Change(a));
    var text := DeltaLabel(Change(a)) + Suffix;
    assert s == text + Suffix;
    assert s[..(|s| - |Suffix|)] == text;
    assert text[|text| - 1] == 'h';
  }

  lemma ExampleDelta()
    ensures PriorDelta(15.0, [5.0, 15.0]) == Change(5.0)
  {
    var prior := [5.0, 15.0];
    assert prior[..1] == [5.0] && [5.0][..0] == [];
    assert Sum(prior) == 20.0;
    assert Mean(prior) == Some(10.0);
    assert IsTenth(5.0) by {
      assert (5.0 * 10.0).Floor == 50;
    }
    RoundToTenthIdempotent(5.0);
  }

  lemma ExampleLabel()
    ensures DeltaLabel(Change(5.0)) == "5.0"
  {
    assert IsTenth(5.0) by {
      assert (5.0 * 10.0).Floor == 50;
    }
    RoundToTenthIdempotent(5.0);
    assert RoundTenths(5.0) == 50;
    assert ShowNat(5) == "5";
  }

  /** A month averaging 15 after one averaging 10 shows a doubled suffix. */
  lemma AsWrittenExample()
    ensures DeltaTextAsWritten(PriorDelta(15.0, [5.0, 15.0])) == "5.0 from last month from last month"
    ensures DeltaText(PriorDelta(15.0, [5.0, 15.0])) == "5.0 from last month"
  {
    ExampleDelta();
    ExampleLabel();
    var d := PriorDelta(15.0, [5.0, 15.0]);
    assert DeltaLabel(d) == "5.0";
    assert DeltaTextAsWritten(d) == "5.0" + Suffix + Suffix;
    assert DeltaText(d) == "5.0" + Suffix;
  }
}

/**
 One run of the dashboard tab: restrict the loaded table to 2016, build the
 three selector lists, then compute the metric tiles and the chart data for
 the selected state, city and month.
 */
module Dashboard {
  import opened Wrappers
  import opened Seqs
  import opened Unique
  import opened Weather
  import opened Metrics
  import opened Chart

  function StatesOf(t: Table): seq<string> {
    seq(|t|, i requires 0 <= i < |t| => t[i].state)
  }

  function CitiesOf(t: Table): seq<string> {
    seq(|t|, i requires 0 <= i < |t| => t[i].city)
  }

  function MonthsIn(t: Table): seq<int> {
    seq(|t|, i requires 0 <= i < |t| => t[i].month)
  }

  function InState(state: string): Row -> bool {
    (r: Row) => r.state == state
  }

  /** The state selector: `weather_df['Station.State'].unique()`. */
  function StateList(t: Table): (r: seq<string>)
    ensures NoDup(r)
    ensures forall s :: s in r <==> exists row :: row in t && row.state == s
  {
    var states := StatesOf(t);
    assert forall s :: s in FirstOccurrences(states) <==> exists row :: row in t && row.state == s by {
      forall s
        ensures s in FirstOccurrences(states) <==> exists row :: row in t && row.state == s
      {
        FirstOccurrencesMembers(states, s);
        if exists row :: row in t && row.state == s {
          var row :| row in t && row.state == s;
          var i :| 0 <= i < |t| && t[i] == row;
          assert states[i] == s;
        }
      }
    }
    FirstOccurrences(states)
  }

  /**
   The city selector: the cities of the rows in the chosen state, each once,
   in order of first appearance.
   */
  function CityList(t: Table, state: string): (r: seq<string>)
    ensures NoDup(r)
    ensures forall c :: c in r <==> exists row :: row in t && row.state == state && row.city == c
  {
    var inState := Keep(t, InState(state));
    KeepFromSource(t, InState(state));
    var cities := CitiesOf(inState);
    assert forall c :: c in FirstOccurrences(cities) <==>
             exists row :: row in t && row.state == state && row.city == c by {
      forall c
        ensures c in FirstOccurrences(cities) <==> exists row :: row in t && row.state == state && row.city == c
      {
        FirstOccurrencesMembers(cities, c);
        if c in cities {
          var i :| 0 <= i < |cities| && cities[i] == c;
          assert inState[i] in multiset(t);
        }
        if exists row :: row in t && row.state == state && row.city == c {
          var row :| row in t && row.state == state && row.city == c;
          assert row in inState;
          var i :| 0 <= i < |inState| && inState[i] == row;
          assert cities[i] == c;
        }
      }
    }
    FirstOccurrences(cities)
  }

  /** The month selector: `weather_df['Date.Month'].unique()`. */
  function MonthList(t: Table): (r: seq<int>)
    ensures NoDup(r)
    ensures forall m :: m in r <==> exists row :: row in t && row.month == m
  {
    var months := MonthsIn(t);
    assert forall m :: m in FirstOccurrences(months) <==> exists row :: row in t && row.month == m by {
      forall m
        ensures m in FirstOccurrences(months) <==> exists row :: row in t && row.month == m
      {
        FirstOccurrencesMembers(months, m);
        if exists row :: row in t && row.month == m {
          var row :| row in t && row.month == m;
          var i :| 0 <= i < |t| && t[i] == row;
          assert months[i] == m;
        }
      }
    }
    FirstOccurrences(months)
  }

  /**
   The selector lists follow first appearance: a value listed earlier first
   occurs in an earlier row.
   */
  lemma SelectorsInFirstAppearanceOrder(t: Table, state: string)
    ensures var r := StateList(t);
            forall p, q :: 0 <= p < q < |r| ==> FirstIndex(StatesOf(t), r[p]) < FirstIndex(StatesOf(t), r[q])
    ensures var r := CityList(t, state);
            var cities := CitiesOf(Keep(t, InState(state)));
            forall p, q :: 0 <= p < q < |r| ==> FirstIndex(cities, r[p]) < FirstIndex(cities, r[q])
    ensures var r := MonthList(t);
            forall p, q :: 0 <= p < q < |r| ==> FirstIndex(MonthsIn(t), r[p]) < FirstIndex(MonthsIn(t), r[q])
  {
    FirstOccurrencesInOrder(StatesOf(t));
    FirstOccurrencesInOrder(CitiesOf(Keep(t, InState(state))));
    FirstOccurrencesInOrder(MonthsIn(t));
  }

  /** What the dashboard tab shows. */
  datatype View = View(
    states: seq<string>,
    cities: seq<string>,
    months: seq<int>,
    metrics: Metrics,
    deltaText: string,
    chart: seq<ChartPoint>)

  /** Every month of the station's 2016 rows is a valid `month_abbr` index. */
  predicate StationMonthsInRange(t: Table, state: string, city: string) {
    forall row :: row in t && row.state == state && row.city == city ==> -13 <= row.month <= 12
  }

  /**
   The dashboard tab, in script order: the year filter, the selector lists,
   the metric tiles (which raise ZeroDivisionError first), then the chart
   (whose month relabelling can raise IndexError).
   */
  function Render(raw: Table, state: string, city: string, month: int): (r: Result<View, ScriptError>)
    ensures var t := RowsOfDashboardYear(raw);
            (r.Failure? && r.error == ZeroDivision) <==>
              || |WeatherFilter(state, city, month, AvgTemp, t)| == 0
              || |WeatherFilter(state, city, month, MaxTemp, t)| == 0
              || |WeatherFilter(state, city, month, MinTemp, t)| == 0
    ensures var t := RowsOfDashboardYear(raw);
            r.Success? <==>
              && |WeatherFilter(state, city, month, AvgTemp, t)| > 0
              && |WeatherFilter(state, city, month, MaxTemp, t)| > 0
              && |WeatherFilter(state, city, month, MinTemp, t)| > 0
              && StationMonthsInRange(t, state, city)
    ensures var t := RowsOfDashboardYear(raw);
            r.Success? ==>
              && (r.value.metrics.delta.NA? <==> |WeatherFilter(state, city, month - 1, AvgTemp, t)| == 0)
              && |r.value.chart| == |ChartData(t, state, city)|
              && ParseDeltaText(r.value.deltaText) == Some(r.value.metrics.delta)
    ensures var t := RowsOfDashboardYear(raw);
            r.Success? ==>
              && r.value.states == StateList(t)
              && r.value.cities == CityList(t, state)
              && r.value.months == MonthList(t)
              && MetricBlock(t, state, city, month) == Success(r.value.metrics)
              && Relabel(ChartData(t, state, city)) == Success(r.value.chart)
  {
    var t := RowsOfDashboardYear(raw);
    var states := StateList(t);
    var cities := CityList(t, state);
    var months := MonthList(t);
    var metrics :- MetricBlock(t, state, city, month);
    DeltaTextRoundTrip(metrics.delta);
    var c := ChartData(t, state, city);
    ChartRelabels(t, state, city);
    var chart :- Relabel(c);
    Success(View(states, cities, months, metrics, DeltaText(metrics.delta), chart))
  }

  lemma RelabelsWhenMonthsInRange(c: seq<ChartRow>)
    ensures Relabel(c).Success? <==> forall m :: m in ChartMonths(c) ==> -13 <= m <= 12
  {
    var ms := ChartMonths(c);
    assert forall k :: 0 <= k < |c| ==> c[k].month == ms[k];
    if forall m :: m in ms ==> -13 <= m <= 12 {
      forall k | 0 <= k < |c|
        ensures -13 <= c[k].month <= 12
      {
        assert ms[k] in ms;
      }
    } else {
      var m :| m in ms && !(-13 <= m <= 12);
      var k :| 0 <= k < |ms| && ms[k] == m;
      assert !(-13 <= c[k].month <= 12);
    }
  }

  /** Relabelling the chart fails exactly when some station month is out of `month_abbr`'s range. */
  lemma ChartRelabels(t: Table, state: string, city: string)
    ensures Relabel(ChartData(t, state, city)).Success? <==> StationMonthsInRange(t, state, city)
  {
    var c := ChartData(t, state, city);
    RelabelsWhenMonthsInRange(c);
    var ms := ChartMonths(c);
    if !StationMonthsInRange(t, state, city) {
      var row :| row in t && row.state == state && row.city == city && !(-13 <= row.month <= 12);
      assert row.month in ms;
    }
  }

  /**
   A January selection, on data whose months are 1..12, always shows "N/A":
   the previous month is month 0.
   */
  lemma JanuaryRendersNA(raw: Table, state: string, city: string)
    requires forall i :: 0 <= i < |raw| ==> 1 <= raw[i].month <= 12
    ensures Render(raw, state, city, 1).Success? ==> Render(raw, state, city, 1).value.metrics.delta == NA
  {
    var t := RowsOfDashboardYear(raw);
    forall i | 0 <= i < |t|
      ensures 1 <= t[i].month <= 12
    {
      assert t[i] in t;
    }
    JanuaryHasNoDelta(t, state, city);
  }
}

/**
 The line chart's data: the selected station's rows grouped by month, the
 mean high and low of each month, and each month number replaced by its
 abbreviation.
 */
module Chart {
  import opened Wrappers
  import opened Seqs
  import opened Unique
  import opened Stats
  import opened Weather

  /** One row of `groupby('Date.Month').mean()` after the rename to Month/High/Low. */
  datatype ChartRow = ChartRow(month: int, high: Option<real>, low: Option<real>)

  /** A chart row after its month number has become a label. */
  datatype ChartPoint = ChartPoint(month: string, high: Option<real>, low: Option<real>)

  function AtStation(state: string, city: string): Row -> bool {
    (r: Row) => r.state == state && r.city == city
  }

  function InMonth(m: int): Row -> bool {
    (r: Row) => r.month == m
  }

  /** The rows of one station, in table order. */
  function StationRows(t: Table, state: string, city: string): (r: Table)
    ensures forall row :: row in r <==> row in t && row.state == state && row.city == city
  {
    var r := Keep(t, AtStation(state, city));
    KeepFromSource(t, AtStation(state, city));
    assert forall row :: row in r ==> row in multiset(r);
    r
  }

  /** Line 69's mask keeps each row of the station once, in table order, and no other row. */
  lemma StationRowsInOrder(t: Table, state: string, city: string)
    ensures var r := StationRows(t, state, city);
            var idx := KeptIndices(t, AtStation(state, city), |t|);
            && StrictlyIncreasing(idx)
            && |r| == |idx|
            && (forall k :: 0 <= k < |idx| ==> 0 <= idx[k] < |t| && r[k] == t[idx[k]])
            && (forall i :: 0 <= i < |t| ==> (i in idx <==> t[i].state == state && t[i].city == city))
  {
    KeepSelects(t, AtStation(state, city));
  }

  function MonthsOf(rows: Table): seq<int> {
    seq(|rows|, i requires 0 <= i < |rows| => rows[i].month)
  }

  /** The group keys: each month present once, ascending, as `groupby` sorts them. */
  function MonthGroups(rows: Table): (ms: seq<int>)
    ensures StrictlyIncreasing(ms)
    ensures forall m :: m in ms <==> exists row :: row in rows && row.month == m
  {
    var months := MonthsOf(rows);
    var ms := SortAscending(FirstOccurrences(months));
    assert forall x :: x in ms <==> x in months by {
      forall x
        ensures x in ms <==> x in months
      {
        FirstOccurrencesMembers(months, x);
      }
    }
    assert forall i :: 0 <= i < |rows| ==> months[i] == rows[i].month;
    assert forall m :: m in months <==> exists row :: row in rows && row.month == m by {
      forall m
        ensures m in months <==> exists row :: row in rows && row.month == m
      {
        if exists row :: row in rows && row.month == m {
          var row :| row in rows && row.month == m;
          var i :| 0 <= i < |rows| && rows[i] == row;
          assert months[i] == m;
        }
      }
    }
    ms
  }

  /** A present cell of month `m` is exactly a value the group averages. */
  lemma MonthCell(rows: Table, col: Column, m: int, v: real)
    ensures v in DropMissing(Where(rows, col, InMonth(m))) <==>
            exists i :: 0 <= i < |rows| && rows[i].month == m && Cell(rows[i], col) == Some(v)
  {
    var w := Where(rows, col, InMonth(m));
    assert forall i :: 0 <= i < |rows| ==> w[i] == if rows[i].month == m then Cell(rows[i], col) else None;
    if Some(v) in w {
      var i :| 0 <= i < |w| && w[i] == Some(v);
      assert rows[i].month == m && Cell(rows[i], col) == Some(v);
    }
  }

  /**
   One group's mean of a column, skipping missing cells: NaN (`None`) exactly
   when no row of month `m` has the cell, and otherwise a value between the
   least and the greatest present cell of the month.
   */
  function GroupMean(rows: Table, col: Column, m: int): (r: Option<real>)
    ensures r.None? <==> forall i :: 0 <= i < |rows| && rows[i].month == m ==> Cell(rows[i], col).None?
    ensures r.Some? ==> exists i :: 0 <= i < |rows| && rows[i].month == m && Cell(rows[i], col).Some? && Cell(rows[i], col).value <= r.value
    ensures r.Some? ==> exists i :: 0 <= i < |rows| && rows[i].month == m && Cell(rows[i], col).Some? && r.value <= Cell(rows[i], col).value
  {
    var cells := DropMissing(Where(rows, col, InMonth(m)));
    if |cells| == 0 then
      assert forall i :: 0 <= i < |rows| && rows[i].month == m ==> Cell(rows[i], col).None? by {
        forall i | 0 <= i < |rows| && rows[i].month == m
          ensures Cell(rows[i], col).None?
        {
          if Cell(rows[i], col).Some? {
            MonthCell(rows, col, m, Cell(rows[i], col).value);
          }
        }
      }
      None
    else
      var lo := cells[ArgMin(cells)];
      var hi := cells[ArgMax(cells)];
      MeanBetweenExtremes(cells);
      MonthCell(rows, col, m, lo);
      MonthCell(rows, col, m, hi);
      Mean(cells)
  }

  /** The chart row of month `m`: the group's mean high and mean low. */
  function GroupRow(rows: Table, m: int): ChartRow {
    ChartRow(m, GroupMean(rows, MaxTemp, m), GroupMean(rows, MinTemp, m))
  }

  function ChartMonths(c: seq<ChartRow>): seq<int> {
    seq(|c|, k requires 0 <= k < |c| => c[k].month)
  }

  /** Lines 69-71: one chart row per month the station has, ascending. */
  function ChartData(t: Table, state: string, city: string): (c: seq<ChartRow>)
    ensures StrictlyIncreasing(ChartMonths(c))
    ensures forall m :: m in ChartMonths(c) <==>
              exists row :: row in t && row.state == state && row.city == city && row.month == m
  {
    var rows := StationRows(t, state, city);
    var ms := MonthGroups(rows);
    var c := seq(|ms|, k requires 0 <= k < |ms| => GroupRow(rows, ms[k]));
    assert ChartMonths(c) == ms;
    c
  }

  /**
   The chart's High and Low for a month are the averages the metric tile
   computes for that month: grouping the station's rows by month selects the
   same cells as `weather_filter`.
   */
  lemma ChartAgreesWithFilter(t: Table, state: string, city: string)
    ensures var c := ChartData(t, state, city);
            forall k :: 0 <= k < |c| ==>
              && c[k].high == Mean(WeatherFilter(state, city, c[k].month, MaxTemp, t))
              && c[k].low == Mean(WeatherFilter(state, city, c[k].month, MinTemp, t))
  {
    var c := ChartData(t, state, city);
    forall k | 0 <= k < |c|
      ensures c[k].high == Mean(WeatherFilter(state, city, c[k].month, MaxTemp, t))
      ensures c[k].low == Mean(WeatherFilter(state, city, c[k].month, MinTemp, t))
    {
      var m := c[k].month;
      var p := AtStation(state, city);
      var q := InMonth(m);
      var pq := StationMonth(state, city, m);
      assert forall r :: pq(r) == (p(r) && q(r));
      DropMissingAfterKeep(t, p, q, pq, MaxTemp);
      DropMissingAfterKeep(t, p, q, pq, MinTemp);
    }
  }

  /** `calendar.month_abbr`: index 0 is the empty string, 1..12 are Jan..Dec. */
  const MonthAbbreviations: seq<string> :=
    ["", "Jan", "Feb", "Mar", "Apr", "May", "Jun", "Jul", "Aug", "Sep", "Oct", "Nov", "Dec"]

  /**
   `calendar.month_abbr[m]`: Python indexing of a 13-entry list, so -13..-1
   count from the end and anything else raises IndexError.
   */
  function MonthAbbr(m: int): (r: Result<string, ScriptError>)
    ensures r.Success? <==> -13 <= m <= 12
    ensures r.Failure? ==> r.error == IndexOutOfRange(m)
    ensures 1 <= m <= 12 ==> |r.value| == 3
    ensures m == 0 || m == -13 ==> r.value == ""
  {
    if 0 <= m <= 12 then Success(MonthAbbreviations[m])
    else if -13 <= m < 0 then Success(MonthAbbreviations[m + 13])
    else Failure(IndexOutOfRange(m))
  }

  /** A negative index names the same month as that index plus 13. */
  lemma NegativeMonthWraps(m: int)
    requires -13 <= m < 0
    ensures MonthAbbr(m) == MonthAbbr(m + 13)
  {
  }

  function MonthNumberFrom(abbr: string, m: int): (r: Option<int>)
    requires 1 <= m <= 13
    ensures r.Some? ==> m <= r.value <= 12 && MonthAbbreviations[r.value] == abbr
    decreases 13 - m
  {
    if m == 13 then None
    else if MonthAbbreviations[m] == abbr then Some(m)
    else MonthNumberFrom(abbr, m + 1)
  }

  /** The month an abbreviation stands for, if any. */
  function MonthNumber(abbr: string): (r: Option<int>)
    ensures r.Some? ==> 1 <= r.value <= 12 && MonthAbbr(r.value) == Success(abbr)
  {
    MonthNumberFrom(abbr, 1)
  }

  /** The twelve abbreviations are distinct: each reads back as its month. */
  lemma MonthAbbrRoundTrip(m: int)
    requires 1 <= m <= 12
    ensures MonthNumber(MonthAbbr(m).value) == Some(m)
  {
  }

  /**
   Lines 72-75: replace each month number by its abbreviation, in row order,
   stopping at the first month the lookup rejects.
   */
  function Relabel(c: seq<ChartRow>): (r: Result<seq<ChartPoint>, ScriptError>)
    ensures r.Success? <==> forall k :: 0 <= k < |c| ==> -13 <= c[k].month <= 12
    ensures r.Success? ==>
              && |r.value| == |c|
              && forall k :: 0 <= k < |c| ==>
                   && MonthAbbr(c[k].month) == Success(r.value[k].month)
                   && r.value[k].high == c[k].high
                   && r.value[k].low == c[k].low
    ensures r.Failure? ==>
              exists k :: 0 <= k < |c| && r.error == IndexOutOfRange(c[k].month)
                          && !(-13 <= c[k].month <= 12)
                          && forall j :: 0 <= j < k ==> -13 <= c[j].month <= 12
  {
    if |c| == 0 then Success([])
    else
      match MonthAbbr(c[0].month)
      case Failure(e) => Failure(e)
      case Success(abbr) =>
        match Relabel(c[1..])
        case Failure(e) =>
          assert forall k :: 1 <= k < |c| ==> c[1..][k - 1] == c[k];
          Failure(e)
        case Success(rest) => Success([ChartPoint(abbr, c[0].high, c[0].low)] + rest)
  }
}

/**
 The weather table and the two row filters of the dashboard: the 2016
 restriction applied once after loading, and `weather_filter`, which picks
 one temperature column for a station and month.
 */
module Weather {
  import opened Wrappers
  import opened Seqs

  /** The only year the dashboard keeps. */
  const DashboardYear: int := 2016

  /** The three temperature columns the dashboard reads. */
  datatype Column = AvgTemp | MaxTemp | MinTemp

  /**
   One observation: `Station.State`, `Station.City`, `Date.Month`,
   `Date.Year` and the three `Data.Temperature.*` cells, each of which may be
   missing.
   */
  datatype Row = Row(
    state: string,
    city: string,
    month: int,
    year: int,
    avgTemp: Option<real>,
    maxTemp: Option<real>,
    minTemp: Option<real>)

  type Table = seq<Row>

  /** The exceptions the script can raise on data it has loaded. */
  datatype ScriptError =
    | ZeroDivision             // `sum(xs)/len(xs)` on an empty list
    | IndexOutOfRange(index: int)  // `calendar.month_abbr[m]` outside -13..12

  function Cell(r: Row, c: Column): Option<real> {
    match c
    case AvgTemp => r.avgTemp
    case MaxTemp => r.maxTemp
    case MinTemp => r.minTemp
  }

  predicate InDashboardYear(r: Row) {
    r.year == DashboardYear
  }

  /** The rows dated in the dashboard year, in table order. */
  function RowsOfDashboardYear(t: Table): (r: Table)
    ensures forall row :: row in r <==> row in t && row.year == 2016
  {
    var r := Keep(t, InDashboardYear);
    KeepFromSource(t, InDashboardYear);
    assert forall row :: row in r ==> row in multiset(r);
    r
  }

  /** The year filter keeps exactly the 2016 positions, in their original order. */
  lemma RowsOfDashboardYearInOrder(t: Table)
    ensures SelectedAt(RowsOfDashboardYear(t), t, InDashboardYear, KeptIndices(t, InDashboardYear, |t|))
  {
    KeepSelects(t, InDashboardYear);
  }

  /** The conjunction of equality predicates `weather_filter` applies. */
  predicate Matches(r: Row, state: string, city: string, month: int) {
    r.state == state && r.city == city && r.month == month
  }

  function StationMonth(state: string, city: string, month: int): Row -> bool {
    (r: Row) => Matches(r, state, city, month)
  }

  /** pandas `Series.where`: a column with the cells of unmasked rows blanked out. */
  function Where(t: Table, col: Column, mask: Row -> bool): (w: seq<Option<real>>)
    ensures |w| == |t|
    ensures forall i :: 0 <= i < |t| ==> (w[i].Some? <==> mask(t[i]) && Cell(t[i], col).Some?)
    ensures forall i :: 0 <= i < |t| && w[i].Some? ==> w[i] == Cell(t[i], col)
  {
    seq(|t|, i requires 0 <= i < |t| => if mask(t[i]) then Cell(t[i], col) else None)
  }

  predicate IsPresent(o: Option<real>) {
    o.Some?
  }

  function Values(xs: seq<Option<real>>): seq<real>
    requires forall k :: 0 <= k < |xs| ==> xs[k].Some?
  {
    seq(|xs|, k requires 0 <= k < |xs| => xs[k].value)
  }

  /** pandas `dropna().tolist()`: the present cells, in order. */
  function DropMissing(xs: seq<Option<real>>): (r: seq<real>)
    ensures |r| <= |xs|
    ensures forall v :: v in r <==> Some(v) in xs
  {
    var kept := Keep(xs, IsPresent);
    KeepFromSource(xs, IsPresent);
    var r := Values(kept);
    assert forall k :: 0 <= k < |r| ==> Some(r[k]) == kept[k];
    assert forall v :: v in r <==> Some(v) in xs by {
      forall v
        ensures v in r <==> Some(v) in xs
      {
        if v in r {
          var k :| 0 <= k < |r| && r[k] == v;
          assert kept[k] in multiset(xs);
        }
        if Some(v) in xs {
          var i :| 0 <= i < |xs| && xs[i] == Some(v);
          assert IsPresent(xs[i]);
          var k :| 0 <= k < |kept| && kept[k] == xs[i];
          assert r[k] == v;
        }
      }
    }
    r
  }

  /** `dropna().tolist()` keeps every present cell once, in order, and drops every missing one. */
  lemma DropMissingInOrder(xs: seq<Option<real>>)
    ensures var r := DropMissing(xs);
            var idx := KeptIndices(xs, IsPresent, |xs|);
            && StrictlyIncreasing(idx)
            && |r| == |idx|
            && (forall k :: 0 <= k < |idx| ==> 0 <= idx[k] < |xs| && xs[idx[k]] == Some(r[k]))
            && (forall i :: 0 <= i < |xs| ==> (i in idx <==> xs[i].Some?))
  {
    KeepSelects(xs, IsPresent);
  }

  /**
   `weather_filter(state, city, month, colname, weather_df)`: the present
   `colname` values of the rows whose state, city and month all equal the
   arguments.
   */
  function WeatherFilter(state: string, city: string, month: int, col: Column, t: Table): (r: seq<real>)
    ensures |r| <= |t|
    ensures forall v :: v in r <==>
              exists i :: 0 <= i < |t| && Matches(t[i], state, city, month) && Cell(t[i], col) == Some(v)
  {
    var w := Where(t, col, StationMonth(state, city, month));
    assert forall i :: 0 <= i < |t| ==>
      w[i] == if Matches(t[i], state, city, month) then Cell(t[i], col) else None;
    DropMissing(w)
  }

  /** The row positions `weather_filter` reads a value from, ascending. */
  function SelectedRows(state: string, city: string, month: int, col: Column, t: Table): seq<int> {
    KeptIndices(Where(t, col, StationMonth(state, city, month)), IsPresent, |t|)
  }

  /**
   `weather_filter` lists, in table order, one value for each row that
   matches all three predicates and has the column present, and nothing else.
   */
  lemma WeatherFilterInRowOrder(state: string, city: string, month: int, col: Column, t: Table)
    ensures var r := WeatherFilter(state, city, month, col, t);
            var idx := SelectedRows(state, city, month, col, t);
            && StrictlyIncreasing(idx)
            && |r| == |idx|
            && (forall k :: 0 <= k < |idx| ==>
                  0 <= idx[k] < |t| && Cell(t[idx[k]], col) == Some(r[k]))
            && (forall i :: 0 <= i < |t| ==>
                  (i in idx <==> Matches(t[i], state, city, month) && Cell(t[i], col).Some?))
  {
    var w := Where(t, col, StationMonth(state, city, month));
    KeepSelects(w, IsPresent);
  }

  /** A month no row carries (month 0, the one before January) yields nothing. */
  lemma NoRowsNoValues(state: string, city: string, month: int, col: Column, t: Table)
    requires forall i :: 0 <= i < |t| ==> t[i].month != month
    ensures WeatherFilter(state, city, month, col, t) == []
  {
    var w := Where(t, col, StationMonth(state, city, month));
    assert forall i :: 0 <= i < |w| ==> !IsPresent(w[i]);
    KeepNone(w, IsPresent);
  }

  lemma WhereConcat(a: Table, b: Table, col: Column, mask: Row -> bool)
    ensures Where(a + b, col, mask) == Where(a, col, mask) + Where(b, col, mask)
  {
  }

  /**
   Filtering rows first and masking the column afterwards leaves the same
   present values as masking once with the conjunction of both conditions.
   */
  lemma {:induction false} DropMissingAfterKeep(t: Table, p: Row -> bool, q: Row -> bool, pq: Row -> bool, col: Column)
    requires forall r :: pq(r) == (p(r) && q(r))
    ensures DropMissing(Where(Keep(t, p), col, q)) == DropMissing(Where(t, col, pq))
  {
    KeepWhereKeep(t, p, q, pq, col);
  }

  lemma {:induction false} KeepWhereKeep(t: Table, p: Row -> bool, q: Row -> bool, pq: Row -> bool, col: Column)
    requires forall r :: pq(r) == (p(r) && q(r))
    ensures Keep(Where(Keep(t, p), col, q), IsPresent) == Keep(Where(t, col, pq), IsPresent)
  {
    if |t| > 0 {
      var init := t[..|t| - 1];
      var x := t[|t| - 1];
      assert t == init + [x];
      var tail := if p(x) then [x] else [];
      var kept := Keep(init, p);
      var a := Keep(Where(kept, col, q), IsPresent);
      var b := Keep(Where(tail, col, q), IsPresent);
      var c := Keep(Where(init, col, pq), IsPresent);
      var d := Keep(Where([x], col, pq), IsPresent);
      assert a == c by {
        KeepWhereKeep(init, p, q, pq, col);
      }
      assert b == d by {
        LastRowPresence(x, p, q, pq, col);
      }
      assert Keep(Where(Keep(t, p), col, q), IsPresent) == a + b by {
        KeepLast(t, p);
        WhereConcat(kept, tail, col, q);
        KeepConcat(Where(kept, col, q), Where(tail, col, q), IsPresent);
      }
      assert Keep(Where(t, col, pq), IsPresent) == c + d by {
        WhereConcat(init, [x], col, pq);
        KeepConcat(Where(init, col, pq), Where([x], col, pq), IsPresent);
      }
    }
  }

  lemma LastRowPresence(x: Row, p: Row -> bool, q: Row -> bool, pq: Row -> bool, col: Column)
    requires forall r :: pq(r) == (p(r) && q(r))
    ensures Keep(Where(if p(x) then [x] else [], col, q), IsPresent) == Keep(Where([x], col, pq), IsPresent)
  {
    if p(x) {
      assert Where([x], col, q) == Where([x], col, pq);
    } else {
      assert Where([], col, q) == [];
      assert Where([x], col, pq) == [None];
      assert Keep([None], IsPresent) == Keep([None][..0], IsPresent) + [];
    }
  }
}

# Weather dashboard core, modelled in Dafny

`sample_app.py` is a Streamlit page over the CORGIS weather table. Around
its widgets sits a small tabular core, and this project models that core:

- the table is restricted to observations dated 2016;
- the state, city and month selectors list distinct values in order of
  first appearance;
- `weather_filter` picks one temperature column for the selected station
  and month, drops missing cells and keeps row order;
- the metric tiles average the current month and the high and low. They
  also round the change from the previous month to one decimal, with
  "N/A" when the previous month has no data;
- the chart groups the station's rows by month, averages the high and low
  of each month, and replaces month numbers with `calendar.month_abbr`
  labels.

A row is `Weather.Row`: state, city, month, year and three
`Option<real>` temperature cells. A missing cell, which pandas reads as
NaN, is `None`. The table is `seq<Row>`. Once a state, a city and an
integer month are selected, the tab can raise two exceptions, and these are
`Weather.ScriptError`. `ZeroDivision` comes from `sum(xs)/len(xs)` on an
empty list. `IndexOutOfRange` comes from a bad `month_abbr` index. `Dashboard.Render` runs the whole tab in script order.

Modules: `Seqs` (order-preserving selection, sorting), `Unique`
(`Series.unique`), `Stats` (sum, mean, `round(x, 1)`), `Decimal` (the text
of a rounded value), `Weather` (rows, year filter, `weather_filter`),
`Metrics` (the tiles), `Chart` (group-by-month, relabelling) and
`Dashboard` (selectors and the whole tab).

Three behaviours of the code are easy to get wrong:
- `calendar.month_abbr[0]` is `""`, not an error. Indices -13..-1 count
  from the end of the 13-entry list. Only other indices raise IndexError.
- `groupby('Date.Month')` sorts its keys, so chart rows come in ascending
  month order, not in order of first appearance.
- `round(x, 1)` rounds half to even, not half away from zero.

## Model

| member | source | states |
|---|---|---|
| Weather.RowsOfDashboardYear | sample_app.py:19 | a row is kept exactly when it is in the table and dated 2016 |
| Weather.RowsOfDashboardYearInOrder | sample_app.py:19 | the kept rows are the table's 2016 rows at strictly increasing positions, in source order, and no others |
| Weather.Where | sample_app.py:16 | `Series.where` keeps the column's length; a cell survives exactly when its row is unmasked and the cell is present, with its value unchanged |
| Weather.DropMissing | sample_app.py:16 | `dropna().tolist()` keeps a value exactly when it was a present cell, never more cells than given |
| Weather.DropMissingInOrder | sample_app.py:16 | `dropna().tolist()` keeps every present cell once per occurrence, in order, and drops exactly the missing ones |
| Weather.WeatherFilter | sample_app.py:15-16 | a value is returned exactly when some row matches state, city and month and has that value in the column |
| Weather.WeatherFilterInRowOrder | sample_app.py:15-16 | the result lists, at strictly increasing row positions, one value per row that matches all three predicates and has the cell present, and nothing else |
| Weather.NoRowsNoValues | sample_app.py:46-47 | a month no row carries, such as month 0 looked up for January, gives an empty list |
| Weather.DropMissingAfterKeep | sample_app.py:69-70 | filtering rows by station and then grouping by month selects the same present cells as one filter on station and month |
| Seqs.KeepSelects | sample_app.py:19 | a boolean-mask filter returns the elements at exactly the positions where the mask holds, in increasing position order |
| Seqs.SortAscending | sample_app.py:70 | the group keys come out strictly ascending with the same members |
| Unique.FirstOccurrences | sample_app.py:30-36 | `unique()` has no duplicates, contains every input value and contains nothing that is not an input value |
| Unique.FirstOccurrencesMembers | sample_app.py:30-36 | a value is in the `unique()` list exactly when it is in the input |
| Unique.FirstOccurrencesInOrder | sample_app.py:30-36 | an earlier entry of the `unique()` list first occurs strictly earlier in the input |
| Unique.Unique | sample_app.py:30 | a single pass with a set of seen values yields the first-occurrence list, with no duplicates |
| Dashboard.StateList | sample_app.py:30 | the state selector lists each state of a 2016 row exactly once and no other value |
| Dashboard.CityList | sample_app.py:33 | the city selector lists exactly the cities of rows in the chosen state, each once |
| Dashboard.MonthList | sample_app.py:36 | the month selector lists each month present exactly once |
| Dashboard.SelectorsInFirstAppearanceOrder | sample_app.py:30-36 | all three selector lists follow the order in which values first appear in the rows |
| Stats.Mean | sample_app.py:48 | a mean is undefined exactly for an empty list, and otherwise times the count gives the sum |
| Stats.MeanWithinBounds | sample_app.py:48 | a mean lies between any lower and upper bound of the averaged values |
| Stats.SumBounds | sample_app.py:48 | the sum of n values each between lo and hi lies between n·lo and n·hi |
| Stats.SumConcat | sample_app.py:48 | Python's left-fold `sum` of two lists in a row is the sum of their sums |
| Stats.MeanBetweenExtremes | sample_app.py:48 | a mean lies between the least and the greatest averaged value |
| Stats.RoundTenths | sample_app.py:51 | `round(x, 1)` in tenths is within half a tenth of x, and a tie goes to the even neighbour |
| Stats.RoundTenthsUnique | sample_app.py:51 | no other whole number of tenths has the round-half-to-even property |
| Stats.RoundToTenth | sample_app.py:51 | the rounded value is a whole number of tenths within 0.05 of the input |
| Stats.RoundToTenthIdempotent | sample_app.py:51 | rounding a value that already has one decimal gives it back |
| Decimal.ShowTenths | sample_app.py:52 | the text of a rounded value ends in a point and one digit, and starts with a minus exactly for negatives |
| Decimal.ShowNatRoundTrip | sample_app.py:52 | the integer digits read back as the number written |
| Decimal.ShowTenthsRoundTrip | sample_app.py:52 | the text of a rounded value reads back as the same number of tenths |
| Metrics.DeltaLabel | sample_app.py:51-54 | the label of a change reads back as its rounded number of tenths, and "N/A" reads back as no number |
| Metrics.Average | sample_app.py:48 | `sum/len` raises ZeroDivisionError exactly on an empty list and otherwise gives the mean |
| Metrics.PriorDelta | sample_app.py:49-54 | the delta is "N/A" exactly when the previous month's list is empty, and is otherwise a whole number of tenths within 0.05 of the current average minus the prior average |
| Metrics.MetricBlock | sample_app.py:46-61 | the tiles fail with ZeroDivisionError exactly when the current, high or low list is empty; on success the three figures are those lists' means and the delta is "N/A" exactly when the previous month has no data |
| Metrics.JanuaryHasNoDelta | sample_app.py:46-54 | with months 1..12 in the data, January always shows "N/A" |
| Metrics.DeltaTextAsWritten | sample_app.py:52-55 | without prior data the tile shows exactly "N/A from last month" |
| Metrics.DeltaText | sample_app.py:52-55 | the corrected delta text ends with the " from last month" suffix |
| Metrics.DeltaTextRoundTrip | sample_app.py:52-55 | the corrected delta text reads back as the delta it shows |
| Metrics.AsWrittenRepeatsSuffix | sample_app.py:52-55 | with prior data the text as written is the corrected text plus a second suffix, and it no longer reads back as a delta |
| Metrics.AsWrittenExample | sample_app.py:48-55 | a current average of 15.0 after 10.0 shows "5.0 from last month from last month" |
| Chart.StationRows | sample_app.py:69 | a row is kept exactly when it is in the table and belongs to the selected state and city |
| Chart.StationRowsInOrder | sample_app.py:69 | the station mask keeps each matching row once per occurrence, in table order, and no other row |
| Chart.MonthGroups | sample_app.py:70 | the group keys are strictly ascending and are exactly the months present |
| Chart.MonthCell | sample_app.py:70 | a value enters a month's group exactly when some row of that month has it as a present cell |
| Chart.GroupMean | sample_app.py:70 | a month's mean is NaN exactly when no row of that month has the cell, and otherwise lies between the month's least and greatest present cell |
| Chart.ChartData | sample_app.py:69-71 | the chart has one row per month the station has, strictly ascending, and no other month |
| Chart.ChartAgreesWithFilter | sample_app.py:69-71 | each chart row's High and Low are the means of `weather_filter`'s max and min lists for that month |
| Chart.MonthAbbr | sample_app.py:74 | `month_abbr[m]` succeeds exactly for -13..12; 1..12 give three-letter labels; 0 and -13 give the empty string; other indices raise IndexError |
| Chart.NegativeMonthWraps | sample_app.py:74 | a negative index names the same entry as that index plus 13 |
| Chart.MonthNumber | sample_app.py:74 | a label that maps back to a month is that month's abbreviation |
| Chart.MonthAbbrRoundTrip | sample_app.py:74 | each of the twelve abbreviations maps back to its own month, so they are distinct |
| Chart.Relabel | sample_app.py:72-75 | relabelling succeeds exactly when every month is a valid index; it keeps the row count, High and Low, and gives each row its month's label; otherwise it fails at the first bad month |
| Dashboard.RelabelsWhenMonthsInRange | sample_app.py:72-75 | relabelling a chart succeeds exactly when all of its months are valid indices |
| Dashboard.ChartRelabels | sample_app.py:69-75 | relabelling the station's chart fails exactly when one of its 2016 rows has a month outside -13..12 |
| Dashboard.Render | sample_app.py:19-75 | the tab raises ZeroDivisionError exactly when a current, high or low list is empty, and succeeds exactly when all three are non-empty and every station month is a valid index. On success the selectors are the state, city and month lists, the tiles are the metric block, the chart is the relabelled group-by-month data, and the delta is "N/A" exactly when the previous month has no data. Its delta text is the corrected one (see Left out) and reads back as the delta |
| Dashboard.JanuaryRendersNA | sample_app.py:46-54 | on data with months 1..12, a January selection renders "N/A" |

## Findings

| source | as written | input that shows it | evidently intended | confidence | as-written member | corrected member |
|---|---|---|---|---|---|---|
| sample_app.py:52-55 | line 52 appends " from last month" to the rounded change, and line 55 appends it again to the result | previous month averaging 10.0 and current month averaging 15.0 show "5.0 from last month from last month" | "5.0 from last month", with the suffix once, as in the "N/A" case | high; not executed | Metrics.AsWrittenRepeatsSuffix | Metrics.DeltaTextRoundTrip |

`Metrics.DeltaTextAsWritten` models the text as written, and
`Metrics.AsWrittenExample` works the example above through it.
`Dashboard.Render` shows the corrected `Metrics.DeltaText`, and says so
under "Left out".

## Left out

- Loading: `get_data`, `pd.read_csv` and the `st.cache_data` cache fetch
  and parse a remote CSV. The table is a parameter of `Dashboard.Render`.
- All Streamlit presentation: title, tabs, columns, select boxes, metric
  tiles, markdown, line chart, expander and dataframe views, and the empty
  scroll view. The selected state, city and month are parameters. The
  model does not require them to come from the selector lists, and the
  script does not check that either.
- The text of the unrounded averages in the tiles (`f'{temp_metric}°'`)
  depends on float formatting. Only the rounded delta's text is modelled.
- Floating point: temperatures are exact reals. `sum/len` and `round` are
  exact, and round-half-to-even applies to exact ties, not to binary floats.
- Decimal.ShowTenths: Python prints a negative difference that rounds to
  zero as "-0.0", and the model prints "0.0". Magnitudes of 1e16 and above,
  which Python prints in exponent form, are not modelled.
- Metrics.PriorDelta: the bare `except:` would also swallow errors other
  than division by zero. On exact reals no other error can arise, so the
  model gives "N/A" only for an empty list.
- The column-name cast at line 76 and the `.T.transpose()` pair at line 70.
  Both leave the data unchanged.
- `calendar.month_abbr` depends on the locale. The model uses the English
  abbreviations.
- State and city cells are never missing in the model, so the `dropna()`
  in the city selector never removes anything.
- There is no CSV export code in this file.
- Dashboard.Render: its `deltaText` is the corrected single-suffix text
  (`Metrics.DeltaText`), not the doubled suffix lines 52 and 55 display.
  `Metrics.DeltaTextAsWritten` and `Metrics.AsWrittenRepeatsSuffix` model
  the displayed text.
- Dashboard.Render: an empty selection is not modelled. With no 2016 rows
  the selector lists are empty and `st.selectbox` returns None, so line 47's
  `month-1` raises TypeError. The model takes an integer month and reports
  ZeroDivision for that table.

# COVID-19 dashboard core in Dafny

This project models the data-shaping logic of a single-page COVID-19 dashboard, `js/main.js`.
The page fetches per-country and global case counts from a public API. It then renders:

- a data table with severity colours;
- three global KPI tiles;
- two top-5 bar charts;
- a ten-month history chart per country.

The model covers what the page computes from the parsed responses:

- **Normalization** (`Records`). The `/cases` object becomes an ordered list of country records.
- **Percentage helpers** (`Metrics`). This covers `getPercentage`, `getIncreaseDecreasePercentage` and `getPercentageStr`.
  - `toFixed` and `Number.prototype.toString` are modelled digit by digit (`Decimal`).
  - The KPI arrow, `percentage < 0` on the `toFixed` string, is part of this module.
- **Thousands separator** (`Thousands`). The global regex replacement `/\B(?=(\d{3})+(?!\d))/g` with `"."` is modelled position by position. It is proved equal to grouping digits in threes from the right.
- **Data table** (`Classifier`). This covers the severity tiers of the cases/population and deaths/cases percentages and the `countryStatusColor` table. That table is a class whose field the table pass updates. The module also builds the text of each row.
- **Top-5 ranker** (`Ranker`). An insertion sort rearranges an `array` in place, descending by a count. The five entries after the first are then selected, and the freshness date is tracked across both charts.
- **Monthly sampler** (`Sampler`). This is the loop of `printDetailsCharts` that picks the value on the 1st of each month, going back one month per point.
- **Global KPI tiles** (`Kpi`). Each shows the newest count with separators, the day-over-day change and the arrow.

Where the code and its written description differ, the model follows the code:

- **Top-5 skip.** `getTopConfirmedCountries` skips position 0 of the list after sorting, not the first record of the response.
- **Percentage strings.** `getPercentageStr` receives the `toFixed` string, so a positive percentage keeps its fraction zeros ("7.00%"). A negative one goes through a multiplication and loses them ("- 12.5%").

Numbers from the API are integers or missing (`Num`). JavaScript falsiness is explicit: missing and 0 are both falsy. Percentages are exact rationals rounded as `toFixed` rounds, half away from zero in magnitude. Dates are abstract `(year, month, day)` triples. In the ranker, a freshness timestamp is an integer.

## Model

| member | source | states |
|---|---|---|
| Records.Normalize | js/main.js:26-35 | the loop fails exactly when some outer key wraps an empty object; otherwise it returns one record per outer key, in key order |
| Records.Normalized | js/main.js:26-35 | one record per outer key, each the record under the first inner key with its name filled in |
| Records.Named | js/main.js:32-34 | `country` is set to the key only when it was absent or empty; every other field is unchanged |
| Records.NormalizedNamed | js/main.js:32-34 | after normalization every record has a name, and an empty name can only come from an empty outer key |
| Metrics.Percentage | js/main.js:178-189 | NaN exactly when the base or the value is falsy (0 or missing); otherwise `value*100/base` rounded to `decimals` places, negative exactly when the signs differ |
| Metrics.IncreaseDecrease | js/main.js:166-168 | NaN exactly when the old value is falsy, the new one is missing or they are equal; otherwise `(old-new)*100/old` rounded; for a positive old value it is marked negative exactly when the new value is larger |
| Metrics.ToFixed | js/main.js:185 | the `toFixed` result has the requested decimals, the sign of its input and the nearest magnitude |
| Metrics.ToFixedNearest | js/main.js:185 | no other magnitude is closer to the exact value than the one `toFixed` picks |
| Metrics.RatioSign | js/main.js:184 | the exact percentage is negative exactly when value and base have opposite signs, and zero exactly when the value is zero |
| Metrics.KpiArrow | js/main.js:108 | the arrow is down exactly when the `toFixed` string stands for a number below zero |
| Metrics.KpiArrowTrend | js/main.js:104-108 | with a positive previous count the arrow points down only when the count grew, and up whenever it did not |
| Metrics.PercentageStr | js/main.js:197-209 | `getPercentageStr` as written: "Unknown" exactly for NaN, and otherwise a string ending in "%"; it starts with a "-" directly before a digit exactly when a negative value rounded to zero |
| Metrics.NegativeZeroShown | js/main.js:197-209 | a rise from 100000 to 100001 is rendered "-0.00%" with the up arrow |
| Metrics.PercentageStrFixed | js/main.js:197-209 | the corrected rendering: "Unknown" exactly for NaN; never a "-" directly before a digit; always ends in "%"; starts with "- " exactly when the value is below zero, followed by Number's rendering of the magnitude; shows the `toFixed` digits otherwise; agrees with the as-written rendering except on a negative zero |
| Metrics.PercentageStrNegativeExample | js/main.js:203 | a negative percentage loses its trailing fraction zeros: "- 12.5%" |
| Metrics.PercentageStrPositiveExample | js/main.js:205 | a positive percentage keeps the `toFixed` layout: "7.00%" |
| Decimal.ParseNatToString | js/main.js:111 | the decimal rendering of a count reads back as the count |
| Decimal.FixedDigitsValue | js/main.js:185 | the `toFixed` layout without its point is the zero-padded digits of the rounded magnitude |
| Decimal.NumberStringShortest | js/main.js:203 | Number's rendering of `u / 10^d`: its digits without the point read as the mantissa `m` of `u == m * 10^(d - f)`, exactly `f` digits follow the point, the last of them is not a zero, with `f == 0` there is no point, and a leading '0' is the whole integer part ("0" or "0.…") |
| Thousands.RegexIsGroup | js/main.js:111 | on a digit string the global replace inserts exactly the separators of the right-to-left grouping in threes |
| Thousands.RegexSeparate | js/main.js:111 | on any string the global replace only inserts dots: deleting every "." from its output gives back the input without its own dots |
| Thousands.FormatCount | js/main.js:111 | deleting the separators from a shown count gives back the count's decimal digits, with its sign |
| Thousands.GroupDropDots | js/main.js:111 | deleting the separators from the grouping gives back the digits |
| Thousands.GroupShape | js/main.js:111 | the grouping has a first group of one to three digits, and every later group has exactly three; it adds `(n-1)/3` separators |
| Thousands.GroupedEdges | js/main.js:111 | a grouped string neither starts nor ends with a separator |
| Thousands.GroupUnique | js/main.js:111 | the grouping is the only well-grouped way to put separators into a digit string |
| Thousands.FormatCountNonNegative | js/main.js:258 | a non-negative count is shown grouped, its separators removed it reads back as the count, and below 1000 it is unchanged |
| Thousands.FormatCountExample | js/main.js:111 | 1234567 is shown as "1.234.567" |
| Classifier.Classify | js/main.js:240-248 | teal exactly up to 10, yellow in (10, 25], red in (25, 100], grey above 100 or for NaN |
| Classifier.HexDistinct | js/main.js:240-248 | the four colours written are distinct, so a colour names one tier |
| Classifier.ClassifyMonotone | js/main.js:294-302 | a larger percentage never gets a milder tier, and NaN gets the last tier |
| Classifier.ClassifyExamples | js/main.js:240-248 | the boundaries 10 and 100 belong to the lower tier; the colour written at each band edge and for NaN |
| Classifier.StatusOf | js/main.js:225-302 | cases and deaths use the same rule; a tier is grey exactly when a count it depends on is falsy or the percentage is above 100 |
| Classifier.Painted | js/main.js:226-229 | after the pass the table holds exactly its earlier names and the name of every record |
| Classifier.PaintedLast | js/main.js:226-229 | the last record with a given name decides that name's colours |
| Classifier.PaintedOthers | js/main.js:226-229 | names no record carries keep the colours they had |
| Classifier.CountCell | js/main.js:257-263 | "Unknown" exactly for a falsy count; a positive count is shown grouped and reads back as itself |
| Classifier.Rows | js/main.js:225-328 | one row per record, in order, each built from its own record |
| Classifier.RowCells | js/main.js:223-316 | each cell of a row is "Unknown" exactly when a count it depends on is falsy; the percentage cells use `getPercentageStr` as written; the row carries its record's colours |
| Classifier.StatusColorTable.PrintDataTable | js/main.js:223-302 | the table pass records each record's colours under its name, later records overwriting earlier ones, and builds one row per record in order |
| Ranker.InsertDown | js/main.js:40 | one insertion pass leaves the first `i + 1` elements in non-increasing order and the array a permutation of what it was |
| Ranker.SortDescending | js/main.js:40 | the array is rearranged in place into non-increasing order of the count |
| Ranker.TakeTop | js/main.js:45-52 | labels and data are the names and counts at positions 1 to 5, index-aligned; the data is non-increasing after the sort; the date ends as the largest of its start and the selected `updated` values |
| Ranker.TopNonIncreasing | js/main.js:40-52 | after a sort by the same count the five selected counts never rise |
| Ranker.ReadyPermutation | js/main.js:61 | rearranging the records keeps every name and count present |
| Ranker.DrawCharts | js/main.js:40-73 | the cases chart is positions 1 to 5 of some rearrangement of the records in non-increasing cases order; the deaths chart is positions 1 to 5 of the final array, a rearrangement in non-increasing deaths order; each date is the latest of its start (`now`, then the cases date) and the selected `updated` values; all labels are present |
| Ranker.GetTopConfirmedCountries | js/main.js:19-73 | an empty wrapper fails before the table; otherwise the table is filled and the rows built; fewer than six records fail; otherwise both charts are positions 1 to 5 of the normalized records sorted by their count, with the dates as in `DrawCharts` |
| Sampler.MonthlySample | js/main.js:413-434 | the two series are the reversal of the specified scan's picks and have equal length at most 10 |
| Sampler.MonthlySampleProperties | js/main.js:413-434 | every label is the 1st of a month; the months are consecutive and increasing, ending at the newest key's month; each value is the history's value under its label |
| Sampler.SampleShape | js/main.js:418-430 | the k-th pick is the 1st of the month k months before the start, and is a point of the history |
| Sampler.Sample | js/main.js:418-431 | the scan picks no more points than it has room for, and no more than there are keys |
| Sampler.SampleComplete | js/main.js:418-431 | the scan misses nothing: when the 1st of each of `K` months from the start back occurs in the history, newest first, it picks at least `K` points or fills its room |
| Sampler.SampleStopsAtGap | js/main.js:419 | when a month's 1st is missing, no earlier month is ever picked |
| Sampler.PrevMonthExample | js/main.js:427-428 | one month back from January 2021 is December 2020 |
| Sampler.PrevMonthStart | js/main.js:427-428 | one month back, January rolling over to December of the previous year |
| Kpi.GlobalIndicator | js/main.js:88-112 | an empty history fails on `toString`; the change uses the corrected rendering (see Findings), so it never shows "-" directly before a digit, which the page as written can |
| Kpi.GlobalIndicatorProperties | js/main.js:104-112 | the shown count reads back as the newest count; the change is "Unknown" exactly without an earlier day, for a previous 0 or an unchanged count, and then the arrow is up; otherwise change and arrow come from `(previous - newest) * 100 / previous` rounded to two places; the arrow points down only on growth |
| Kpi.GrowthShownDown | js/main.js:104-112 | a rise from 1000 to 1100 shows "1.100", "- 10%" and the down arrow |

## Left out

- Fetching, JSON parsing and the asynchronous order in which the responses arrive are not modelled. The model starts from the parsed objects.
- The DOM is not modelled: element creation, styles, and the click handler and chart memo of `dataTableRowClicked`. Only the text and colours of a table row are modelled.
- The Chart.js calls are not modelled. The chart inputs (labels, data, date) are the model's outputs.
- `console.log` is left out.
- The vaccines KPI is left out. It only reads a value and formats it like the other tiles.
- Decimal.NumberString: Number's rendering switches to exponent notation below 1e-6, which the model does not write. The page always renders with two decimals, so a non-zero magnitude is at least 0.01.
- Floating point is not modelled. Percentages are exact rationals. `toFixed` for magnitudes of 1e21 and above, which switches to exponent notation, is not modelled, and neither is an infinite percentage (it cannot arise because the base is non-zero).
- Object key order is taken to be the order of the input sequences. Integer-like keys, which JavaScript orders first, are not distinguished.
- `toLocaleDateString` is replaced by equality of abstract dates. A history key's day is its date. Day validity per month is not checked.
- Ranker.TakeTop: the freshness date is an abstract ordered timestamp. The source compares a `Date` with the API's `updated` value. It then calls `toLocaleDateString` on whatever won, which the model does not follow.
- Ranker.SortDescending: requires every count of the sort key to be present. With an undefined count the comparator returns NaN, and the order the engine leaves is implementation-defined. Sort stability is not modelled: the contract is sortedness and a permutation.
- Ranker.GetTopConfirmedCountries: requires every record's confirmed and deaths counts to be present, for the same reason.
- Records.Normalize: the list holds copies of the records. The source pushes the very objects of the response and assigns `country` on them, so the response object is modified too. That aliasing is not modelled.
- Metrics.Percentage: `NaN` from a non-numeric count is folded into `Missing`. Counts are integers.
- A `null` count is not modelled. `Missing` stands for `undefined` and `NaN` only. JavaScript reads `null` as 0 in a subtraction and in the sort comparator, so `getIncreaseDecreasePercentage(5, null)` is `getPercentage(5, 5)`, not NaN; yet `null` is falsy for the table's `Unknown` tests.
- Classifier.StatusColorTable.PrintDataTable: each record's colours are written as one entry. The source writes an empty entry first and fills its two fields.
- Kpi.GlobalIndicator: uses the corrected percentage rendering (see Findings), so it does not show the "-0.00%" the page shows for a rise too small to survive the rounding. The data table uses the rendering as written. It returns an error on an empty history. The source adds the arrow class before it throws.

## Findings

| source | as written | input that shows it | evidently intended | confidence | as-written member | corrected member |
|---|---|---|---|---|---|---|
| js/main.js:197-209 | `getPercentageStr` tests `percentage < 0` on the `toFixed` string. For a small negative value that string is "-0.00", which compares equal to 0, so it is shown as "-0.00%" with a minus sign directly before a digit, and the KPI arrow points up | `getIncreaseDecreasePercentage(100000, 100001)` gives "-0.00"; the tile shows "-0.00%" | a negative zero shown without a sign, as "0.00%", like every other value that does not compare below zero | medium, not executed | Metrics.NegativeZeroShown | Metrics.PercentageStrFixed |

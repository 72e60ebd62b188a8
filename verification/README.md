# Earnings gap dashboards — Dafny model

A model of the computational core of two Dash dashboards about the income
gap between White and Black men. Both read a table of observations. Each row
has a survey year, a race code (1 White, 2 Black), a real income and its log,
`lrinc`. The table comes in two views: all rows, and the "workers" rows with
a positive log-income. A view is sliced by year and by race.

- **Level gap** (`apps/earningsLevelGap.py`). Hovering over either histogram
  gives a percentile: the weak rank of the hovered log-income in the hovered
  group. The percentile is clamped to [0.1, 99.9]. Both groups are then read
  at that same percentile with the linear quantile. The chart marks the two
  log-incomes and labels both with the percentile's ordinal.
- **Rank gap** (`apps/earningsRankGap.py`). The hovered log-income is always
  ranked among White incomes, whichever panel was hovered. The White income
  at that rank is looked up, and that income is ranked among Black incomes.
  The gap is the difference of the two rounded ranks, written with an
  explicit sign. Ranks are not clamped.
- **Helpers** (`helpers.py`): the workers filter and English ordinals.

Modules:

| module | file | contents |
|---|---|---|
| `Decimal` | `decimal.dfy` | `str(n)` and its parse, `f"{n:,}"` (PEP 378 grouping), `f"{n:+}"` |
| `Stats` | `stats.dfy` | the weak percentile-of-score, a sort, the linear ("type 7") quantile, Python's `round` (half to even), the clamp |
| `Helpers` | `helpers.dfy` | rows, boolean masks, views, group slices, `ordinal` |
| `Axis` | `axis.dfy` | hover points, the marker's normalised position, the dollar tick text |
| `LevelGap` | `level_gap.dfy` | `earningsGapHisto` and its hover callback |
| `RankGap` | `rank_gap.dfy` | `earningsRankGapHisto` and its hover callback |

A figure is modelled by the numbers and texts it shows: levels, marker
positions, annotation texts and tick text. The side text is modelled by the
numbers and ordinals it quotes, plus the rank-gap sentence in full. An update
the dashboard refuses (`PreventUpdate` when there is no hover data) is `None`.

Two consequences of the code worth spelling out:

- For White log-incomes 1..5, Black log-incomes 0..4 and a pointer at 2, the
  White rank is 40. numpy's linear percentile at 40 reads position
  0.4 * 4 = 1.6 and gives 2.6. The Black rank of 2.6 is 60 and the gap is +20
  (`RankGap.ReadRankExample`).
- Only the level-gap callback clamps, and it clamps the percentile at which
  both groups are read to [0.1, 99.9]. The ordinal is taken after rounding,
  so its labels still read "0th" at 0.1 and "100th" at 99.9
  (`LevelGap.ClampedLabelsReachEnds`). The rank-gap callback passes the raw
  ranks on.

## Model

| member | source | states |
|---|---|---|
| Helpers.FilterMembers | helpers.py:11 | a masked table keeps a row exactly when the row is in the table and passes the mask |
| Helpers.Filter | helpers.py:11 | a boolean mask `df[mask]` is never longer than the table; `FilterKeeps`, `FilterMembers`, `FilterCounts` and `FilterSubsequence` fix which rows it keeps, how often and in what order |
| Helpers.FilterKeeps | helpers.py:11 | every row a mask keeps is a row of the table that passes it |
| Helpers.FilterCounts | helpers.py:11 | a mask keeps every copy of a passing row and no copy of a failing one: each row occurs as often as in the table, or not at all |
| Helpers.FilterSubsequence | helpers.py:11 | masking keeps the surviving rows in their original order |
| Helpers.FilterAppend | helpers.py:11 | masking works row by row: the mask of a concatenation is the concatenation of the masks |
| Helpers.FilterFilter | apps/earningsLevelGap.py:198-200 | filtering by year and then by race is one filter by both conditions |
| Helpers.NonZero | helpers.py:11 | `dfAll[dfAll["lrinc"] > 0]`: at most as long as the table, and only positive-income rows of the table; `NonZeroRows` fixes it completely |
| Helpers.NonZeroRows | helpers.py:11 | the workers view holds exactly the rows with positive log-income, each as many times as in the table, in table order |
| Helpers.SelectView | apps/earningsLevelGap.py:197 | "all" selects the whole table; any other choice selects exactly the workers view, whose rows are the table's positive-income rows |
| Helpers.GroupRows | apps/earningsLevelGap.py:198-200 | the year mask then the race mask keeps only view rows of that year and race; `GroupRowsExact` shows it keeps all of them, in order, with their multiplicities |
| Helpers.GroupRowsExact | apps/earningsRankGap.py:228-230 | a group slice holds exactly the view's rows of that year and race, in order |
| Helpers.GroupSlice | apps/earningsRankGap.py:228-230 | the slice is the `lrinc` column of the group's rows: as long as the rows, and its i-th value is the i-th row's log-income |
| Helpers.OrdinalSuffix | helpers.py:15-18 | one of st, nd, rd, th; which one is fixed by `OrdinalTeens` and `OrdinalLastDigit` |
| Helpers.Ordinal | helpers.py:14-19 | the ordinal is `str(n)` followed by exactly the suffix `OrdinalSuffix(n)` picks (one of st, nd, rd, th) |
| Helpers.OrdinalRoundTrip | helpers.py:19 | removing the suffix and parsing gives `n` back |
| Helpers.OrdinalTeens | helpers.py:15-16 | numbers whose last two digits are 10 to 20 take "th" |
| Helpers.OrdinalLastDigit | helpers.py:17-18 | outside 10-20, a last digit of 1, 2 or 3 gives st, nd or rd, and any other gives th |
| Helpers.OrdinalSuffixLastTwoDigits | helpers.py:15-18 | the suffix depends only on `n % 100` |
| Helpers.OrdinalSmallExamples | helpers.py:14-19 | 0th, 1st, 2nd, 3rd |
| Helpers.OrdinalTeenExamples | helpers.py:15-16 | 11th, 12th, 13th |
| Helpers.OrdinalLargeExamples | helpers.py:17-18 | 21st, 100th, 102nd |
| Helpers.PercentileLabel | apps/earningsLevelGap.py:60 | a percentage rounds to a whole number in [0, 100], and the label is that number's ordinal |
| Decimal.NatString | helpers.py:19 | decimal digits with no leading zero; a single digit exactly below 10 |
| Decimal.IntString | helpers.py:19 | `str(n)` starts with '-' exactly for negative n, and the rest is the decimal digits of the magnitude |n|; `IntStringRoundTrip` shows it reads back as n |
| Decimal.IntStringRoundTrip | helpers.py:19 | `str(n)` parses back to `n` |
| Decimal.IntStringInjective | helpers.py:19 | different integers print differently |
| Decimal.GroupThousands | apps/earningsLevelGap.py:88 | `f"{n:,}"` for n >= 0 is non-empty; its digits and comma layout are fixed by `GroupThousandsSpec` |
| Decimal.GroupThousandsSpec | apps/earningsLevelGap.py:88 | removing the commas from `f"{n:,}"` gives `str(n)`; it starts with a digit and has a comma exactly before each full group of three digits counted from the right |
| Decimal.GroupThousandsTimes1000 | apps/earningsLevelGap.py:81-82 | multiplying by 1000 appends ",000" |
| Decimal.FormatThousands | apps/earningsLevelGap.py:88 | `f"{n:,}"` for any integer starts with '-' exactly when n < 0, and the rest has the PEP 378 comma layout |
| Decimal.FormatThousandsDigits | apps/earningsRankGap.py:102 | for every integer, removing the commas from `f"{n:,}"` gives `str(n)` |
| Decimal.SignedString | apps/earningsRankGap.py:246 | `f"{n:+}"` is '+' for n >= 0 or '-' otherwise, followed by exactly `str` of the magnitude (no leading zero), which reads back as n |
| Stats.CountLe | apps/earningsLevelGap.py:204 | the number of values at or below the score is at most the number of values |
| Stats.WeakRank | apps/earningsRankGap.py:233 | a weak percentile rank lies in [0, 100] |
| Stats.WeakRankCounts | apps/earningsLevelGap.py:204 | rank times the number of values (`|s|`) equals 100 times the number of values at or below the score, i.e. the mask mean times 100 |
| Stats.CountLeMonotone | apps/earningsRankGap.py:233 | a larger score never has fewer values at or below it |
| Stats.FractionMonotone | apps/earningsRankGap.py:233 | a larger count is a larger share of the same total |
| Stats.WeakRankMonotone | apps/earningsRankGap.py:233 | the weak rank is non-decreasing in the score |
| Stats.CountLeNone | apps/earningsRankGap.py:233 | no value is counted iff the score is below every value |
| Stats.CountLeAll | apps/earningsRankGap.py:233 | every value is counted iff no value exceeds the score |
| Stats.WeakRankZero | apps/earningsRankGap.py:233 | the rank is 0 iff the score is below every value |
| Stats.WeakRankHundred | apps/earningsRankGap.py:233 | the rank is 100 iff no value exceeds the score |
| Stats.CountLeAtLeast | apps/earningsRankGap.py:233 | k leading values at or below the score are all counted |
| Stats.Insert | apps/earningsLevelGap.py:20 | inserting into sorted values keeps them sorted and adds exactly that one element |
| Stats.Sort | apps/earningsLevelGap.py:20 | the quantile's ordering is sorted, of the same length, and a permutation of its input |
| Stats.CountLeInsert | apps/earningsLevelGap.py:20 | inserting a value raises the count at or below a score by one exactly when the value is at or below it |
| Stats.CountLeSort | apps/earningsRankGap.py:233 | sorting does not change how many values are at or below a score |
| Stats.SortEnds | apps/earningsLevelGap.py:20 | the first and last sorted values are values of the input, and they are its minimum and maximum |
| Stats.SortSorted | apps/earningsLevelGap.py:20 | already sorted values are left as they are |
| Stats.CountLeSplit | apps/earningsRankGap.py:233 | in sorted values the counted ones are exactly a prefix |
| Stats.Interpolate | apps/earningsLevelGap.py:20 | linear interpolation between the order statistics at floor(h) and floor(h)+1; `InterpolateBetween`, `InterpolateBounds` and `InterpolateMonotone` state its properties |
| Stats.InterpolateBetween | apps/earningsLevelGap.py:20 | the linear interpolation at a fractional position lies between its two neighbouring sorted values, and at the end it is the last one |
| Stats.InterpolateBounds | apps/earningsLevelGap.py:20 | an interpolated value lies between the smallest and the largest value |
| Stats.InterpolateMonotone | apps/earningsLevelGap.py:20 | a later position never gives a smaller value |
| Stats.Position | apps/earningsLevelGap.py:20 | the position `q * (n - 1)` of a quantile lies within the sorted values' indices |
| Stats.PositionMonotone | apps/earningsLevelGap.py:20 | the position is non-decreasing in `q` |
| Stats.QuantileSorted | apps/earningsLevelGap.py:20 | the linear quantile of already sorted values, interpolated at position q*(n-1); `QuantileAtFraction` and `QuantileOfSorted` state its properties |
| Stats.Quantile | apps/earningsLevelGap.py:20-21 | the linear quantile lies between the smallest and the largest value |
| Stats.Percentile | apps/earningsRankGap.py:235 | `np.percentile` lies between the smallest and the largest value |
| Stats.QuantileOfSorted | apps/earningsRankGap.py:19 | on sorted values the quantile is read off them directly |
| Stats.QuantileZero | apps/earningsRankGap.py:19 | the quantile at 0 is the smallest value |
| Stats.QuantileOne | apps/earningsRankGap.py:19 | the quantile at 1 is the largest value |
| Stats.QuantileBounds | apps/earningsLevelGap.py:20-21 | the quantiles at 0 and 1 are values of the data, its minimum and its maximum, and any quantile lies between them |
| Stats.QuantileMonotone | apps/earningsLevelGap.py:20-21 | the quantile is non-decreasing in `q` |
| Stats.PercentileMonotone | apps/earningsRankGap.py:235 | the percentile is non-decreasing in `p` |
| Stats.QuantileAtFraction | apps/earningsRankGap.py:235 | at `q = k / n`, the quantile of sorted values is bracketed by the k-th and (k+1)-th smallest; it is the minimum at k = 0 and the maximum at k = n |
| Stats.PercentileAtWeakRank | apps/earningsRankGap.py:233-235 | the percentile at the weak rank of `x` is bracketed by the sorted values around the count of values at or below `x` |
| Stats.PercentileOfWeakRank | apps/earningsRankGap.py:233-235 | the percentile at a weak rank is the sorted quantile at the counted share |
| Stats.WeakRankOfPercentileAtWeakRank | apps/earningsRankGap.py:233-235 | ranking back the income read at the weak rank of `x` never gives a smaller rank than that of `x` |
| Stats.WeakRankReaches | apps/earningsRankGap.py:233-235 | any value bracketed at the count of `x` has a weak rank at least that of `x` |
| Stats.CountLeReaches | apps/earningsRankGap.py:233-235 | a value at or above the last counted sorted value counts at least as many values |
| Stats.RoundHalfEven | apps/earningsRankGap.py:239 | the rounded value is within 0.5 of `x`, and on a tie it is even |
| Stats.RoundHalfEvenUnique | apps/earningsRankGap.py:239 | the nearest integer, with ties to even, is unique, so these two facts determine `round` |
| Stats.RoundHalfEvenPercent | apps/earningsLevelGap.py:60 | a percentage rounds into [0, 100] |
| Stats.RoundHalfEvenExamples | apps/earningsRankGap.py:239 | 40, 60 and 50 stay as they are; 12.5 gives 12, 13.5 gives 14, 0.1 gives 0 and 99.9 gives 100 |
| Stats.Clamp | apps/earningsLevelGap.py:210 | `max(0.1, min(99.9, pct))` lies in the range, leaves values inside it unchanged, and maps values below or above to the nearer end |
| Stats.ClampMonotone | apps/earningsLevelGap.py:210 | clamping keeps the order of percentiles |
| Axis.NormPos | apps/earningsLevelGap.py:51 | `(x - xrange[0]) / (xrange[1] - xrange[0])`; `NormPosEnds`, `NormPosInverse`, `NormPosMonotone` and `MarkerInRange` state its properties |
| Axis.NormPosEnds | apps/earningsLevelGap.py:51 | the ends of the x range sit at 0 and 1 |
| Axis.NormPosInverse | apps/earningsLevelGap.py:65 | scaling the position back onto the range gives the log-income |
| Axis.NormPosMonotone | apps/earningsRankGap.py:49 | positions keep the order of log-incomes, strictly and weakly |
| Axis.MarkerInRange | apps/earningsRankGap.py:49 | for an increasing range, a log-income inside it gets a marker position in [0, 1] |
| Axis.TickLabel | apps/earningsLevelGap.py:88 | `f"${x:,}"`; `TickLabelDigits` states its layout |
| Axis.TickLabelDigits | apps/earningsLevelGap.py:88 | a tick label is '$' followed by `str(x)` with commas inserted exactly before each full group of three digits from the right (after the minus sign of a negative amount) |
| Axis.TickText | apps/earningsRankGap.py:89-92 | one label per real-income tick, the i-th being `TickLabel` of the i-th tick |
| Axis.TickLabelExamples | apps/earningsLevelGap.py:81-82 | the ticks at 0 and 1,000,000 read "$0" and "$1,000,000" |
| LevelGap.GroupLevel | apps/earningsLevelGap.py:20-21 | a group's level is the linear percentile of that year's and race's log incomes at `pct`, and lies between the group's minimum and maximum |
| LevelGap.GroupLevelMonotone | apps/earningsLevelGap.py:20-21 | a higher percentile never gives a lower level |
| LevelGap.EarningsGapHisto | apps/earningsLevelGap.py:16-88 | each level is its group's percentile (`GroupLevel`) and each marker that level's position on the x range; both annotations carry the same ordinal, that of the rounded percentile (in [0, 100]); each level lies within its group's range; the markers keep the levels' order; a level inside the x range has a marker in [0, 1]; the tick text is `Axis.TickText()` |
| LevelGap.MarkerFacts | apps/earningsLevelGap.py:51-65 | markers keep the order of the levels and lie in [0, 1] for levels inside the range |
| LevelGap.EarningsGapHistoMonotone | apps/earningsLevelGap.py:20-65 | raising the percentile moves neither marker to the left |
| LevelGap.InitialChart | apps/earningsLevelGap.py:112-140 | the first chart is the workers view of 1940 at percentile 50 on [0, 14], and both annotations read "50th" |
| LevelGap.HoverPercentile | apps/earningsLevelGap.py:203-208 | the hovered percentile is in [0, 100], and it is 50 for a curve other than 0 or 1 |
| LevelGap.HoverPercentileCounts | apps/earningsLevelGap.py:204-206 | on curve 0 (White) or 1 (Black) the percentile is 100 times the share of that group's values at or below the hovered log-income |
| LevelGap.HoverPercentileMonotone | apps/earningsLevelGap.py:203-206 | moving right on the same panel never lowers the percentile |
| LevelGap.UpdateOnHoverAndSelect | apps/earningsLevelGap.py:190-240 | no update iff no hover data; the quoted percentile is in [0.1, 99.9]; the chart shows the side text's levels and ordinal |
| LevelGap.UpdateReadsOnePercentile | apps/earningsLevelGap.py:203-238 | the quoted percentile is the clamped hovered percentile; both groups are read at that single percentile; the chart is `earningsGapHisto` of the same view and year at it, on [0, 14] |
| LevelGap.UpdateKeepsInnerPercentile | apps/earningsLevelGap.py:210 | a hovered percentile already in [0.1, 99.9] is quoted unchanged |
| LevelGap.ClampedLabelsReachEnds | apps/earningsLevelGap.py:210-219 | the clamp bounds the percentile, not the label: at 0.1 the label reads "0th" and at 99.9 it reads "100th" |
| LevelGap.UpdateMonotone | apps/earningsLevelGap.py:203-238 | moving right along one panel moves neither level nor marker to the left |
| LevelGap.MedianOfFive | apps/earningsLevelGap.py:112 | at the default 50th percentile, five sorted values give the middle one |
| LevelGap.WhiteMedianExample | apps/earningsLevelGap.py:212 | White log-incomes 1..5 at the 50th percentile give 3 |
| LevelGap.BlackMedianExample | apps/earningsLevelGap.py:213 | Black log-incomes 0..4 at the 50th percentile give 2 |
| RankGap.ReadRank | apps/earningsRankGap.py:233-239 | the White rank is the weak percentile rank of x among White incomes, the income is the White percentile at that rank, the Black rank is the weak rank of that income among Black incomes, and the gap is the difference of the two rounded ranks; both ranks lie in [0, 100] and the gap in [-100, 100] |
| RankGap.ReadRankBrackets | apps/earningsRankGap.py:233-235 | the income read back is within the White range and bracketed by the White values around the count of values at or below the pointer, and its White rank is at least the hovered rank |
| RankGap.ReadRankExtremes | apps/earningsRankGap.py:233-235 | below every White value the rank is 0 and the income is the White minimum; at or above all of them the rank is 100 and the income is the White maximum |
| RankGap.ReadRankMonotone | apps/earningsRankGap.py:233-238 | the White rank, the income read back and the Black rank are all non-decreasing in the hovered log-income |
| RankGap.GapText | apps/earningsRankGap.py:246 | the gap sentence has its fixed opening and ending, and its sign character is '+' exactly for a gap >= 0 |
| RankGap.GapTextRoundTrip | apps/earningsRankGap.py:246 | the number in the sentence is `str` of the gap's magnitude, and with its sign it reads back as the gap |
| RankGap.EarningsRankGapHisto | apps/earningsRankGap.py:15-102 | the income is the White quantile at `whiteRank / 100`, the Black rank is the weak rank of that income among Black incomes, and the marker is the income's position on the x range; both annotations sit at the marker; the Black rank is in [0, 100]; the income is within the White range; the labels are the ordinals of the rounded ranks; the marker is in [0, 1] for an income inside the range; the tick text is `Axis.TickText()` |
| RankGap.InitialChart | apps/earningsRankGap.py:137-163 | the first chart is the workers view of 1940 at White rank 50 on [0, 14], and its White annotation reads "50th" |
| RankGap.ChartAtReading | apps/earningsRankGap.py:19-21 | the chart redrawn at the White rank read shows the same income and Black rank the callback computed (`np.quantile` at rank/100 and `np.percentile` at rank agree) |
| RankGap.Consistent | apps/earningsRankGap.py:241-257 | what the chart and the side text must share: income, Black rank, both ordinals, one annotation position, and the gap sentence of the reading |
| RankGap.Translate | apps/earningsRankGap.py:225-257 | the chart and the side text agree on income, Black rank and both ordinals; the two annotations share one position; the last sentence quotes the reading's gap |
| RankGap.UpdateOnHoverAndSelect | apps/earningsRankGap.py:221-259 | no update iff no hover data; otherwise chart and side text agree as above |
| RankGap.UpdateReadsWhiteRank | apps/earningsRankGap.py:227-257 | the reading starts from the hovered log-income in the selected view and year, and the chart is `earningsRankGapHisto` at the White rank read, on [0, 14] |
| RankGap.UpdateIgnoresCurve | apps/earningsRankGap.py:225 | only the hovered log-income matters, not the panel hovered |
| RankGap.ReadRankExample | apps/earningsRankGap.py:233-239 | White 1..5, Black 0..4, pointer 2: White rank 40, income 2.6, Black rank 60, gap +20 |
| RankGap.FortiethOfFive | apps/earningsRankGap.py:235 | at rank 40, five sorted values give a point 60% of the way from the second to the third |
| RankGap.GapTextExample | apps/earningsRankGap.py:246 | a gap of 20 reads "That's a +20 percentile point gap." |

## Left out

- `lrinc = ln(rinc + 1)` (helpers.py:10) and every `np.exp`: logarithms and exponentials are not modelled. A row carries its log-income as given, and the model works on log-incomes only.
- Dollar amounts in annotations and side texts (`f"${income:,.0f}"`): they format the exponential of a float, which is not modelled. Texts are modelled by the ordinals, the gap sentence and the numbers they quote.
- Floating point: all values are reals. Rounding effects in `whiteRank / 100` and in the interpolation are not modelled.
- Empty groups: when a year has no White or no Black rows, pandas and numpy return NaN or raise. Every operation that reads a group requires both groups to be non-empty (`Helpers.HasBothGroups`, `|s| > 0`).
- Quantiles outside [0, 1] (numpy raises ValueError): every caller passes a rank or percentage in [0, 100], which is required.
- A degenerate x range (`xrange[0] == xrange[1]`, division by zero): `Axis.NormPos` requires distinct ends. The dashboards always pass [0, 14].
- The log positions of the ticks (`np.log(x)` for the tick values): only the tick text is modelled.
- Histogram binning, colours, layout, margins, `shapes.append` and the Plotly figure object: presentation only.
- Dash plumbing: the app, layout, callbacks, basePath assertions, `multi.py` routing, the browser script and the CSV export script are not part of this model.
- Reading the CSV (`DATA_DIR`, `pd.read_csv`): I/O. The table is a parameter.

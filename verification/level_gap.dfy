/** The level-gap dashboard: hovering over either income histogram picks a
    percentile, and both groups are read at that same percentile. The chart
    marks the two log-incomes and labels them with the percentile's ordinal. */
module LevelGap {
  import Helpers
  import Stats
  import Axis

  /** The chart shown before any hover: percentile 50 in 1940, workers view. */
  const DefaultPct: real := 50.0
  const DefaultYear: int := 1940

  /** A hovered percentile is kept away from exactly 0 and exactly 100. */
  const MinPct: real := 0.1
  const MaxPct: real := 99.9

  /** The linear quantile of one group's log-incomes at `pct / 100`
      (`Series.quantile(pct / 100)`, which is `np.percentile(s, pct)`). */
  function GroupLevel(view: seq<Helpers.Observation>, year: int, race: int, pct: real): (level: real)
    requires |Helpers.GroupSlice(view, year, race)| > 0 && 0.0 <= pct <= 100.0
    ensures level == Stats.Percentile(Helpers.GroupSlice(view, year, race), pct)
    ensures var s := Helpers.GroupSlice(view, year, race);
      Stats.Quantile(s, 0.0) <= level <= Stats.Quantile(s, 1.0)
  {
    var s := Helpers.GroupSlice(view, year, race);
    Stats.QuantileBounds(s, pct / 100.0);
    Stats.Percentile(s, pct)
  }

  /** Raising the percentile never lowers a group's level. */
  lemma GroupLevelMonotone(view: seq<Helpers.Observation>, year: int, race: int, p1: real, p2: real)
    requires |Helpers.GroupSlice(view, year, race)| > 0 && 0.0 <= p1 <= p2 <= 100.0
    ensures GroupLevel(view, year, race, p1) <= GroupLevel(view, year, race, p2)
  {
    Stats.PercentileMonotone(Helpers.GroupSlice(view, year, race), p1, p2);
  }

  // -------------------------------------------------------------------- chart

  /** What `earningsGapHisto` draws besides the histograms: each group's level
      at the percentile, the position of its marker line on the axis, the
      ordinal text of its annotation, and the axis' tick text. */
  datatype GapChart = GapChart(
    whiteLevel: real, blackLevel: real,
    whiteMarker: real, blackMarker: real,
    whiteLabel: string, blackLabel: string,
    tickText: seq<string>)

  /** `earningsGapHisto(df, y, xrange, ..., percentile)` for a non-degenerate range. */
  function EarningsGapHisto(df: seq<Helpers.Observation>, y: int, xlo: real, xhi: real, percentile: real): (c: GapChart)
    requires Helpers.HasBothGroups(df, y) && 0.0 <= percentile <= 100.0 && xlo != xhi
    ensures c.whiteLevel == GroupLevel(df, y, Helpers.White, percentile)
    ensures c.blackLevel == GroupLevel(df, y, Helpers.Black, percentile)
    ensures c.whiteMarker == Axis.NormPos(c.whiteLevel, xlo, xhi)
    ensures c.blackMarker == Axis.NormPos(c.blackLevel, xlo, xhi)
    ensures c.whiteLabel == c.blackLabel
    ensures var n := Stats.RoundHalfEven(percentile);
      0 <= n <= 100 && c.whiteLabel == Helpers.Ordinal(n)
    ensures Stats.Quantile(Helpers.GroupSlice(df, y, Helpers.White), 0.0) <= c.whiteLevel
              <= Stats.Quantile(Helpers.GroupSlice(df, y, Helpers.White), 1.0)
    ensures Stats.Quantile(Helpers.GroupSlice(df, y, Helpers.Black), 0.0) <= c.blackLevel
              <= Stats.Quantile(Helpers.GroupSlice(df, y, Helpers.Black), 1.0)
    ensures xlo < xhi ==> (c.whiteLevel <= c.blackLevel <==> c.whiteMarker <= c.blackMarker)
    ensures xlo < xhi && xlo <= c.whiteLevel <= xhi ==> 0.0 <= c.whiteMarker <= 1.0
    ensures xlo < xhi && xlo <= c.blackLevel <= xhi ==> 0.0 <= c.blackMarker <= 1.0
    ensures c.tickText == Axis.TickText()
  {
    var white := GroupLevel(df, y, Helpers.White, percentile);
    var black := GroupLevel(df, y, Helpers.Black, percentile);
    var text := Helpers.PercentileLabel(percentile);
    MarkerFacts(white, black, xlo, xhi);
    GapChart(white, black, Axis.NormPos(white, xlo, xhi), Axis.NormPos(black, xlo, xhi),
             text, text, Axis.TickText())
  }

  /** The marker facts used by the chart: order and range of the positions. */
  lemma MarkerFacts(white: real, black: real, lo: real, hi: real)
    requires lo != hi
    ensures lo < hi ==> (white <= black <==> Axis.NormPos(white, lo, hi) <= Axis.NormPos(black, lo, hi))
    ensures lo < hi && lo <= white <= hi ==> 0.0 <= Axis.NormPos(white, lo, hi) <= 1.0
    ensures lo < hi && lo <= black <= hi ==> 0.0 <= Axis.NormPos(black, lo, hi) <= 1.0
  {
    if lo < hi {
      Axis.NormPosMonotone(white, black, lo, hi);
    }
    Axis.MarkerInRange(white, lo, hi);
    Axis.MarkerInRange(black, lo, hi);
  }

  /** Raising the percentile moves neither marker to the left. */
  lemma EarningsGapHistoMonotone(df: seq<Helpers.Observation>, y: int, xlo: real, xhi: real, p1: real, p2: real)
    requires Helpers.HasBothGroups(df, y) && 0.0 <= p1 <= p2 <= 100.0 && xlo < xhi
    ensures EarningsGapHisto(df, y, xlo, xhi, p1).whiteMarker <= EarningsGapHisto(df, y, xlo, xhi, p2).whiteMarker
    ensures EarningsGapHisto(df, y, xlo, xhi, p1).blackMarker <= EarningsGapHisto(df, y, xlo, xhi, p2).blackMarker
  {
    var w1, w2 := GroupLevel(df, y, Helpers.White, p1), GroupLevel(df, y, Helpers.White, p2);
    var b1, b2 := GroupLevel(df, y, Helpers.Black, p1), GroupLevel(df, y, Helpers.Black, p2);
    GroupLevelMonotone(df, y, Helpers.White, p1, p2);
    GroupLevelMonotone(df, y, Helpers.Black, p1, p2);
    Axis.NormPosMonotone(w1, w2, xlo, xhi);
    Axis.NormPosMonotone(b1, b2, xlo, xhi);
  }

  /** The chart of the page as first shown: the workers view of 1940 at the 50th
      percentile, on the axis range [0, 14]. */
  function InitialChart(all: seq<Helpers.Observation>): (c: GapChart)
    requires Helpers.HasBothGroups(Helpers.NonZero(all), DefaultYear)
    ensures c.whiteLabel == "50th" && c.blackLabel == "50th"
    ensures c == EarningsGapHisto(Helpers.NonZero(all), DefaultYear, Axis.XLow, Axis.XHigh, DefaultPct)
  {
    Stats.RoundHalfEvenExamples();
    assert Helpers.Ordinal(50) == "50th";
    EarningsGapHisto(Helpers.NonZero(all), DefaultYear, Axis.XLow, Axis.XHigh, DefaultPct)
  }

  // ---------------------------------------------------------------- callback

  /** The percentile of the hovered point in the hovered group: the weak rank of
      `x` among the White values for curve 0, among the Black ones for curve 1,
      and 50 for any other curve. */
  function HoverPercentile(white: seq<real>, black: seq<real>, hover: Axis.Hover): (pct: real)
    requires |white| > 0 && |black| > 0
    ensures 0.0 <= pct <= 100.0
    ensures hover.curveNumber !in {0, 1} ==> pct == 50.0
  {
    if hover.curveNumber == 0 then Stats.WeakRank(white, hover.x)
    else if hover.curveNumber == 1 then Stats.WeakRank(black, hover.x)
    else 50.0
  }

  /** On either panel the percentile is 100 times the share of that panel's
      values at or below the hovered log-income. */
  lemma HoverPercentileCounts(white: seq<real>, black: seq<real>, hover: Axis.Hover)
    requires |white| > 0 && |black| > 0
    ensures hover.curveNumber == 0 ==>
      HoverPercentile(white, black, hover) == 100.0 * (Stats.CountLe(white, hover.x) as real / |white| as real)
    ensures hover.curveNumber == 1 ==>
      HoverPercentile(white, black, hover) == 100.0 * (Stats.CountLe(black, hover.x) as real / |black| as real)
  {
  }

  /** Moving the pointer to the right on the same panel never lowers the percentile. */
  lemma HoverPercentileMonotone(white: seq<real>, black: seq<real>, h1: Axis.Hover, h2: Axis.Hover)
    requires |white| > 0 && |black| > 0
    requires h1.curveNumber == h2.curveNumber && h1.x <= h2.x
    ensures HoverPercentile(white, black, h1) <= HoverPercentile(white, black, h2)
  {
    Stats.WeakRankMonotone(white, h1.x, h2.x);
    Stats.WeakRankMonotone(black, h1.x, h2.x);
  }

  /** The side text's numbers: the percentile it quotes (as an ordinal, for both
      groups) and the log-income each group earns there. The dollar amounts are
      their exponentials. */
  datatype Narrative = Narrative(pct: real, percentileLabel: string, whiteLevel: real, blackLevel: real)

  datatype LevelUpdate = LevelUpdate(chart: GapChart, narrative: Narrative)

  /** `update_on_hover_and_select`: no hover data means no update (`None`);
      otherwise the hovered percentile, clamped to [0.1, 99.9], is read in both
      groups of the selected view and year, and the chart is redrawn there with
      the same numbers as the side text. */
  function UpdateOnHoverAndSelect(all: seq<Helpers.Observation>, hoverData: Helpers.Option<Axis.Hover>,
                                  selectedYear: int, selectedDf: string): (r: Helpers.Option<LevelUpdate>)
    requires hoverData.Some? ==> Helpers.HasBothGroups(Helpers.SelectView(selectedDf, all), selectedYear)
    ensures r.None? <==> hoverData.None?
    ensures r.Some? ==> MinPct <= r.value.narrative.pct <= MaxPct
    ensures r.Some? ==>
      && r.value.chart.whiteLevel == r.value.narrative.whiteLevel
      && r.value.chart.blackLevel == r.value.narrative.blackLevel
      && r.value.chart.whiteLabel == r.value.narrative.percentileLabel
      && r.value.chart.blackLabel == r.value.narrative.percentileLabel
  {
    match hoverData
    case None => Helpers.None
    case Some(hover) =>
      var df := Helpers.SelectView(selectedDf, all);
      var white := Helpers.GroupSlice(df, selectedYear, Helpers.White);
      var black := Helpers.GroupSlice(df, selectedYear, Helpers.Black);
      var pct := Stats.Clamp(MinPct, MaxPct, HoverPercentile(white, black, hover));
      var whiteP := GroupLevel(df, selectedYear, Helpers.White, pct);
      var blackP := GroupLevel(df, selectedYear, Helpers.Black, pct);
      var text := Narrative(pct, Helpers.PercentileLabel(pct), whiteP, blackP);
      var fig := EarningsGapHisto(df, selectedYear, Axis.XLow, Axis.XHigh, pct);
      Helpers.Some(LevelUpdate(fig, text))
  }

  /** The quoted percentile is the clamped percentile of the hovered point, both
      groups are read at that one percentile, and the chart is the one
      `earningsGapHisto` draws for the same view, year and percentile. */
  lemma UpdateReadsOnePercentile(all: seq<Helpers.Observation>, hover: Axis.Hover,
                                 selectedYear: int, selectedDf: string)
    requires Helpers.HasBothGroups(Helpers.SelectView(selectedDf, all), selectedYear)
    ensures var view := Helpers.SelectView(selectedDf, all);
      var u := UpdateOnHoverAndSelect(all, Helpers.Some(hover), selectedYear, selectedDf).value;
      var pct := u.narrative.pct;
      && pct == Stats.Clamp(MinPct, MaxPct,
                            HoverPercentile(Helpers.GroupSlice(view, selectedYear, Helpers.White),
                                            Helpers.GroupSlice(view, selectedYear, Helpers.Black), hover))
      && u.narrative.whiteLevel == GroupLevel(view, selectedYear, Helpers.White, pct)
      && u.narrative.blackLevel == GroupLevel(view, selectedYear, Helpers.Black, pct)
      && u.chart == EarningsGapHisto(view, selectedYear, Axis.XLow, Axis.XHigh, pct)
  {
  }

  /** A hovered percentile already inside [0.1, 99.9] is quoted unchanged. */
  lemma UpdateKeepsInnerPercentile(all: seq<Helpers.Observation>, hover: Axis.Hover,
                                   selectedYear: int, selectedDf: string)
    requires Helpers.HasBothGroups(Helpers.SelectView(selectedDf, all), selectedYear)
    requires var view := Helpers.SelectView(selectedDf, all);
      MinPct <= HoverPercentile(Helpers.GroupSlice(view, selectedYear, Helpers.White),
                                Helpers.GroupSlice(view, selectedYear, Helpers.Black), hover) <= MaxPct
    ensures var view := Helpers.SelectView(selectedDf, all);
      UpdateOnHoverAndSelect(all, Helpers.Some(hover), selectedYear, selectedDf).value.narrative.pct
        == HoverPercentile(Helpers.GroupSlice(view, selectedYear, Helpers.White),
                           Helpers.GroupSlice(view, selectedYear, Helpers.Black), hover)
  {
  }

  /** The clamp bounds the percentile at which the levels are read, not the
      label: the ordinal is taken after rounding, so the ends of the clamped
      range still read "0th" and "100th", and any quoted label lies between. */
  lemma ClampedLabelsReachEnds(pct: real)
    requires MinPct <= pct <= MaxPct
    ensures Helpers.PercentileLabel(MinPct) == "0th"
    ensures Helpers.PercentileLabel(MaxPct) == "100th"
    ensures 0 <= Stats.RoundHalfEven(pct) <= 100
  {
    Stats.RoundHalfEvenExamples();
    Helpers.OrdinalSmallExamples();
    Helpers.OrdinalLargeExamples();
    Stats.RoundHalfEvenPercent(pct);
  }

  /** Moving the pointer to the right along one panel moves neither group's
      level, nor its marker, to the left. */
  lemma UpdateMonotone(all: seq<Helpers.Observation>, h1: Axis.Hover, h2: Axis.Hover,
                       selectedYear: int, selectedDf: string)
    requires Helpers.HasBothGroups(Helpers.SelectView(selectedDf, all), selectedYear)
    requires h1.curveNumber == h2.curveNumber && h1.x <= h2.x
    ensures var u1 := UpdateOnHoverAndSelect(all, Helpers.Some(h1), selectedYear, selectedDf).value;
      var u2 := UpdateOnHoverAndSelect(all, Helpers.Some(h2), selectedYear, selectedDf).value;
      && u1.narrative.whiteLevel <= u2.narrative.whiteLevel
      && u1.narrative.blackLevel <= u2.narrative.blackLevel
      && u1.chart.whiteMarker <= u2.chart.whiteMarker
      && u1.chart.blackMarker <= u2.chart.blackMarker
  {
    var view := Helpers.SelectView(selectedDf, all);
    var white := Helpers.GroupSlice(view, selectedYear, Helpers.White);
    var black := Helpers.GroupSlice(view, selectedYear, Helpers.Black);
    var p1 := Stats.Clamp(MinPct, MaxPct, HoverPercentile(white, black, h1));
    var p2 := Stats.Clamp(MinPct, MaxPct, HoverPercentile(white, black, h2));
    HoverPercentileMonotone(white, black, h1, h2);
    Stats.ClampMonotone(MinPct, MaxPct, HoverPercentile(white, black, h1), HoverPercentile(white, black, h2));
    GroupLevelMonotone(view, selectedYear, Helpers.White, p1, p2);
    GroupLevelMonotone(view, selectedYear, Helpers.Black, p1, p2);
    EarningsGapHistoMonotone(view, selectedYear, Axis.XLow, Axis.XHigh, p1, p2);
  }

  /** The median of five sorted values is the middle one: the position is
      0.5 * 4 = 2, a whole number, so nothing is interpolated. */
  lemma MedianOfFive(v: seq<real>)
    requires |v| == 5 && Stats.Sorted(v)
    ensures Stats.Percentile(v, DefaultPct) == v[2]
  {
    assert Stats.QuantileSorted(v, 0.5) == v[2] by {
      assert Stats.Position(5, 0.5) == 2.0;
      assert (2.0).Floor == 2;
    }
    assert DefaultPct / 100.0 == 0.5;
    Stats.QuantileOfSorted(v, 0.5);
  }

  /** White log-incomes 1 to 5 at the 50th percentile give 3. */
  lemma WhiteMedianExample()
    ensures Stats.Percentile([1.0, 2.0, 3.0, 4.0, 5.0], DefaultPct) == 3.0
  {
    Stats.SortedFive(1.0, 2.0, 3.0, 4.0, 5.0);
    MedianOfFive([1.0, 2.0, 3.0, 4.0, 5.0]);
  }

  /** Black log-incomes 0 to 4 at the 50th percentile give 2. */
  lemma BlackMedianExample()
    ensures Stats.Percentile([0.0, 1.0, 2.0, 3.0, 4.0], DefaultPct) == 2.0
  {
    Stats.SortedFive(0.0, 1.0, 2.0, 3.0, 4.0);
    MedianOfFive([0.0, 1.0, 2.0, 3.0, 4.0]);
  }
}

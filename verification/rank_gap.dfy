/** The rank-gap dashboard: the hovered log-income is ranked among White
    incomes, the White income at that rank is looked up, and that income is
    ranked among Black incomes. The gap is the difference of the two rounded
    ranks. Whichever panel is hovered, only the White group is read first, and
    no rank is clamped. */
module RankGap {
  import Decimal
  import Helpers
  import Stats
  import Axis

  /** The chart shown before any hover: White rank 50 in 1940, workers view. */
  const DefaultWhiteRank: real := 50.0
  const DefaultYear: int := 1940

  /** The numbers of one translation: the White rank of the hovered income, the
      White log-income at that rank, the Black rank of that log-income, and the
      gap between the two rounded ranks. */
  datatype RankReading = RankReading(whiteRank: real, logIncome: real, blackRank: real, rankGap: int)

  /** The numbers `update_on_hover_and_select` computes from the hovered
      log-income `x`, given the White and Black log-incomes of the selected
      view and year: the White weak rank of `x`, the White percentile at that
      rank, its Black weak rank, and the difference of the rounded ranks. */
  function ReadRank(white: seq<real>, black: seq<real>, x: real): (r: RankReading)
    requires |white| > 0 && |black| > 0
    ensures r.whiteRank == Stats.WeakRank(white, x)
    ensures r.logIncome == Stats.Percentile(white, r.whiteRank)
    ensures r.blackRank == Stats.WeakRank(black, r.logIncome)
    ensures r.rankGap == Stats.RoundHalfEven(r.blackRank) - Stats.RoundHalfEven(r.whiteRank)
    ensures 0.0 <= r.whiteRank <= 100.0 && 0.0 <= r.blackRank <= 100.0
    ensures -100 <= r.rankGap <= 100
  {
    var whiteRank := Stats.WeakRank(white, x);
    var logIncome := Stats.Percentile(white, whiteRank);
    var blackRank := Stats.WeakRank(black, logIncome);
    Stats.RoundHalfEvenPercent(whiteRank);
    Stats.RoundHalfEvenPercent(blackRank);
    RankReading(whiteRank, logIncome, blackRank,
                Stats.RoundHalfEven(blackRank) - Stats.RoundHalfEven(whiteRank))
  }

  /** The income read back lies between the White minimum and maximum; with `k`
      White values at or below the hovered `x` it is bracketed by the `k`-th and
      `(k+1)`-th smallest of them (the minimum when `k = 0`, the maximum when
      all are); and its White rank is at least the hovered White rank. */
  lemma ReadRankBrackets(white: seq<real>, black: seq<real>, x: real)
    requires |white| > 0 && |black| > 0
    ensures var r := ReadRank(white, black, x);
      && Stats.Quantile(white, 0.0) <= r.logIncome <= Stats.Quantile(white, 1.0)
      && Stats.Bracketed(Stats.Sort(white), Stats.CountLe(white, x), r.logIncome)
      && r.whiteRank <= Stats.WeakRank(white, r.logIncome)
  {
    var r := ReadRank(white, black, x);
    var w := Stats.WeakRank(white, x);
    assert r.whiteRank == w && r.logIncome == Stats.Percentile(white, w);
    Stats.QuantileZero(white);
    Stats.QuantileOne(white);
    Stats.PercentileAtWeakRank(white, x);
    Stats.WeakRankOfPercentileAtWeakRank(white, x);
  }

  /** Below every White value the White rank is 0 and the income read back is
      the White minimum; at or above every White value the rank is 100 and the
      income is the White maximum. */
  lemma ReadRankExtremes(white: seq<real>, black: seq<real>, x: real)
    requires |white| > 0 && |black| > 0
    ensures (forall i :: 0 <= i < |white| ==> x < white[i]) ==>
      ReadRank(white, black, x).whiteRank == 0.0 && ReadRank(white, black, x).logIncome == Stats.Quantile(white, 0.0)
    ensures (forall i :: 0 <= i < |white| ==> white[i] <= x) ==>
      ReadRank(white, black, x).whiteRank == 100.0 && ReadRank(white, black, x).logIncome == Stats.Quantile(white, 1.0)
  {
    Stats.WeakRankZero(white, x);
    Stats.WeakRankHundred(white, x);
    assert 0.0 / 100.0 == 0.0 && 100.0 / 100.0 == 1.0;
  }

  /** Moving the pointer to the right lowers none of the three quantities: the White rank,
      the income read back and the Black rank are all non-decreasing in the hovered
      log-income. */
  lemma ReadRankMonotone(white: seq<real>, black: seq<real>, x: real, y: real)
    requires |white| > 0 && |black| > 0 && x <= y
    ensures ReadRank(white, black, x).whiteRank <= ReadRank(white, black, y).whiteRank
    ensures ReadRank(white, black, x).logIncome <= ReadRank(white, black, y).logIncome
    ensures ReadRank(white, black, x).blackRank <= ReadRank(white, black, y).blackRank
  {
    var rx, ry := ReadRank(white, black, x), ReadRank(white, black, y);
    Stats.WeakRankMonotone(white, x, y);
    Stats.PercentileMonotone(white, rx.whiteRank, ry.whiteRank);
    Stats.WeakRankMonotone(black, rx.logIncome, ry.logIncome);
  }

  /** `f"That's a {rankGap:+} percentile point gap."` */
  function GapText(rankGap: int): (text: string)
    ensures |text| >= 33
    ensures text[..9] == "That's a " && text[|text| - 22..] == " percentile point gap."
    ensures text[9] == (if rankGap >= 0 then '+' else '-')
  {
    var signed := Decimal.SignedString(rankGap);
    var text := "That's a " + signed + " percentile point gap.";
    assert text[..9] == "That's a ";
    assert text[9] == signed[0];
    assert text[|text| - 22..] == " percentile point gap.";
    text
  }

  /** The number in the gap text reads back as the gap. */
  lemma GapTextRoundTrip(rankGap: int)
    ensures var text := GapText(rankGap);
      var digits := text[10..|text| - 22];
      && Decimal.AllDigits(digits)
      && digits == Decimal.NatString(if rankGap >= 0 then rankGap else -rankGap)
      && (if text[9] == '+' then Decimal.ParseNat(digits) as int else -(Decimal.ParseNat(digits) as int)) == rankGap
  {
    var signed := Decimal.SignedString(rankGap);
    var text := GapText(rankGap);
    assert text == "That's a " + signed + " percentile point gap.";
    assert text[10..|text| - 22] == signed[1..];
  }

  // -------------------------------------------------------------------- chart

  /** What `earningsRankGapHisto` draws besides the histograms: the White
      log-income at the rank, its Black rank, the marker line's position, the
      positions of the two annotations, their ordinal texts and the tick text. */
  datatype RankChart = RankChart(
    logIncome: real, blackRank: real,
    marker: real, whiteAnnotationX: real, blackAnnotationX: real,
    whiteLabel: string, blackLabel: string,
    tickText: seq<string>)

  /** `earningsRankGapHisto(df, y, xrange, ..., whiteRank)` for a non-degenerate range. */
  function EarningsRankGapHisto(df: seq<Helpers.Observation>, y: int, xlo: real, xhi: real,
                                whiteRank: real): (c: RankChart)
    requires Helpers.HasBothGroups(df, y) && 0.0 <= whiteRank <= 100.0 && xlo != xhi
    ensures var white := Helpers.GroupSlice(df, y, Helpers.White);
      c.logIncome == Stats.Quantile(white, whiteRank / 100.0)
    ensures c.blackRank == Stats.WeakRank(Helpers.GroupSlice(df, y, Helpers.Black), c.logIncome)
    ensures c.marker == Axis.NormPos(c.logIncome, xlo, xhi)
    ensures c.whiteAnnotationX == c.marker && c.blackAnnotationX == c.marker
    ensures 0.0 <= c.blackRank <= 100.0
    ensures var white := Helpers.GroupSlice(df, y, Helpers.White);
      Stats.Quantile(white, 0.0) <= c.logIncome <= Stats.Quantile(white, 1.0)
    ensures c.whiteLabel == Helpers.PercentileLabel(whiteRank) && c.blackLabel == Helpers.PercentileLabel(c.blackRank)
    ensures xlo < xhi && xlo <= c.logIncome <= xhi ==> 0.0 <= c.marker <= 1.0
    ensures c.tickText == Axis.TickText()
  {
    var white := Helpers.GroupSlice(df, y, Helpers.White);
    var black := Helpers.GroupSlice(df, y, Helpers.Black);
    Stats.QuantileMonotone(white, 0.0, whiteRank / 100.0);
    Stats.QuantileMonotone(white, whiteRank / 100.0, 1.0);
    var logIncome := Stats.Quantile(white, whiteRank / 100.0);
    var blackRank := Stats.WeakRank(black, logIncome);
    var pos := Axis.NormPos(logIncome, xlo, xhi);
    Axis.MarkerInRange(logIncome, xlo, xhi);
    RankChart(logIncome, blackRank, pos, pos, pos,
              Helpers.PercentileLabel(whiteRank), Helpers.PercentileLabel(blackRank), Axis.TickText())
  }

  /** The chart of the page as first shown: the workers view of 1940 at White
      rank 50, on the axis range [0, 14]; its White annotation reads "50th". */
  function InitialChart(all: seq<Helpers.Observation>): (c: RankChart)
    requires Helpers.HasBothGroups(Helpers.NonZero(all), DefaultYear)
    ensures c.whiteLabel == "50th"
    ensures c == EarningsRankGapHisto(Helpers.NonZero(all), DefaultYear, Axis.XLow, Axis.XHigh, DefaultWhiteRank)
  {
    Stats.RoundHalfEvenExamples();
    assert Helpers.Ordinal(50) == "50th";
    EarningsRankGapHisto(Helpers.NonZero(all), DefaultYear, Axis.XLow, Axis.XHigh, DefaultWhiteRank)
  }

  // ---------------------------------------------------------------- callback

  /** The side text's parts: the numbers it is built from, the two ordinals it
      quotes and its last sentence. The dollar amount is the exponential of
      the log-income. */
  datatype RankNarrative = RankNarrative(reading: RankReading, blackLabel: string, whiteLabel: string, gapText: string)

  datatype RankUpdate = RankUpdate(chart: RankChart, narrative: RankNarrative)

  /** The chart and the side text tell the same story: the same income, Black
      rank and ordinals, both annotations at the same place, and a gap sentence
      quoting the gap of the reading. */
  predicate Consistent(u: RankUpdate) {
    && u.chart.logIncome == u.narrative.reading.logIncome
    && u.chart.blackRank == u.narrative.reading.blackRank
    && u.chart.whiteLabel == u.narrative.whiteLabel && u.chart.blackLabel == u.narrative.blackLabel
    && u.chart.whiteAnnotationX == u.chart.blackAnnotationX
    && u.narrative.gapText == GapText(u.narrative.reading.rankGap)
  }

  /** The update for a hovered log-income `x` in a view and year that hold
      both groups: the reading of `x`, the side text quoting its ordinals and
      gap, and the chart redrawn at the White rank read, which shows the same
      income, Black rank and ordinals as the side text. */
  function Translate(df: seq<Helpers.Observation>, year: int, x: real): (u: RankUpdate)
    requires Helpers.HasBothGroups(df, year)
    ensures Consistent(u)
  {
    var white := Helpers.GroupSlice(df, year, Helpers.White);
    var black := Helpers.GroupSlice(df, year, Helpers.Black);
    var reading := ReadRank(white, black, x);
    var text := RankNarrative(reading, Helpers.PercentileLabel(reading.blackRank),
                              Helpers.PercentileLabel(reading.whiteRank), GapText(reading.rankGap));
    var fig := EarningsRankGapHisto(df, year, Axis.XLow, Axis.XHigh, reading.whiteRank);
    ChartAtReading(df, year, x);
    RankUpdate(fig, text)
  }

  /** Redrawn at the White rank read, the chart shows the income and the Black
      rank read. */
  lemma ChartAtReading(df: seq<Helpers.Observation>, year: int, x: real)
    requires Helpers.HasBothGroups(df, year)
    ensures var reading := ReadRank(Helpers.GroupSlice(df, year, Helpers.White),
                                    Helpers.GroupSlice(df, year, Helpers.Black), x);
      var fig := EarningsRankGapHisto(df, year, Axis.XLow, Axis.XHigh, reading.whiteRank);
      fig.logIncome == reading.logIncome && fig.blackRank == reading.blackRank
  {
    var white := Helpers.GroupSlice(df, year, Helpers.White);
    var reading := ReadRank(white, Helpers.GroupSlice(df, year, Helpers.Black), x);
    var w := reading.whiteRank;
    Stats.PercentileAsQuantile(white, w);
    assert reading.logIncome == Stats.Quantile(white, w / 100.0);
    assert EarningsRankGapHisto(df, year, Axis.XLow, Axis.XHigh, w).logIncome == Stats.Quantile(white, w / 100.0);
  }

  /** `update_on_hover_and_select`: no hover data means no update (`None`);
      otherwise the hovered log-income is translated in the selected view and
      year, whichever panel it was hovered in. */
  function UpdateOnHoverAndSelect(all: seq<Helpers.Observation>, hoverData: Helpers.Option<Axis.Hover>,
                                  selectedYear: int, selectedDf: string): (r: Helpers.Option<RankUpdate>)
    requires hoverData.Some? ==> Helpers.HasBothGroups(Helpers.SelectView(selectedDf, all), selectedYear)
    ensures r.None? <==> hoverData.None?
    ensures r.Some? ==> Consistent(r.value)
  {
    match hoverData
    case None => Helpers.None
    case Some(hover) => Helpers.Some(Translate(Helpers.SelectView(selectedDf, all), selectedYear, hover.x))
  }

  /** The translation starts from the White rank of the hovered log-income in
      the selected view and year, and the chart is the one
      `earningsRankGapHisto` draws at that rank. */
  lemma UpdateReadsWhiteRank(all: seq<Helpers.Observation>, hover: Axis.Hover, selectedYear: int, selectedDf: string)
    requires Helpers.HasBothGroups(Helpers.SelectView(selectedDf, all), selectedYear)
    ensures var view := Helpers.SelectView(selectedDf, all);
      var u := UpdateOnHoverAndSelect(all, Helpers.Some(hover), selectedYear, selectedDf).value;
      && u.narrative.reading == ReadRank(Helpers.GroupSlice(view, selectedYear, Helpers.White),
                                         Helpers.GroupSlice(view, selectedYear, Helpers.Black), hover.x)
      && u.chart == EarningsRankGapHisto(view, selectedYear, Axis.XLow, Axis.XHigh, u.narrative.reading.whiteRank)
  {
  }

  /** The panel hovered does not matter: only the hovered log-income is read. */
  lemma UpdateIgnoresCurve(all: seq<Helpers.Observation>, h1: Axis.Hover, h2: Axis.Hover,
                           selectedYear: int, selectedDf: string)
    requires Helpers.HasBothGroups(Helpers.SelectView(selectedDf, all), selectedYear)
    requires h1.x == h2.x
    ensures UpdateOnHoverAndSelect(all, Helpers.Some(h1), selectedYear, selectedDf)
         == UpdateOnHoverAndSelect(all, Helpers.Some(h2), selectedYear, selectedDf)
  {
  }

  // ----------------------------------------------------------------- example

  /** White log-incomes 1 to 5, Black ones 0 to 4, pointer at 2: the White rank
      is 40; the linear percentile at 40 reads position 0.4 * 4 = 1.6 and gives
      2.6; its Black rank is 60, and the gap is +20. */
  lemma ReadRankExample()
    ensures ReadRank([1.0, 2.0, 3.0, 4.0, 5.0], [0.0, 1.0, 2.0, 3.0, 4.0], 2.0) == RankReading(40.0, 2.6, 60.0, 20)
  {
    ExampleWhiteRank();
    ExampleIncome();
    ExampleBlackRank();
    Stats.RoundHalfEvenExamples();
  }

  lemma ExampleWhiteRank()
    ensures Stats.WeakRank([1.0, 2.0, 3.0, 4.0, 5.0], 2.0) == 40.0
  {
    assert Stats.CountLe([1.0, 2.0, 3.0, 4.0, 5.0], 2.0) == 2;
    assert Stats.Fraction(2, 5) == 0.4;
  }

  lemma ExampleIncome()
    ensures Stats.Percentile([1.0, 2.0, 3.0, 4.0, 5.0], 40.0) == 2.6
  {
    Stats.SortedFive(1.0, 2.0, 3.0, 4.0, 5.0);
    FortiethOfFive([1.0, 2.0, 3.0, 4.0, 5.0]);
  }

  /** At rank 40 among five sorted values the position is 0.4 * 4 = 1.6, so the
      income read back lies 60% of the way from the second value to the third. */
  lemma FortiethOfFive(v: seq<real>)
    requires |v| == 5 && Stats.Sorted(v)
    ensures Stats.Percentile(v, 40.0) == v[1] + 0.6 * (v[2] - v[1])
  {
    assert Stats.QuantileSorted(v, 0.4) == v[1] + 0.6 * (v[2] - v[1]) by {
      var h := Stats.Position(5, 0.4);
      assert h == 1.6;
      assert h.Floor == 1;
    }
    assert 40.0 / 100.0 == 0.4;
    Stats.QuantileOfSorted(v, 0.4);
  }

  lemma ExampleBlackRank()
    ensures Stats.WeakRank([0.0, 1.0, 2.0, 3.0, 4.0], 2.6) == 60.0
  {
    assert Stats.CountLe([0.0, 1.0, 2.0, 3.0, 4.0], 2.6) == 3;
    assert Stats.Fraction(3, 5) == 0.6;
  }

  /** The sentence the example ends with. */
  lemma GapTextExample()
    ensures GapText(20) == "That's a +20 percentile point gap."
  {
    SignedTwenty();
  }

  lemma SignedTwenty()
    ensures Decimal.SignedString(20) == "+20"
  {
    assert Decimal.NatString(20) == "20";
  }
}

/** The x-axis both dashboards share: a log-income range, the point a hover
    event reports on it, the position of a marker line as a fraction of the
    range, and the fixed table of dollar tick labels. */
module Axis {
  import Decimal

  /** The x-axis range both dashboards pass to their charts. */
  const XLow: real := 0.0
  const XHigh: real := 14.0

  /** The first hovered point of a chart: its log-income `x` and the panel it
      lies in (`curveNumber` 0 is the upper, White panel, 1 the lower, Black one). */
  datatype Hover = Hover(x: real, curveNumber: int)

  /** Where a log-income falls on the axis, as a fraction of the range
      (`(x - xrange[0]) / (xrange[1] - xrange[0])`). */
  function NormPos(x: real, lo: real, hi: real): (pos: real)
    requires lo != hi
  {
    (x - lo) / (hi - lo)
  }

  /** The range's ends map to 0 and 1. */
  lemma NormPosEnds(lo: real, hi: real)
    requires lo != hi
    ensures NormPos(lo, lo, hi) == 0.0 && NormPos(hi, lo, hi) == 1.0
  {
    var d := hi - lo;
    assert d != 0.0;
    assert d / d == 1.0;
  }

  /** Placing a marker is undone by scaling back: the position determines x. */
  lemma NormPosInverse(x: real, lo: real, hi: real)
    requires lo != hi
    ensures lo + NormPos(x, lo, hi) * (hi - lo) == x
  {
  }

  /** Positions keep the order of the values, strictly. */
  lemma NormPosMonotone(x: real, y: real, lo: real, hi: real)
    requires lo < hi
    ensures x <= y <==> NormPos(x, lo, hi) <= NormPos(y, lo, hi)
    ensures x < y <==> NormPos(x, lo, hi) < NormPos(y, lo, hi)
  {
    var d := hi - lo;
    var px, py := NormPos(x, lo, hi), NormPos(y, lo, hi);
    assert px * d == x - lo && py * d == y - lo;
    assert (py - px) * d == y - x;
    if py - px > 0.0 {
      assert (py - px) * d > 0.0;
    } else if py - px < 0.0 {
      assert (py - px) * d < 0.0;
    }
  }

  /** On an increasing range, a value inside the range gets a position inside
      [0, 1]. Stated for any non-degenerate range, so that a chart can use it
      for whatever range it is given. */
  lemma MarkerInRange(x: real, lo: real, hi: real)
    requires lo != hi
    ensures lo < hi && lo <= x <= hi ==> 0.0 <= NormPos(x, lo, hi) <= 1.0
  {
    if lo < hi && lo <= x <= hi {
      NormPosEnds(lo, hi);
      NormPosMonotone(lo, x, lo, hi);
      NormPosMonotone(x, hi, lo, hi);
    }
  }

  // ---------------------------------------------------------------- tick text

  /** The real incomes marked on the axis, in dollars. */
  const RealIncomeTicks: seq<int> :=
    [0, 1000, 5000, 10000, 25000, 50000, 100000, 250000, 500000, 1000000, 2000000]

  /** `f"${x:,}"`: a dollar sign, then the integer with thousands separators. */
  function TickLabel(x: int): string {
    "$" + Decimal.FormatThousands(x)
  }

  /** A tick label is a dollar sign followed by `str(x)` with commas inserted,
      one before each full group of three digits counted from the right (after
      the minus sign of a negative amount). */
  lemma TickLabelDigits(x: int)
    ensures |TickLabel(x)| >= 2 && TickLabel(x)[0] == '$'
    ensures Decimal.StripCommas(TickLabel(x)[1..]) == Decimal.IntString(x)
    ensures x >= 0 ==> Decimal.CommaEveryThree(TickLabel(x)[1..])
    ensures x < 0 ==> |TickLabel(x)| >= 3 && TickLabel(x)[1] == '-' && Decimal.CommaEveryThree(TickLabel(x)[2..])
  {
    var text := TickLabel(x);
    var grouped := Decimal.FormatThousands(x);
    assert text[1..] == grouped;
    if x < 0 {
      assert text[2..] == grouped[1..];
    }
    Decimal.FormatThousandsDigits(x);
  }

  /** The tick text of both dashboards, one label per tick. */
  function TickText(): (labels: seq<string>)
    ensures |labels| == |RealIncomeTicks|
    ensures forall i :: 0 <= i < |labels| ==> labels[i] == TickLabel(RealIncomeTicks[i])
  {
    seq(|RealIncomeTicks|, i requires 0 <= i < |RealIncomeTicks| => TickLabel(RealIncomeTicks[i]))
  }

  /** The first and the last label, for instance. */
  lemma TickLabelExamples()
    ensures TickLabel(0) == "$0"
    ensures TickLabel(1000000) == "$1,000,000"
  {
    Decimal.GroupThousandsTimes1000(1);
    Decimal.GroupThousandsTimes1000(1000);
  }
}

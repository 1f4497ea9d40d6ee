/**
 * The per-bar indicator columns of the MACD breakout script: the true range,
 * the ATR as pandas' rolling mean computes it, and the row record the
 * segmenter and the backtest read.
 */
module Indicators {
  import opened Wrappers
  import opened Candles

  const ATR_PERIOD: nat := 14

  /** One row of the indicator frame: the bar, its MACD histogram value and its ATR (None for NaN). */
  datatype Row = Row(bar: Candle, hist: real, atr: Option<real>)

  function Max(a: real, b: real): real {
    if a >= b then a else b
  }

  /** The true range of `bar` against the previous bar's close: the largest of its three candidate spans. */
  function TrueRange(bar: Candle, prevClose: real): (tr: real)
    ensures tr >= bar.high - bar.low
    ensures tr >= Abs(bar.high - prevClose) && tr >= Abs(bar.low - prevClose)
    ensures tr == bar.high - bar.low || tr == Abs(bar.high - prevClose) || tr == Abs(bar.low - prevClose)
    ensures tr >= 0.0
  {
    Max(bar.high - bar.low, Max(Abs(bar.high - prevClose), Abs(bar.low - prevClose)))
  }

  /**
   * The `tr` column at row i. Row 0 has no previous close (the shifted column is
   * NaN there) and the element-wise maximum carries the NaN through.
   */
  function TrueRangeAt(bars: seq<Candle>, i: nat): Option<real>
    requires i < |bars|
  {
    if i == 0 then None else Some(TrueRange(bars[i], bars[i - 1].close))
  }

  /** Every true range of rows lo..hi-1 is present. */
  predicate WindowPresent(bars: seq<Candle>, lo: nat, hi: nat)
    requires lo <= hi <= |bars|
  {
    forall k :: lo <= k < hi ==> TrueRangeAt(bars, k).Some?
  }

  /** Sum of the true ranges of rows lo..hi-1, all of which are present. */
  function WindowSum(bars: seq<Candle>, lo: nat, hi: nat): real
    requires lo <= hi <= |bars| && WindowPresent(bars, lo, hi)
    decreases hi - lo
  {
    if lo == hi then 0.0 else TrueRangeAt(bars, lo).value + WindowSum(bars, lo + 1, hi)
  }

  /**
   * The `atr` column at row i: `rolling(window=period, min_periods=period).mean()`
   * of the true ranges. The window is rows i-period+1..i, and the mean is defined
   * only when that window is complete and holds no missing true range.
   */
  function Atr(bars: seq<Candle>, period: nat, i: nat): Option<real>
    requires 1 <= period && i < |bars|
  {
    if i + 1 < period then None
    else if WindowPresent(bars, i + 1 - period, i + 1) then
      Some(WindowSum(bars, i + 1 - period, i + 1) / (period as real))
    else None
  }

  /**
   * Builds the indicator frame from the bars, their histogram values and the ATR
   * period: each row keeps its bar and histogram value, and its ATR is missing for
   * exactly the first `period` rows and never negative after that.
   */
  function Annotate(bars: seq<Candle>, hists: seq<real>, period: nat): (rows: seq<Row>)
    requires |hists| == |bars| && 1 <= period
    ensures |rows| == |bars|
    ensures forall i :: 0 <= i < |rows| ==> rows[i].bar == bars[i] && rows[i].hist == hists[i]
    ensures forall i :: 0 <= i < |rows| ==> rows[i].atr == Atr(bars, period, i)
    ensures forall i :: 0 <= i < |rows| ==> (rows[i].atr.Some? <==> i >= period)
    ensures forall i :: 0 <= i < |rows| ==> rows[i].atr.Some? ==> rows[i].atr.value >= 0.0
  {
    assert forall i :: 0 <= i < |bars| ==>
      (Atr(bars, period, i).Some? <==> i >= period) && (Atr(bars, period, i).Some? ==> Atr(bars, period, i).value >= 0.0) by {
      forall i | 0 <= i < |bars|
        ensures Atr(bars, period, i).Some? <==> i >= period
        ensures Atr(bars, period, i).Some? ==> Atr(bars, period, i).value >= 0.0
      {
        AtrDefinedIff(bars, period, i);
        AtrNonNegative(bars, period, i);
      }
    }
    seq(|bars|, i requires 0 <= i < |bars| => Row(bars[i], hists[i], Atr(bars, period, i)))
  }

  /** n copies of m added up; keeps the window bounds free of non-linear products. */
  function Repeat(n: nat, m: real): real {
    if n == 0 then 0.0 else m + Repeat(n - 1, m)
  }

  lemma {:induction false} RepeatIsProduct(n: nat, m: real)
    ensures Repeat(n, m) == n as real * m
  {
    if n > 0 {
      RepeatIsProduct(n - 1, m);
    }
  }

  lemma {:induction false} WindowSumAtLeast(bars: seq<Candle>, lo: nat, hi: nat, m: real)
    requires lo <= hi <= |bars| && WindowPresent(bars, lo, hi)
    requires forall k :: lo <= k < hi ==> m <= TrueRangeAt(bars, k).value
    ensures Repeat(hi - lo, m) <= WindowSum(bars, lo, hi)
    decreases hi - lo
  {
    if lo < hi {
      WindowSumAtLeast(bars, lo + 1, hi, m);
    }
  }

  lemma {:induction false} WindowSumAtMost(bars: seq<Candle>, lo: nat, hi: nat, big: real)
    requires lo <= hi <= |bars| && WindowPresent(bars, lo, hi)
    requires forall k :: lo <= k < hi ==> TrueRangeAt(bars, k).value <= big
    ensures WindowSum(bars, lo, hi) <= Repeat(hi - lo, big)
    decreases hi - lo
  {
    if lo < hi {
      WindowSumAtMost(bars, lo + 1, hi, big);
    }
  }

  /** A sum of p terms between m and big has its mean between m and big. */
  lemma MeanBetween(s: real, p: nat, m: real, big: real)
    requires p > 0 && Repeat(p, m) <= s <= Repeat(p, big)
    ensures m <= s / (p as real) <= big
  {
    RepeatIsProduct(p, m);
    RepeatIsProduct(p, big);
    var q := p as real;
    assert s / q * q == s;
    assert q * (s / q) >= q * m;
    assert q * (s / q) <= q * big;
  }

  lemma DivNonNegative(s: real, q: real)
    requires s >= 0.0 && q > 0.0
    ensures s / q >= 0.0
  {
  }

  /**
   * The ATR is first defined at row `period` (row 0 has no true range and the
   * window needs `period` of them), and from there on it is always defined.
   */
  lemma AtrDefinedIff(bars: seq<Candle>, period: nat, i: nat)
    requires 1 <= period && i < |bars|
    ensures Atr(bars, period, i).Some? <==> i >= period
  {
    if i < period && i + 1 >= period {
      assert TrueRangeAt(bars, i + 1 - period) == None;
    }
  }

  /**
   * A defined ATR is the mean of the window's true ranges: it lies between any
   * lower and any upper bound of those true ranges.
   */
  lemma AtrWithinWindow(bars: seq<Candle>, period: nat, i: nat, m: real, big: real)
    requires 1 <= period <= i < |bars|
    requires forall k :: i + 1 - period <= k <= i ==> m <= TrueRange(bars[k], bars[k - 1].close) <= big
    ensures Atr(bars, period, i).Some?
    ensures m <= Atr(bars, period, i).value <= big
  {
    var lo := i + 1 - period;
    assert WindowPresent(bars, lo, i + 1);
    WindowSumAtLeast(bars, lo, i + 1, m);
    WindowSumAtMost(bars, lo, i + 1, big);
    MeanBetween(WindowSum(bars, lo, i + 1), period, m, big);
  }

  /** Every ATR value of the frame is either missing or non-negative, since every true range is. */
  lemma AtrNonNegative(bars: seq<Candle>, period: nat, i: nat)
    requires 1 <= period && i < |bars|
    ensures Atr(bars, period, i).Some? ==> Atr(bars, period, i).value >= 0.0
  {
    if Atr(bars, period, i).Some? {
      var lo := i + 1 - period;
      WindowSumAtLeast(bars, lo, i + 1, 0.0);
      var s := WindowSum(bars, lo, i + 1);
      RepeatIsProduct(period, 0.0);
      DivNonNegative(s, period as real);
    }
  }
}

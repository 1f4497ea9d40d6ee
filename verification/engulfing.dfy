/**
 * `detect_custom_engulfing_with_confirmation` and the counting part of
 * `append_success_rate_to_csv`: every interior bar is compared with the bar
 * before it (the engulfing rule) and the bar after it (the confirmation rule).
 */
module Engulfing {
  import opened Wrappers
  import opened Candles
  import opened Ratios

  datatype Pattern = Bullish | Bearish

  /** One detection row: the engulfing bar's timestamp, the pattern, its high and low, and whether it was confirmed. */
  datatype Detection = Detection(time: int, pattern: Pattern, engulfHigh: real, engulfLow: real, confirmed: bool)

  /** Sweeps below the previous low and closes above the previous open. */
  predicate IsBullish(prev: Candle, cur: Candle) {
    cur.low < prev.low && cur.close > prev.open
  }

  /** Sweeps above the previous high and closes below the previous open. */
  predicate IsBearish(prev: Candle, cur: Candle) {
    cur.high > prev.high && cur.close < prev.open
  }

  /**
   * The bullish confirmation: the next bar must break the engulfing high, and when
   * it breaks the low as well, its open must lie strictly nearer the high.
   */
  function BullishConfirmed(cur: Candle, nxt: Candle): (c: bool)
    ensures c <==> nxt.high > cur.high && (nxt.low >= cur.low || Abs(nxt.open - cur.high) < Abs(nxt.open - cur.low))
  {
    var highBreak := nxt.high > cur.high;
    var lowBreak := nxt.low < cur.low;
    if highBreak && !lowBreak then true
    else if highBreak && lowBreak then Abs(nxt.open - cur.high) < Abs(nxt.open - cur.low)
    else false
  }

  /** The mirror rule: break the low, and when the high breaks too, open strictly nearer the low. */
  function BearishConfirmed(cur: Candle, nxt: Candle): (c: bool)
    ensures c <==> nxt.low < cur.low && (nxt.high <= cur.high || Abs(nxt.open - cur.low) < Abs(nxt.open - cur.high))
  {
    var highBreak := nxt.high > cur.high;
    var lowBreak := nxt.low < cur.low;
    if lowBreak && !highBreak then true
    else if highBreak && lowBreak then Abs(nxt.open - cur.low) < Abs(nxt.open - cur.high)
    else false
  }

  /** The bullish row for bar i: its time, high and low, confirmed by the next bar. */
  function BullishAt(bars: seq<Candle>, i: nat): Detection
    requires 1 <= i < |bars| - 1
  {
    Detection(bars[i].time, Bullish, bars[i].high, bars[i].low, BullishConfirmed(bars[i], bars[i + 1]))
  }

  /** The bearish row for bar i. */
  function BearishAt(bars: seq<Candle>, i: nat): Detection
    requires 1 <= i < |bars| - 1
  {
    Detection(bars[i].time, Bearish, bars[i].high, bars[i].low, BearishConfirmed(bars[i], bars[i + 1]))
  }

  /** Bar j is interior and d is the row its engulfing rule calls for. */
  ghost predicate Produces(bars: seq<Candle>, j: int, d: Detection) {
    && 1 <= j < |bars| - 1
    && ((IsBullish(bars[j - 1], bars[j]) && d == BullishAt(bars, j))
        || (IsBearish(bars[j - 1], bars[j]) && d == BearishAt(bars, j)))
  }

  /** The rows one loop iteration appends for bar i: the bullish check first, then the bearish one. */
  function AtBar(bars: seq<Candle>, i: nat): (ds: seq<Detection>)
    requires 1 <= i < |bars| - 1
    ensures |ds| <= 1
    ensures forall d :: d in ds ==> d.time == bars[i].time
    ensures forall d :: d in ds <==> Produces(bars, i, d)
  {
    var prev := bars[i - 1];
    var cur := bars[i];
    var nxt := bars[i + 1];
    NeverBoth(prev, cur);
    (if IsBullish(prev, cur) then [Detection(cur.time, Bullish, cur.high, cur.low, BullishConfirmed(cur, nxt))] else [])
    + (if IsBearish(prev, cur) then [Detection(cur.time, Bearish, cur.high, cur.low, BearishConfirmed(cur, nxt))] else [])
  }

  /** The loop over bars i..n-2. */
  function DetectFrom(bars: seq<Candle>, i: nat): (ds: seq<Detection>)
    requires 1 <= i
    ensures i + 1 >= |bars| ==> ds == []
    ensures i + 1 < |bars| ==> |ds| + i + 1 <= |bars|
    decreases |bars| - i
  {
    if i + 1 >= |bars| then []
    else AtBar(bars, i) + DetectFrom(bars, i + 1)
  }

  /** The detections of the whole series: at most one per interior bar, none with fewer than 3 bars. */
  function Detect(bars: seq<Candle>): (ds: seq<Detection>)
    ensures |bars| < 3 ==> ds == []
    ensures |bars| >= 3 ==> |ds| <= |bars| - 2
  {
    DetectFrom(bars, 1)
  }

  /** No bar is both: closing above and below the previous open exclude each other. */
  lemma NeverBoth(prev: Candle, cur: Candle)
    ensures !(IsBullish(prev, cur) && IsBearish(prev, cur))
  {
  }

  /** When the next bar breaks neither side, neither pattern is confirmed. */
  lemma UnbrokenIsUnconfirmed(cur: Candle, nxt: Candle)
    requires nxt.high <= cur.high && nxt.low >= cur.low
    ensures !BullishConfirmed(cur, nxt) && !BearishConfirmed(cur, nxt)
  {
  }

  lemma {:induction false} DetectFromExactly(bars: seq<Candle>, i: nat)
    requires 1 <= i
    ensures forall d :: d in DetectFrom(bars, i) <==> exists j :: i <= j < |bars| - 1 && d in AtBar(bars, j)
    decreases |bars| - i
  {
    if i + 1 < |bars| {
      DetectFromExactly(bars, i + 1);
      var here := AtBar(bars, i);
      var rest := DetectFrom(bars, i + 1);
      assert DetectFrom(bars, i) == here + rest;
      forall d | d in here + rest
        ensures exists j :: i <= j < |bars| - 1 && d in AtBar(bars, j)
      {
        if d in here {
          assert i <= i < |bars| - 1 && d in AtBar(bars, i);
        }
      }
      forall d, j | i <= j < |bars| - 1 && d in AtBar(bars, j)
        ensures d in here + rest
      {
        if j > i {
          assert d in rest;
        }
      }
    }
  }

  /** A row is detected exactly when some interior bar 1..n-2 produces it. */
  lemma DetectExactly(bars: seq<Candle>)
    ensures forall d :: d in Detect(bars) <==> exists j :: 1 <= j < |bars| - 1 && d in AtBar(bars, j)
    ensures forall d :: d in Detect(bars) <==> exists j :: Produces(bars, j, d)
    ensures forall j :: 1 <= j < |bars| - 1 && IsBullish(bars[j - 1], bars[j]) ==> BullishAt(bars, j) in Detect(bars)
    ensures forall j :: 1 <= j < |bars| - 1 && IsBearish(bars[j - 1], bars[j]) ==> BearishAt(bars, j) in Detect(bars)
  {
    DetectFromExactly(bars, 1);
    forall d | d in Detect(bars)
      ensures exists j :: Produces(bars, j, d)
    {
      var j :| 1 <= j < |bars| - 1 && d in AtBar(bars, j);
      assert Produces(bars, j, d);
    }
    forall d, j | Produces(bars, j, d)
      ensures d in Detect(bars)
    {
      assert d in AtBar(bars, j);
    }
    forall j | 1 <= j < |bars| - 1
      ensures IsBullish(bars[j - 1], bars[j]) ==> BullishAt(bars, j) in Detect(bars)
      ensures IsBearish(bars[j - 1], bars[j]) ==> BearishAt(bars, j) in Detect(bars)
    {
      assert IsBullish(bars[j - 1], bars[j]) ==> Produces(bars, j, BullishAt(bars, j));
      assert IsBearish(bars[j - 1], bars[j]) ==> Produces(bars, j, BearishAt(bars, j));
    }
  }

  /** Detection timestamps strictly increase when the bars' do. */
  ghost predicate Chronological(ds: seq<Detection>) {
    forall a, b :: 0 <= a < b < |ds| ==> ds[a].time < ds[b].time
  }

  /** At most one detection of one bar followed by detections of strictly later bars stay chronological. */
  lemma ChronologicalPrepend(here: seq<Detection>, rest: seq<Detection>, t: int)
    requires |here| <= 1 && Chronological(rest)
    requires forall a :: 0 <= a < |here| ==> here[a].time == t
    requires forall a :: 0 <= a < |rest| ==> t < rest[a].time
    ensures Chronological(here + rest)
    ensures forall a :: 0 <= a < |here + rest| ==> t <= (here + rest)[a].time
  {
    var ds := here + rest;
    forall a, b | 0 <= a < b < |ds|
      ensures ds[a].time < ds[b].time
    {
      assert ds[b] == rest[b - |here|];
      if a >= |here| {
        assert ds[a] == rest[a - |here|];
      } else {
        assert ds[a] == here[a];
      }
    }
    forall a | 0 <= a < |ds|
      ensures t <= ds[a].time
    {
      if a < |here| {
        assert ds[a] == here[a];
      } else {
        assert ds[a] == rest[a - |here|];
      }
    }
  }

  lemma {:induction false} DetectFromChronological(bars: seq<Candle>, i: nat)
    requires 1 <= i && TimesIncreasing(bars)
    ensures Chronological(DetectFrom(bars, i))
    ensures forall a :: 0 <= a < |DetectFrom(bars, i)| ==> i < |bars| && bars[i].time <= DetectFrom(bars, i)[a].time
    decreases |bars| - i
  {
    if i + 1 < |bars| {
      DetectFromChronological(bars, i + 1);
      var here := AtBar(bars, i);
      var rest := DetectFrom(bars, i + 1);
      assert forall a :: 0 <= a < |rest| ==> bars[i].time < rest[a].time by {
        assert bars[i].time < bars[i + 1].time;
      }
      assert forall a :: 0 <= a < |here| ==> here[a].time == bars[i].time by {
        forall a | 0 <= a < |here|
          ensures here[a].time == bars[i].time
        {
          assert here[a] in here;
        }
      }
      ChronologicalPrepend(here, rest, bars[i].time);
    }
  }

  /** The detections come out in bar order. */
  lemma DetectChronological(bars: seq<Candle>)
    requires TimesIncreasing(bars)
    ensures Chronological(Detect(bars))
  {
    DetectFromChronological(bars, 1);
  }

  // ----- The success-rate summary -----

  function CountPattern(ds: seq<Detection>, p: Pattern): (n: nat)
    ensures n <= |ds|
  {
    if |ds| == 0 then 0
    else (if ds[0].pattern == p then 1 else 0) + CountPattern(ds[1..], p)
  }

  function CountConfirmed(ds: seq<Detection>, p: Pattern): (n: nat)
    ensures n <= CountPattern(ds, p)
  {
    if |ds| == 0 then 0
    else (if ds[0].pattern == p && ds[0].confirmed then 1 else 0) + CountConfirmed(ds[1..], p)
  }

  /** `confirmed / total * 100`, or 0 when there is nothing to count. */
  function Rate(confirmed: nat, total: nat): (r: real)
    requires confirmed <= total
    ensures 0.0 <= r <= 100.0
    ensures total == 0 ==> r == 0.0
    ensures total > 0 ==> (r == 100.0 <==> confirmed == total)
    ensures r == 0.0 <==> confirmed == 0
  {
    if total > 0 then Percent(confirmed, total) else 0.0
  }

  datatype Summary = Summary(
    totalBull: nat, confirmedBull: nat, totalBear: nat, confirmedBear: nat,
    bullRate: real, bearRate: real, overallRate: real)

  /** The counts and the three rates of the summary block; with no detections every count and rate is zero. */
  function Summarize(ds: seq<Detection>): (s: Summary)
    ensures s.totalBull == CountPattern(ds, Bullish) && s.totalBear == CountPattern(ds, Bearish)
    ensures s.confirmedBull <= s.totalBull && s.confirmedBear <= s.totalBear
    ensures s.totalBull + s.totalBear == |ds|
    ensures 0.0 <= s.bullRate <= 100.0 && 0.0 <= s.bearRate <= 100.0 && 0.0 <= s.overallRate <= 100.0
    ensures s.totalBull == 0 ==> s.bullRate == 0.0
    ensures s.totalBear == 0 ==> s.bearRate == 0.0
    ensures |ds| == 0 ==> s.overallRate == 0.0
    ensures s.confirmedBull == CountConfirmed(ds, Bullish) && s.confirmedBear == CountConfirmed(ds, Bearish)
    ensures s.bullRate == Rate(CountConfirmed(ds, Bullish), CountPattern(ds, Bullish))
    ensures s.bearRate == Rate(CountConfirmed(ds, Bearish), CountPattern(ds, Bearish))
    ensures s.overallRate == Rate(CountConfirmed(ds, Bullish) + CountConfirmed(ds, Bearish), CountPattern(ds, Bullish) + CountPattern(ds, Bearish))
  {
    var tb := CountPattern(ds, Bullish);
    var cb := CountConfirmed(ds, Bullish);
    var ts := CountPattern(ds, Bearish);
    var cs := CountConfirmed(ds, Bearish);
    PatternsPartition(ds);
    Summary(tb, cb, ts, cs, Rate(cb, tb), Rate(cs, ts), Rate(cb + cs, tb + ts))
  }

  lemma {:induction false} PatternsPartition(ds: seq<Detection>)
    ensures CountPattern(ds, Bullish) + CountPattern(ds, Bearish) == |ds|
  {
    if |ds| > 0 {
      PatternsPartition(ds[1..]);
    }
  }

  /**
   * `append_success_rate_to_csv` as written: an empty detection frame has no
   * `pattern` column, so the first filter fails before any rate is computed.
   */
  function SummarizeAsWritten(ds: seq<Detection>): (r: Option<Summary>)
    ensures r.None? <==> |ds| == 0
    ensures r.Some? ==> r.value == Summarize(ds)
  {
    if |ds| == 0 then None else Some(Summarize(ds))
  }

  /** With no bar engulfing, the script as written produces no summary at all, though zero rates were intended. */
  lemma NoDetectionsNoSummary(bars: seq<Candle>)
    requires forall i :: 1 <= i < |bars| - 1 ==> !IsBullish(bars[i - 1], bars[i]) && !IsBearish(bars[i - 1], bars[i])
    ensures Detect(bars) == []
    ensures SummarizeAsWritten(Detect(bars)).None?
    ensures Summarize(Detect(bars)) == Summary(0, 0, 0, 0, 0.0, 0.0, 0.0)
  {
    NoneFrom(bars, 1);
  }

  /**
   * The script as written writes a summary exactly when some interior bar
   * engulfs its predecessor, bullish or bearish.
   */
  lemma SummaryExistsIff(bars: seq<Candle>)
    ensures SummarizeAsWritten(Detect(bars)).None?
      <==> forall i :: 1 <= i < |bars| - 1 ==> !IsBullish(bars[i - 1], bars[i]) && !IsBearish(bars[i - 1], bars[i])
  {
    if forall i :: 1 <= i < |bars| - 1 ==> !IsBullish(bars[i - 1], bars[i]) && !IsBearish(bars[i - 1], bars[i]) {
      NoneFrom(bars, 1);
    } else {
      var i :| 1 <= i < |bars| - 1 && (IsBullish(bars[i - 1], bars[i]) || IsBearish(bars[i - 1], bars[i]));
      var ds := AtBar(bars, i);
      assert |ds| > 0;
      DetectExactly(bars);
      assert ds[0] in Detect(bars);
      assert |Detect(bars)| > 0;
    }
  }

  lemma {:induction false} NoneFrom(bars: seq<Candle>, i: nat)
    requires 1 <= i
    requires forall j :: i <= j < |bars| - 1 ==> !IsBullish(bars[j - 1], bars[j]) && !IsBearish(bars[j - 1], bars[j])
    ensures DetectFrom(bars, i) == []
    decreases |bars| - i
  {
    if i + 1 < |bars| {
      NoneFrom(bars, i + 1);
    }
  }
}

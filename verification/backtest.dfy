/**
 * `run_strategy_immediate_entry` and the win-rate rule of `print_stats`: a
 * single-position breakout strategy with a symmetric ATR bracket, written as a
 * fold over the bars with an explicit state record.
 */
module Backtest {
  import opened Wrappers
  import opened Candles
  import opened Indicators
  import opened Segmenter
  import opened Ratios

  const ATR_MULT: real := 2.0
  const PIP: real := 0.0001

  datatype Side = Buy | Sell

  /** The `result` column of a closed trade. */
  datatype Outcome = SL | TP | Timeout

  /** An open trade: side, entry timestamp and price, stop-loss and take-profit. */
  datatype Position = Position(side: Side, entryTime: int, entry: real, sl: real, tp: real)

  /** A closed trade: the position, its exit timestamp and price, its result and its pips. */
  datatype Trade = Trade(pos: Position, exitTime: int, exitPrice: real, result: Outcome, pips: real)

  /** The loop's variables: current MACD high and low, the active trade, the closed trades so far. */
  datatype State = State(high: Option<real>, low: Option<real>, active: Option<Position>, trades: seq<Trade>)

  const Init := State(None, None, None, [])

  /** +1 for a buy, -1 for a sell. */
  function Dir(side: Side): real {
    if side == Buy then 1.0 else -1.0
  }

  /** The `pips` column: the exit's move in the trade's favour, in units of PIP. */
  function Pips(p: Position, exitPrice: real): real {
    (exitPrice - p.entry) * Dir(p.side) / PIP
  }

  /** The bracket's distance from entry to target, measured in the trade's favour. */
  function Reward(p: Position): real {
    (p.tp - p.entry) * Dir(p.side)
  }

  function Close(p: Position, time: int, price: real, result: Outcome): Trade {
    Trade(p, time, price, result, Pips(p, price))
  }

  /** levels[k] is the last level stamped t. */
  ghost predicate LastWithTime(levels: seq<Level>, k: int, t: int) {
    0 <= k < |levels| && levels[k].time == t && forall j :: k < j < |levels| ==> levels[j].time != t
  }

  /**
   * The `level_map` lookup at timestamp t. The map is filled in list order, so a
   * later level with the same timestamp overwrites an earlier one.
   */
  function LevelAt(levels: seq<Level>, t: int): (r: Option<Level>)
    ensures r.None? <==> forall k :: 0 <= k < |levels| ==> levels[k].time != t
    ensures r.Some? ==> r.value.time == t
    ensures r.Some? ==> exists k :: LastWithTime(levels, k, t) && levels[k] == r.value
    decreases |levels|
  {
    if |levels| == 0 then None
    else
      var n := |levels| - 1;
      if levels[n].time == t then
        assert LastWithTime(levels, n, t);
        Some(levels[n])
      else
        var r := LevelAt(levels[..n], t);
        assert r.Some? ==> exists k :: LastWithTime(levels, k, t) && levels[k] == r.value by {
          if r.Some? {
            var k :| LastWithTime(levels[..n], k, t) && levels[..n][k] == r.value;
            assert LastWithTime(levels, k, t);
          }
        }
        r
  }

  /** A level reached at this bar replaces the current level of its kind. */
  function ApplyLevel(st: State, lv: Option<Level>): State {
    match lv
    case None => st
    case Some(l) => if l.kind == MacdHigh then st.(high := Some(l.price)) else st.(low := Some(l.price))
  }

  /** The exit check for an open trade on one bar: the stop is checked before the target. */
  function ExitOn(p: Position, bar: Candle): Option<Trade> {
    match p.side
    case Buy =>
      if bar.low <= p.sl then Some(Close(p, bar.time, p.sl, SL))
      else if bar.high >= p.tp then Some(Close(p, bar.time, p.tp, TP))
      else None
    case Sell =>
      if bar.high >= p.sl then Some(Close(p, bar.time, p.sl, SL))
      else if bar.low <= p.tp then Some(Close(p, bar.time, p.tp, TP))
      else None
  }

  /** The close crosses the current MACD high upwards, strictly on both sides. */
  predicate BuySignal(high: Option<real>, prev: Candle, cur: Candle) {
    high.Some? && prev.close < high.value && cur.close > high.value
  }

  /** The close crosses the current MACD low downwards, strictly on both sides. */
  predicate SellSignal(low: Option<real>, prev: Candle, cur: Candle) {
    low.Some? && prev.close > low.value && cur.close < low.value
  }

  /** A trade entered at the bar's close with stop and target ATR_MULT ATRs away on either side. */
  function Open(side: Side, bar: Candle, atr: real): (p: Position)
    ensures p.side == side && p.entryTime == bar.time && p.entry == bar.close
    ensures p.tp - p.entry == p.entry - p.sl
    ensures Reward(p) == ATR_MULT * atr
  {
    match side
    case Buy => Position(Buy, bar.time, bar.close, bar.close - ATR_MULT * atr, bar.close + ATR_MULT * atr)
    case Sell => Position(Sell, bar.time, bar.close, bar.close + ATR_MULT * atr, bar.close - ATR_MULT * atr)
  }

  /** The first part of an iteration: the levels after a level at this bar's timestamp, if any, is taken up. */
  function Reached(st: State, levels: seq<Level>, cur: Row): State {
    ApplyLevel(st, LevelAt(levels, cur.bar.time))
  }

  /** One iteration of the candle loop, for bar `cur` with predecessor `prev`. */
  function Step(st: State, levels: seq<Level>, prev: Row, cur: Row): State {
    var s := Reached(st, levels, cur);
    match s.active
    case Some(p) =>
      (match ExitOn(p, cur.bar)
       case Some(t) => s.(active := None, trades := s.trades + [t])
       case None => s)
    case None =>
      if cur.atr.None? then s
      else if BuySignal(s.high, prev.bar, cur.bar) then s.(active := Some(Open(Buy, cur.bar, cur.atr.value)))
      else if SellSignal(s.low, prev.bar, cur.bar) then s.(active := Some(Open(Sell, cur.bar, cur.atr.value)))
      else s
  }

  /** The state after the loop has handled rows 1..k-1 (the loop starts at row 1). */
  function Scan(rows: seq<Row>, levels: seq<Level>, k: nat): State
    requires 1 <= k <= |rows|
  {
    if k == 1 then Init
    else Step(Scan(rows, levels, k - 1), levels, rows[k - 2], rows[k - 1])
  }

  /** `run_strategy_immediate_entry`: a trade still open after the last row closes there as a timeout. */
  function Run(rows: seq<Row>, levels: seq<Level>): seq<Trade> {
    if |rows| == 0 then []
    else
      var st := Scan(rows, levels, |rows|);
      var last := rows[|rows| - 1].bar;
      match st.active
      case Some(p) => st.trades + [Close(p, last.time, last.close, Timeout)]
      case None => st.trades
  }

  /** The whole script after loading: histogram and bars in, ATR(14) and levels computed, trades out. */
  function Strategy(bars: seq<Candle>, hists: seq<real>): seq<Trade>
    requires |hists| == |bars|
  {
    var rows := Annotate(bars, hists, ATR_PERIOD);
    Run(rows, Detect(rows))
  }

  function Count(trades: seq<Trade>, o: Outcome): (n: nat)
    ensures n <= |trades|
  {
    if |trades| == 0 then 0
    else (if trades[0].result == o then 1 else 0) + Count(trades[1..], o)
  }

  /** `print_stats`' win rate: take-profits as a percentage of the trades that hit stop or target. */
  function WinRate(trades: seq<Trade>): (r: real)
    ensures 0.0 <= r <= 100.0
    ensures r == 0.0 <==> Count(trades, TP) == 0
    ensures r == 100.0 <==> Count(trades, TP) > 0 && Count(trades, SL) == 0
  {
    var wins := Count(trades, TP);
    var losses := Count(trades, SL);
    if wins + losses > 0 then Percent(wins, wins + losses) else 0.0
  }

  // ----- One iteration -----

  /**
   * A level stamped with the bar's timestamp replaces the current level of its
   * kind, whether or not a trade is open; otherwise the current levels stay.
   */
  lemma StepTracksLevels(st: State, levels: seq<Level>, prev: Row, cur: Row)
    ensures var lv := LevelAt(levels, cur.bar.time);
      && Step(st, levels, prev, cur).high == (if lv.Some? && lv.value.kind == MacdHigh then Some(lv.value.price) else st.high)
      && Step(st, levels, prev, cur).low == (if lv.Some? && lv.value.kind == MacdLow then Some(lv.value.price) else st.low)
  {
  }

  /**
   * While a trade is open, an iteration never opens another: it either keeps the
   * trade open and the closed list as it is, or closes that very trade at this
   * bar and appends it.
   */
  lemma StepWhileOpen(st: State, levels: seq<Level>, prev: Row, cur: Row)
    requires st.active.Some?
    ensures var s' := Step(st, levels, prev, cur);
      || (s'.active == st.active && s'.trades == st.trades)
      || (&& s'.active.None?
          && |s'.trades| == |st.trades| + 1
          && s'.trades[..|st.trades|] == st.trades
          && s'.trades[|st.trades|].pos == st.active.value
          && s'.trades[|st.trades|].exitTime == cur.bar.time)
  {
    var s' := Step(st, levels, prev, cur);
    if s'.active.None? {
      assert s'.trades[..|st.trades|] == st.trades;
    }
  }

  /**
   * The stop is checked first: an open buy whose bar reaches down to the stop is
   * closed as SL at the stop price, even when the same bar also reaches the target;
   * a sell whose bar reaches up to its stop likewise.
   */
  lemma StopBeforeTarget(st: State, levels: seq<Level>, prev: Row, cur: Row)
    requires st.active.Some?
    requires var p := st.active.value;
      (p.side == Buy && cur.bar.low <= p.sl) || (p.side == Sell && cur.bar.high >= p.sl)
    ensures Step(st, levels, prev, cur).active.None?
    ensures Step(st, levels, prev, cur).trades == st.trades + [Close(st.active.value, cur.bar.time, st.active.value.sl, SL)]
  {
  }

  /**
   * Without a stop touch, an open trade closes as TP at the target price exactly
   * when the bar reaches the target, and otherwise stays open.
   */
  lemma TargetWithoutStop(st: State, levels: seq<Level>, prev: Row, cur: Row)
    requires st.active.Some?
    requires var p := st.active.value;
      (p.side == Buy && cur.bar.low > p.sl) || (p.side == Sell && cur.bar.high < p.sl)
    ensures var p := st.active.value;
      var reached := if p.side == Buy then cur.bar.high >= p.tp else cur.bar.low <= p.tp;
      && (reached ==> Step(st, levels, prev, cur).trades == st.trades + [Close(p, cur.bar.time, p.tp, TP)])
      && (reached <==> Step(st, levels, prev, cur).active.None?)
  {
  }

  /**
   * With no trade open, an iteration closes nothing; it opens a buy exactly when
   * the ATR is defined and the close crosses the current high strictly upwards, and
   * otherwise a sell exactly when the ATR is defined and the close crosses the
   * current low strictly downwards. Either entry is at the close with the bracket
   * ATR_MULT ATRs wide.
   */
  lemma EntryRule(st: State, levels: seq<Level>, prev: Row, cur: Row)
    requires st.active.None?
    ensures var s := Reached(st, levels, cur);
      var s' := Step(st, levels, prev, cur);
      var buy := cur.atr.Some? && BuySignal(s.high, prev.bar, cur.bar);
      var sell := cur.atr.Some? && !BuySignal(s.high, prev.bar, cur.bar) && SellSignal(s.low, prev.bar, cur.bar);
      && s'.trades == st.trades
      && (buy <==> s'.active.Some? && s'.active.value.side == Buy)
      && (sell <==> s'.active.Some? && s'.active.value.side == Sell)
      && (s'.active.Some? ==> s'.active.value == Open(s'.active.value.side, cur.bar, cur.atr.value))
  {
  }

  /** Worked example: a buy at 1.1050 with ATR 0.0010 brackets 1.1030/1.1070, and a low of 1.1025 stops it out at 1.1030. */
  lemma ScenarioBuyStoppedOut(t0: int, t1: int, open1: real, high1: real, close1: real)
    ensures var p := Open(Buy, Candle(t0, 1.1040, 1.1055, 1.1035, 1.1050), 0.0010);
      && p.sl == 1.1030 && p.tp == 1.1070
      && ExitOn(p, Candle(t1, open1, high1, 1.1025, close1)) == Some(Trade(p, t1, 1.1030, SL, -20.0))
  {
  }

  // ----- The whole loop -----

  /** The bracket is symmetric around the entry. */
  predicate Symmetric(p: Position) {
    p.tp - p.entry == p.entry - p.sl
  }

  /** The exit price is the touched level for SL and TP, and the pips are measured from it. */
  predicate ExitConsistent(t: Trade) {
    && Symmetric(t.pos)
    && (t.result == SL ==> t.exitPrice == t.pos.sl)
    && (t.result == TP ==> t.exitPrice == t.pos.tp)
    && t.pips == Pips(t.pos, t.exitPrice)
  }

  /** A trade closed inside the loop: by stop or target, on a bar after its entry bar. */
  predicate Settled(t: Trade) {
    t.result != Timeout && t.pos.entryTime < t.exitTime && ExitConsistent(t)
  }

  /** Trades follow one another: each exits before the next one enters. */
  ghost predicate Sequential(trades: seq<Trade>) {
    forall a, b :: 0 <= a < b < |trades| ==> trades[a].exitTime < trades[b].pos.entryTime
  }

  ghost predicate ScanInv(rows: seq<Row>, k: nat, st: State)
    requires 1 <= k <= |rows|
  {
    var now := rows[k - 1].bar.time;
    && (forall j :: 0 <= j < |st.trades| ==> Settled(st.trades[j]) && st.trades[j].exitTime <= now)
    && Sequential(st.trades)
    && (st.active.Some? ==>
          && Symmetric(st.active.value)
          && st.active.value.entryTime <= now
          && forall j :: 0 <= j < |st.trades| ==> st.trades[j].exitTime < st.active.value.entryTime)
  }

  lemma {:induction false} ScanKeepsInv(rows: seq<Row>, levels: seq<Level>, k: nat)
    requires 1 <= k <= |rows| && RowTimesIncreasing(rows)
    ensures ScanInv(rows, k, Scan(rows, levels, k))
  {
    if k > 1 {
      ScanKeepsInv(rows, levels, k - 1);
      var st := Scan(rows, levels, k - 1);
      var prev := rows[k - 2];
      var cur := rows[k - 1];
      assert prev.bar.time < cur.bar.time;
      var s := Reached(st, levels, cur);
      var s' := Step(st, levels, prev, cur);
      assert s.trades == st.trades && s.active == st.active;
      if st.active.Some? && s'.active.None? {
        var p := st.active.value;
        var t := ExitOn(p, cur.bar).value;
        assert s'.trades == st.trades + [t];
        assert Settled(t);
        forall a, b | 0 <= a < b < |s'.trades|
          ensures s'.trades[a].exitTime < s'.trades[b].pos.entryTime
        {
          if b < |st.trades| {
            assert s'.trades[a] == st.trades[a] && s'.trades[b] == st.trades[b];
          } else {
            assert s'.trades[a] == st.trades[a] && s'.trades[b] == t;
          }
        }
      }
    }
  }

  /**
   * The trade list `run_strategy_immediate_entry` returns, for increasing bar
   * times: trades never overlap (each exits before the next enters); every trade
   * exits at its stop for SL and at its target for TP with a symmetric bracket and
   * pips measured from the exit; every trade but the last was closed by SL or TP on
   * a bar after its entry; and a TIMEOUT trade is the last one, closed at the final
   * bar's timestamp and close.
   */
  lemma RunWellFormed(rows: seq<Row>, levels: seq<Level>)
    requires RowTimesIncreasing(rows)
    ensures var trades := Run(rows, levels);
      && Sequential(trades)
      && (forall j :: 0 <= j < |trades| ==> ExitConsistent(trades[j]) && trades[j].pos.entryTime <= trades[j].exitTime)
      && (forall j :: 0 <= j < |trades| - 1 ==> Settled(trades[j]))
      && (forall j :: 0 <= j < |trades| && trades[j].result == Timeout ==>
            && j == |trades| - 1
            && trades[j].exitTime == rows[|rows| - 1].bar.time
            && trades[j].exitPrice == rows[|rows| - 1].bar.close)
  {
    if |rows| > 0 {
      var n := |rows|;
      ScanKeepsInv(rows, levels, n);
      var st := Scan(rows, levels, n);
      var trades := Run(rows, levels);
      if st.active.Some? {
        var p := st.active.value;
        var last := rows[n - 1].bar;
        var t := Close(p, last.time, last.close, Timeout);
        assert trades == st.trades + [t];
        forall a, b | 0 <= a < b < |trades|
          ensures trades[a].exitTime < trades[b].pos.entryTime
        {
          if b < |st.trades| {
            assert trades[a] == st.trades[a] && trades[b] == st.trades[b];
          } else {
            assert trades[a] == st.trades[a] && trades[b] == t;
          }
        }
        assert forall j :: 0 <= j < |st.trades| ==> trades[j] == st.trades[j];
      }
    }
  }

  /** A trade's pips are plus the bracket's reward at TP and minus it at SL, in pips. */
  lemma PipsOfExit(t: Trade)
    requires ExitConsistent(t)
    ensures t.result == TP ==> t.pips == Reward(t.pos) / PIP
    ensures t.result == SL ==> t.pips == -Reward(t.pos) / PIP
  {
  }

  /** Each row's ATR is missing or non-negative. */
  ghost predicate AtrNonNegativeRows(rows: seq<Row>) {
    forall i :: 0 <= i < |rows| && rows[i].atr.Some? ==> rows[i].atr.value >= 0.0
  }

  ghost predicate RewardsNonNegative(st: State) {
    && (forall j :: 0 <= j < |st.trades| ==> Reward(st.trades[j].pos) >= 0.0)
    && (st.active.Some? ==> Reward(st.active.value) >= 0.0)
  }

  lemma {:induction false} ScanRewardsNonNegative(rows: seq<Row>, levels: seq<Level>, k: nat)
    requires 1 <= k <= |rows| && AtrNonNegativeRows(rows)
    ensures RewardsNonNegative(Scan(rows, levels, k))
  {
    if k > 1 {
      ScanRewardsNonNegative(rows, levels, k - 1);
      var st := Scan(rows, levels, k - 1);
      var s' := Step(st, levels, rows[k - 2], rows[k - 1]);
      if st.active.Some? && s'.active.None? {
        var t := ExitOn(st.active.value, rows[k - 1].bar).value;
        assert s'.trades == st.trades + [t];
      }
    }
  }

  /** What the loop keeps whatever the bar times: closed trades are consistent stop or target exits, and the open bracket is symmetric. */
  ghost predicate ScanConsistent(st: State) {
    && (forall j :: 0 <= j < |st.trades| ==> ExitConsistent(st.trades[j]) && st.trades[j].result != Timeout)
    && (st.active.Some? ==> Symmetric(st.active.value))
  }

  lemma {:induction false} ScanKeepsConsistent(rows: seq<Row>, levels: seq<Level>, k: nat)
    requires 1 <= k <= |rows|
    ensures ScanConsistent(Scan(rows, levels, k))
  {
    if k > 1 {
      ScanKeepsConsistent(rows, levels, k - 1);
      var st := Scan(rows, levels, k - 1);
      var s' := Step(st, levels, rows[k - 2], rows[k - 1]);
      if st.active.Some? && s'.active.None? {
        var t := ExitOn(st.active.value, rows[k - 1].bar).value;
        assert s'.trades == st.trades + [t];
      }
    }
  }

  /** Every trade of a backtest, the final TIMEOUT included, has a symmetric bracket and pips measured from its exit, for any bar times. */
  lemma RunConsistent(rows: seq<Row>, levels: seq<Level>)
    ensures forall j :: 0 <= j < |Run(rows, levels)| ==> ExitConsistent(Run(rows, levels)[j])
  {
    if |rows| > 0 {
      ScanKeepsConsistent(rows, levels, |rows|);
      var st := Scan(rows, levels, |rows|);
      var trades := Run(rows, levels);
      assert forall j :: 0 <= j < |st.trades| ==> trades[j] == st.trades[j];
    }
  }

  /**
   * When no ATR is negative, every bracket's target lies on the profitable side of
   * the entry, so TP trades never lose pips and SL trades never gain any.
   */
  lemma RunPipsSigns(rows: seq<Row>, levels: seq<Level>)
    requires AtrNonNegativeRows(rows)
    ensures var trades := Run(rows, levels);
      forall j :: 0 <= j < |trades| ==>
        && (trades[j].result == TP ==> trades[j].pips >= 0.0)
        && (trades[j].result == SL ==> trades[j].pips <= 0.0)
  {
    if |rows| > 0 {
      ScanRewardsNonNegative(rows, levels, |rows|);
      RunConsistent(rows, levels);
      var st := Scan(rows, levels, |rows|);
      var trades := Run(rows, levels);
      forall j | 0 <= j < |trades|
        ensures trades[j].result == TP ==> trades[j].pips >= 0.0
        ensures trades[j].result == SL ==> trades[j].pips <= 0.0
      {
        if j < |st.trades| {
          assert trades[j] == st.trades[j];
        }
        PipsOfExit(trades[j]);
        var r := Reward(trades[j].pos);
        assert r >= 0.0;
        assert r / PIP >= 0.0;
      }
    }
  }

  /** On the script's own pipeline the ATR is computed, hence never negative, and the pips signs follow. */
  lemma StrategyPipsSigns(bars: seq<Candle>, hists: seq<real>)
    requires |hists| == |bars|
    ensures var trades := Strategy(bars, hists);
      forall j :: 0 <= j < |trades| ==>
        && (trades[j].result == TP ==> trades[j].pips >= 0.0)
        && (trades[j].result == SL ==> trades[j].pips <= 0.0)
  {
    var rows := Annotate(bars, hists, ATR_PERIOD);
    forall i | 0 <= i < |rows| && rows[i].atr.Some?
      ensures rows[i].atr.value >= 0.0
    {
      AtrNonNegative(bars, ATR_PERIOD, i);
    }
    RunPipsSigns(rows, Detect(rows));
  }

  // ----- Statistics -----

  lemma {:induction false} CountsPartition(trades: seq<Trade>)
    ensures Count(trades, TP) + Count(trades, SL) + Count(trades, Timeout) == |trades|
  {
    if |trades| > 0 {
      CountsPartition(trades[1..]);
    }
  }

  lemma {:induction false} CountNoneOfKind(trades: seq<Trade>, o: Outcome)
    requires forall j :: 0 <= j < |trades| ==> trades[j].result != o
    ensures Count(trades, o) == 0
  {
    if |trades| > 0 {
      CountNoneOfKind(trades[1..], o);
    }
  }

  /** A backtest produces at most one TIMEOUT trade, and wins, losses and timeouts add up to all trades. */
  lemma RunCounts(rows: seq<Row>, levels: seq<Level>)
    ensures var trades := Run(rows, levels);
      && Count(trades, Timeout) <= 1
      && Count(trades, TP) + Count(trades, SL) + Count(trades, Timeout) == |trades|
  {
    RunClosesOpenTrade(rows, levels);
    CountsPartition(Run(rows, levels));
  }

  /** The loop itself only ever closes a trade at its stop or its target. */
  lemma {:induction false} ScanNoTimeout(rows: seq<Row>, levels: seq<Level>, k: nat)
    requires 1 <= k <= |rows|
    ensures forall j :: 0 <= j < |Scan(rows, levels, k).trades| ==> Scan(rows, levels, k).trades[j].result != Timeout
  {
    if k > 1 {
      ScanNoTimeout(rows, levels, k - 1);
    }
  }

  /**
   * After the loop, a trade still open is closed as TIMEOUT at the last bar's
   * timestamp and close and appended after the loop's trades; with no open trade
   * the loop's trades are returned as they are and none of them is a timeout.
   */
  lemma RunClosesOpenTrade(rows: seq<Row>, levels: seq<Level>)
    ensures |rows| == 0 ==> Run(rows, levels) == []
    ensures |rows| > 0 ==>
      var st := Scan(rows, levels, |rows|);
      var last := rows[|rows| - 1].bar;
      && (st.active.Some? ==>
            && Run(rows, levels) == st.trades + [Close(st.active.value, last.time, last.close, Timeout)]
            && Count(Run(rows, levels), Timeout) == 1)
      && (st.active.None? ==> Run(rows, levels) == st.trades && Count(Run(rows, levels), Timeout) == 0)
  {
    if |rows| > 0 {
      var st := Scan(rows, levels, |rows|);
      ScanNoTimeout(rows, levels, |rows|);
      CountNoneOfKind(st.trades, Timeout);
      if st.active.Some? {
        var last := rows[|rows| - 1].bar;
        CountAppend(st.trades, Close(st.active.value, last.time, last.close, Timeout), Timeout);
      }
    }
  }

  lemma {:induction false} CountAppend(trades: seq<Trade>, t: Trade, o: Outcome)
    ensures Count(trades + [t], o) == Count(trades, o) + (if t.result == o then 1 else 0)
  {
    if |trades| > 0 {
      CountAppend(trades[1..], t, o);
      assert (trades + [t])[1..] == trades[1..] + [t];
    }
  }
}

/**
 * `detect_wicks` (the three-bar local high/low rule) and `filter_range` (the
 * inclusive timestamp window) of the hourly wick script.
 */
module Wicks {
  import opened Candles

  datatype WickType = HighWick | LowWick

  /** One wick record: the bar's timestamp, the wick's type and the extreme price. */
  datatype Wick = Wick(time: int, kind: WickType, value: real)

  /** Bar i's high is strictly above both neighbours' highs. */
  predicate IsHighWick(bars: seq<Candle>, i: nat)
    requires 1 <= i < |bars| - 1
  {
    bars[i].high > bars[i - 1].high && bars[i].high > bars[i + 1].high
  }

  /** Bar i's low is strictly below both neighbours' lows. */
  predicate IsLowWick(bars: seq<Candle>, i: nat)
    requires 1 <= i < |bars| - 1
  {
    bars[i].low < bars[i - 1].low && bars[i].low < bars[i + 1].low
  }

  /** The records of one loop iteration: the high record first, then the low one. */
  function AtBar(bars: seq<Candle>, i: nat): (ws: seq<Wick>)
    requires 1 <= i < |bars| - 1
  {
    (if IsHighWick(bars, i) then [Wick(bars[i].time, HighWick, bars[i].high)] else [])
    + (if IsLowWick(bars, i) then [Wick(bars[i].time, LowWick, bars[i].low)] else [])
  }

  /** The loop over bars i..n-2. */
  function DetectFrom(bars: seq<Candle>, i: nat): (ws: seq<Wick>)
    requires 1 <= i
    decreases |bars| - i
  {
    if i + 1 >= |bars| then []
    else AtBar(bars, i) + DetectFrom(bars, i + 1)
  }

  /** `detect_wicks`. */
  function Detect(bars: seq<Candle>): seq<Wick> {
    DetectFrom(bars, 1)
  }

  /** Position of a record's bar, for stating where each record came from. */
  lemma {:induction false} DetectFromExactly(bars: seq<Candle>, i: nat)
    requires 1 <= i
    ensures forall w :: w in DetectFrom(bars, i) <==> exists j :: i <= j < |bars| - 1 && w in AtBar(bars, j)
    decreases |bars| - i
  {
    if i + 1 < |bars| {
      DetectFromExactly(bars, i + 1);
      var here := AtBar(bars, i);
      var rest := DetectFrom(bars, i + 1);
      assert DetectFrom(bars, i) == here + rest;
      forall w | w in here + rest
        ensures exists j :: i <= j < |bars| - 1 && w in AtBar(bars, j)
      {
        if w in here {
          assert i <= i < |bars| - 1 && w in AtBar(bars, i);
        }
      }
      forall w, j | i <= j < |bars| - 1 && w in AtBar(bars, j)
        ensures w in here + rest
      {
        if j > i {
          assert w in rest;
        }
      }
    }
  }

  /**
   * A high record for bar j is emitted exactly when bar j is interior and its high
   * is strictly above both neighbours'; a low record exactly when its low is
   * strictly below both. Nothing else is emitted, so fewer than 3 bars give nothing.
   */
  lemma DetectExactly(bars: seq<Candle>)
    ensures forall w :: w in Detect(bars) <==> exists j :: 1 <= j < |bars| - 1 && w in AtBar(bars, j)
    ensures forall j :: 1 <= j < |bars| - 1 ==>
      (Wick(bars[j].time, HighWick, bars[j].high) in Detect(bars) <== IsHighWick(bars, j)) &&
      (Wick(bars[j].time, LowWick, bars[j].low) in Detect(bars) <== IsLowWick(bars, j))
    ensures |bars| < 3 ==> Detect(bars) == []
  {
    DetectFromExactly(bars, 1);
    forall j | 1 <= j < |bars| - 1
      ensures IsHighWick(bars, j) ==> Wick(bars[j].time, HighWick, bars[j].high) in Detect(bars)
      ensures IsLowWick(bars, j) ==> Wick(bars[j].time, LowWick, bars[j].low) in Detect(bars)
    {
      if IsHighWick(bars, j) {
        assert Wick(bars[j].time, HighWick, bars[j].high) in AtBar(bars, j);
      }
      if IsLowWick(bars, j) {
        assert Wick(bars[j].time, LowWick, bars[j].low) in AtBar(bars, j);
      }
    }
  }

  /** Record w describes interior bar j: its timestamp, and the extreme its type names, strictly beyond both neighbours. */
  ghost predicate Describes(bars: seq<Candle>, w: Wick, j: int) {
    && 1 <= j < |bars| - 1
    && bars[j].time == w.time
    && (w.kind == HighWick ==> IsHighWick(bars, j) && w.value == bars[j].high)
    && (w.kind == LowWick ==> IsLowWick(bars, j) && w.value == bars[j].low)
  }

  /** Every record is a genuine wick of some interior bar. */
  lemma RecordsAreWicks(bars: seq<Candle>, w: Wick)
    requires w in Detect(bars)
    ensures exists j :: Describes(bars, w, j)
  {
    DetectExactly(bars);
    var j :| 1 <= j < |bars| - 1 && w in AtBar(bars, j);
    assert Describes(bars, w, j);
  }

  /** Two neighbouring bars are never both high wicks, nor both low wicks. */
  lemma NoAdjacentWicks(bars: seq<Candle>, i: nat)
    requires 1 <= i && i + 1 < |bars| - 1
    ensures !(IsHighWick(bars, i) && IsHighWick(bars, i + 1))
    ensures !(IsLowWick(bars, i) && IsLowWick(bars, i + 1))
  {
  }

  /** Record timestamps never decrease; two records share one only when they are a bar's high then low. */
  ghost predicate InBarOrder(ws: seq<Wick>) {
    forall a, b :: 0 <= a < b < |ws| ==>
      ws[a].time < ws[b].time || (b == a + 1 && ws[a].time == ws[b].time && ws[a].kind == HighWick && ws[b].kind == LowWick)
  }

  /** Records of one bar followed by records of strictly later bars stay in bar order. */
  lemma OrderedPrepend(here: seq<Wick>, rest: seq<Wick>, t: int)
    requires InBarOrder(here) && InBarOrder(rest)
    requires forall a :: 0 <= a < |here| ==> here[a].time == t
    requires forall a :: 0 <= a < |rest| ==> t < rest[a].time
    ensures InBarOrder(here + rest)
    ensures forall a :: 0 <= a < |here + rest| ==> t <= (here + rest)[a].time
  {
    var ws := here + rest;
    forall a, b | 0 <= a < b < |ws|
      ensures ws[a].time < ws[b].time || (b == a + 1 && ws[a].time == ws[b].time && ws[a].kind == HighWick && ws[b].kind == LowWick)
    {
      if b < |here| {
        assert ws[a] == here[a] && ws[b] == here[b];
      } else if a >= |here| {
        assert ws[a] == rest[a - |here|] && ws[b] == rest[b - |here|];
      } else {
        assert ws[a] == here[a] && ws[b] == rest[b - |here|];
      }
    }
    forall a | 0 <= a < |ws|
      ensures t <= ws[a].time
    {
      if a < |here| {
        assert ws[a] == here[a];
      } else {
        assert ws[a] == rest[a - |here|];
      }
    }
  }

  lemma {:induction false} DetectFromOrdered(bars: seq<Candle>, i: nat)
    requires 1 <= i && TimesIncreasing(bars)
    ensures InBarOrder(DetectFrom(bars, i))
    ensures forall a :: 0 <= a < |DetectFrom(bars, i)| ==> i < |bars| && bars[i].time <= DetectFrom(bars, i)[a].time
    decreases |bars| - i
  {
    if i + 1 < |bars| {
      DetectFromOrdered(bars, i + 1);
      var here := AtBar(bars, i);
      var rest := DetectFrom(bars, i + 1);
      assert forall a :: 0 <= a < |rest| ==> bars[i].time < rest[a].time by {
        assert bars[i].time < bars[i + 1].time;
      }
      assert InBarOrder(here);
      OrderedPrepend(here, rest, bars[i].time);
    }
  }

  /** The records come out in bar order, a bar's high record before its low record. */
  lemma DetectOrdered(bars: seq<Candle>)
    requires TimesIncreasing(bars)
    ensures InBarOrder(Detect(bars))
  {
    DetectFromOrdered(bars, 1);
  }

  // ----- filter_range -----

  predicate InRange(c: Candle, start: int, end: int) {
    start <= c.time <= end
  }

  /** The rows whose timestamp lies in [start, end], both ends included, in their original order. */
  function FilterRange(bars: seq<Candle>, start: int, end: int): (r: seq<Candle>)
    ensures |r| <= |bars|
    ensures forall c :: c in r <==> c in bars && InRange(c, start, end)
  {
    if |bars| == 0 then []
    else (if InRange(bars[0], start, end) then [bars[0]] else []) + FilterRange(bars[1..], start, end)
  }

  /** Filtering a concatenation filters each part and keeps them in order, so relative order is preserved. */
  lemma {:induction false} FilterRangeAppend(a: seq<Candle>, b: seq<Candle>, start: int, end: int)
    ensures FilterRange(a + b, start, end) == FilterRange(a, start, end) + FilterRange(b, start, end)
  {
    if |a| > 0 {
      FilterRangeAppend(a[1..], b, start, end);
      assert (a + b)[1..] == a[1..] + b;
    } else {
      assert a + b == b;
    }
  }

  /** Filtering twice is filtering once. */
  lemma {:induction false} FilterRangeIdempotent(bars: seq<Candle>, start: int, end: int)
    ensures FilterRange(FilterRange(bars, start, end), start, end) == FilterRange(bars, start, end)
  {
    if |bars| > 0 {
      FilterRangeIdempotent(bars[1..], start, end);
      var rest := FilterRange(bars[1..], start, end);
      var r := FilterRange(bars, start, end);
      if InRange(bars[0], start, end) {
        assert r == [bars[0]] + rest;
        assert r[1..] == rest;
      } else {
        assert r == rest;
      }
    }
  }

  lemma SortedCons(x: Candle, rest: seq<Candle>)
    requires TimesSorted(rest)
    requires forall c :: c in rest ==> x.time <= c.time
    ensures TimesSorted([x] + rest)
  {
    var r := [x] + rest;
    forall i, j | 0 <= i < j < |r|
      ensures r[i].time <= r[j].time
    {
      assert r[j] == rest[j - 1] && r[j] in rest;
      if i > 0 {
        assert r[i] == rest[i - 1];
      }
    }
  }

  /** Every row of a time-sorted series survives or not by its timestamp alone; the result stays sorted. */
  lemma {:induction false} FilterRangeSorted(bars: seq<Candle>, start: int, end: int)
    requires TimesSorted(bars)
    ensures TimesSorted(FilterRange(bars, start, end))
  {
    if |bars| > 0 {
      var tail := bars[1..];
      assert TimesSorted(tail) by {
        forall i, j | 0 <= i < j < |tail|
          ensures tail[i].time <= tail[j].time
        {
          assert tail[i] == bars[i + 1] && tail[j] == bars[j + 1];
        }
      }
      FilterRangeSorted(tail, start, end);
      var rest := FilterRange(tail, start, end);
      forall c | c in rest
        ensures bars[0].time <= c.time
      {
        var k :| 0 <= k < |tail| && tail[k] == c;
        assert bars[k + 1] == c;
      }
      if InRange(bars[0], start, end) {
        SortedCons(bars[0], rest);
      }
    }
  }
}

/** Price bars as the trading scripts read them from their CSV files. */
module Candles {

  /** One OHLC bar. `time` stands for the row's UTC timestamp; volume is never used. */
  datatype Candle = Candle(time: int, open: real, high: real, low: real, close: real)

  /** Timestamps strictly increase along the series (what the loaders' sort gives for distinct rows). */
  ghost predicate TimesIncreasing(bars: seq<Candle>) {
    forall i, j :: 0 <= i < j < |bars| ==> bars[i].time < bars[j].time
  }

  /** Timestamps never decrease along the series. */
  ghost predicate TimesSorted(bars: seq<Candle>) {
    forall i, j :: 0 <= i < j < |bars| ==> bars[i].time <= bars[j].time
  }

  function Abs(x: real): (r: real)
    ensures r >= 0.0 && (r == x || r == -x)
  {
    if x < 0.0 then -x else x
  }
}

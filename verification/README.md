# Trading-script and game-rule cores, modelled in Dafny

This project models the parts of a collection of Python scripts that are
deterministic and precise once their loaders, plots and console I/O are removed.
Each part is a pure function over its input: the trading parts over a sequence
of candles, the game over the lines the player types and the computer's picks. A
candle has a time, an open, a high, a low and a close; prices are `real` and
timestamps are `int`.

- **MACD swing levels and breakout backtest** (`Testing/trading/MACD_Strategy_Test.py`).
  - The true range and the ATR(14) column come first.
  - The bars are then split into runs of constant `hist > 0`. Each run of at
    least three bars emits one level: a MACD high at the run's highest high, or a
    MACD low at its lowest low, at the first bar that reaches it.
  - The backtest folds over the bars with an explicit state: the current high and
    low levels, the open trade if any, and the closed trades.
    - It enters on a strict close crossing of a level.
    - The bracket is ±2 ATR, and the stop is checked before the target.
    - A trade still open at the end is closed as a timeout.
    - Each trade gets a pips figure, and the run gets a win rate.
- **Engulfing detector with next-bar confirmation** (`Testing/trading/custom_engulfing_noheader.py`).
  It checks each interior bar against its neighbours and then computes the
  success-rate summary.
- **Three-bar wick detector and inclusive time filter** (`Testing/trading/eurusd_1h_wick_detector.py`).
- **Rock-paper-scissors** (`Python_Codes/Rock_Paper_Scissors_Game.py`).
  - `process_input` is modelled, including Python's `int()` on a string.
  - The accepted entries, the three-way round decision and the first-to-five loop
    are modelled. The computer's pick is an input.

Modules:

| module | file |
|---|---|
| `Wrappers` | `wrappers.dfy` |
| `Ratios` | `ratios.dfy` |
| `Candles` | `candles.dfy` |
| `Indicators` | `indicators.dfy` |
| `Segmenter` | `segmenter.dfy` |
| `Backtest` | `backtest.dfy` |
| `Engulfing` | `engulfing.dfy` |
| `Wicks` | `wicks.dfy` |
| `PyInt` | `pyint.dfy` |
| `RockPaperScissors` | `rps.dfy` |

Behaviour kept as written:

- **The segmenter never covers the last bar.** The change indices get the
  position of the last row appended, and the segments are half-open. So the last
  bar belongs to no segment, and a run that ends there is one bar shorter than it
  looks (`Segmenter.SegmentsTile`).
- **Breakouts are strict.** A buy needs `prev.close < high < close`. A close
  exactly at the level does not enter.
- **A histogram value of exactly zero counts as "not above zero".** Such a bar
  lands in a MACD-low run.
- **`int()` caps the number of digits.** CPython refuses to convert a decimal
  string of more than 4300 digits, so such a line is kept as text and then
  rejected as a choice (`PyInt.ParseShow`, `RockPaperScissors.ProcessInputShow`).

## Model

| member | source | states |
|---|---|---|
| Indicators.TrueRange | Testing/trading/MACD_Strategy_Test.py:84-87 | The true range is at least the bar's span and both gaps to the previous close, equals one of the three, and is never negative. |
| Indicators.AtrDefinedIff | Testing/trading/MACD_Strategy_Test.py:84-88 | The ATR at row i is defined exactly when i >= period. Row 0 has no previous close, so the first complete window ends at row `period`. |
| Indicators.AtrWithinWindow | Testing/trading/MACD_Strategy_Test.py:88 | A defined ATR is the mean of its window. It lies between any lower and any upper bound of that window's true ranges. |
| Indicators.AtrNonNegative | Testing/trading/MACD_Strategy_Test.py:84-88 | Every defined ATR value is non-negative. |
| Indicators.Annotate | Testing/trading/MACD_Strategy_Test.py:82-89 | The indicator frame keeps each bar and its histogram value. A row's ATR is missing exactly for the first `period` rows and is never negative after them. |
| Segmenter.ChangesFrom | Testing/trading/MACD_Strategy_Test.py:100-102 | The change indices are increasing and in range. An index is listed exactly when the `hist > 0` flag differs from the previous row's, and row 0 always counts as a change. |
| Segmenter.Boundaries | Testing/trading/MACD_Strategy_Test.py:102-106 | The boundaries start at 0, end at the last row and increase. An interior row is a boundary exactly when the zone changes there. |
| Segmenter.Segments | Testing/trading/MACD_Strategy_Test.py:102-112 | There are no segments exactly when there are at most one row. Otherwise the segments start at row 0, end at the last row exclusive, are non-empty and are contiguous. |
| Segmenter.SegmentsTile | Testing/trading/MACD_Strategy_Test.py:102-112 | Every row but the last lies in exactly one segment, and the last row lies in none. |
| Segmenter.SegmentsUniform | Testing/trading/MACD_Strategy_Test.py:100-112 | Every row of a segment has the same `hist > 0` flag as the segment's first row. |
| Segmenter.SegmentsMaximal | Testing/trading/MACD_Strategy_Test.py:100-112 | Each segment starts at row 0 or at a zone change, and ends at a zone change or at the last row, so no segment is cut inside a run except by the final sentinel. |
| Segmenter.ZeroHistogramIsLow | Testing/trading/MACD_Strategy_Test.py:100-123 | A segment whose first histogram value is exactly 0 emits a MACD low. |
| Segmenter.FirstMaxHigh | Testing/trading/MACD_Strategy_Test.py:117 | `idxmax`: the position holds the segment's largest high, and every earlier position in the segment has a strictly smaller one. |
| Segmenter.FirstMinLow | Testing/trading/MACD_Strategy_Test.py:121 | `idxmin`: the position holds the segment's smallest low, and every earlier position has a strictly larger one. |
| Segmenter.LevelOf | Testing/trading/MACD_Strategy_Test.py:115-123 | The level is a high exactly when the first row is above zero. A high is the segment's maximum high at its first occurrence, with that bar's time; a low is the minimum low likewise. |
| Segmenter.DetectExactly | Testing/trading/MACD_Strategy_Test.py:109-123 | A level is emitted exactly when it is the level of some segment with at least MIN_SEGMENT_LEN rows. Shorter segments emit nothing, and a segment of exactly three rows is kept. |
| Segmenter.DetectEmptyIff | Testing/trading/MACD_Strategy_Test.py:109-114 | No level is emitted exactly when every segment is shorter than MIN_SEGMENT_LEN. |
| Segmenter.DetectChronological | Testing/trading/MACD_Strategy_Test.py:109-124 | With strictly increasing bar times, the emitted levels have strictly increasing times. |
| Backtest.LevelAt | Testing/trading/MACD_Strategy_Test.py:142-155 | The lookup finds nothing exactly when no level has that timestamp. Otherwise it returns the last level in list order with that timestamp, because later entries overwrite earlier ones. |
| Backtest.StepTracksLevels | Testing/trading/MACD_Strategy_Test.py:153-159 | A level at the bar's timestamp replaces the current level of its kind, even while a trade is open. Otherwise the current levels stay. |
| Backtest.StepWhileOpen | Testing/trading/MACD_Strategy_Test.py:162-192 | While a trade is open, no entry is evaluated. The iteration either keeps the trade and the closed list unchanged, or closes that trade at this bar and appends it. |
| Backtest.StopBeforeTarget | Testing/trading/MACD_Strategy_Test.py:164-184 | When the bar touches the stop, the trade closes as SL at the stop price, even if the bar also reaches the target. |
| Backtest.TargetWithoutStop | Testing/trading/MACD_Strategy_Test.py:172-190 | Without a stop touch, the trade closes as TP at the target price exactly when the bar reaches the target, and otherwise stays open. |
| Backtest.EntryRule | Testing/trading/MACD_Strategy_Test.py:194-232 | With no trade open, the iteration closes nothing. It opens a buy exactly when the ATR is defined and the close strictly crosses the high. Otherwise it opens a sell exactly when the ATR is defined and the close strictly crosses the low. The entry is at the close with the bracket of `Open`. |
| Backtest.Open | Testing/trading/MACD_Strategy_Test.py:199-231 | The entry is the bar's close at the bar's time. The bracket is symmetric (`tp - entry == entry - sl`), and its reward is ATR_MULT times the ATR. |
| Backtest.ScenarioBuyStoppedOut | Testing/trading/MACD_Strategy_Test.py:164-203 | A buy at 1.1050 with ATR 0.0010 gets stop 1.1030 and target 1.1070. A bar with low 1.1025 closes it as SL at 1.1030 for -20 pips. |
| Backtest.RunWellFormed | Testing/trading/MACD_Strategy_Test.py:148-249 | Trades do not overlap: each exits before the next one enters. Exit prices are the touched level and pips are measured from them. Every trade but the last closed by SL or TP after its entry bar. A TIMEOUT trade is the last one, closed at the final bar's time and close. |
| Backtest.PipsOfExit | Testing/trading/MACD_Strategy_Test.py:243-249 | A TP trade earns exactly the bracket's reward in pips, and an SL trade loses exactly that. |
| Backtest.RunConsistent | Testing/trading/MACD_Strategy_Test.py:194-249 | For any bar times, repeated timestamps included, every trade has a symmetric bracket and pips measured from its exit price. |
| Backtest.RunPipsSigns | Testing/trading/MACD_Strategy_Test.py:194-249 | When ATRs are non-negative, every TP trade has non-negative pips and every SL trade has non-positive pips, for any bar times. |
| Backtest.StrategyPipsSigns | Testing/trading/MACD_Strategy_Test.py:82-249 | The whole pipeline (ATR, levels, backtest) gives TP trades with non-negative pips and SL trades with non-positive pips, for any bar times. |
| Backtest.RunClosesOpenTrade | Testing/trading/MACD_Strategy_Test.py:234-241 | A trade still open after the loop is appended last as the only TIMEOUT, at the final bar's time and close. With no open trade the loop's trades come back unchanged and none is a TIMEOUT. |
| Backtest.RunCounts | Testing/trading/MACD_Strategy_Test.py:234-259 | For any bar times, there is at most one TIMEOUT trade, and the wins, losses and timeouts add up to all trades. |
| Backtest.WinRate | Testing/trading/MACD_Strategy_Test.py:256-260 | The win rate lies in [0, 100]. It is 0 exactly when there is no TP, and 100 exactly when there is a TP and no SL. |
| Engulfing.NeverBoth | Testing/trading/custom_engulfing_noheader.py:35-54 | No bar is both bullish and bearish engulfing. |
| Engulfing.BullishConfirmed | Testing/trading/custom_engulfing_noheader.py:36-44 | A bullish detection is confirmed exactly when the next high breaks the engulfing high, and either the next low does not break the engulfing low or the next open is strictly nearer the high. |
| Engulfing.BearishConfirmed | Testing/trading/custom_engulfing_noheader.py:55-63 | This is the mirror rule: the low must break, and either the high does not break or the open is strictly nearer the low. |
| Engulfing.UnbrokenIsUnconfirmed | Testing/trading/custom_engulfing_noheader.py:36-63 | When the next bar breaks neither side, neither pattern is confirmed. |
| Engulfing.Detect | Testing/trading/custom_engulfing_noheader.py:28-29 | With fewer than 3 bars there are no detections, and there are never more than n-2. |
| Engulfing.DetectExactly | Testing/trading/custom_engulfing_noheader.py:29-70 | A detection is reported exactly when an interior bar 1..n-2 calls for it. A bullish bar j gives a row with its time, high, low and bullish confirmation by bar j+1, and a bearish bar the mirror row. Every such row is reported, and nothing else is. |
| Engulfing.DetectChronological | Testing/trading/custom_engulfing_noheader.py:29-71 | With strictly increasing bar times, detection times strictly increase. |
| Ratios.Percent | Testing/trading/custom_engulfing_noheader.py:83 | A percentage of a part in a non-empty whole lies in [0, 100]. It is 0 exactly when the part is 0, and 100 exactly when the part is the whole. |
| Engulfing.Rate | Testing/trading/custom_engulfing_noheader.py:83-87 | A rate lies in [0, 100]. It is 0 when the total is 0 or nothing is confirmed, and 100 exactly when the total is positive and everything is confirmed. |
| Engulfing.Summarize | Testing/trading/custom_engulfing_noheader.py:75-87 | The bullish and bearish totals partition the detections, and each confirmed count is the number of confirmed detections of that pattern, never more than its total. Each rate is its confirmed count over its total, and the overall rate is all confirmed over all detections. All rates lie in [0, 100], and a rate with a zero total is 0. |
| Engulfing.SummaryExistsIff | Testing/trading/custom_engulfing_noheader.py:71-76 | The script as written produces a summary exactly when some interior bar engulfs its predecessor, bullish or bearish. |
| Engulfing.NoDetectionsNoSummary | Testing/trading/custom_engulfing_noheader.py:71-87 | Bars with no engulfing give no detections and no summary as written, while the corrected summary is all zeros. |
| Wicks.DetectExactly | Testing/trading/eurusd_1h_wick_detector.py:82-88 | A record is emitted exactly when an interior bar 1..n-2 produces it. Every strict local high or low is recorded, and fewer than 3 bars give none. |
| Wicks.RecordsAreWicks | Testing/trading/eurusd_1h_wick_detector.py:82-86 | Every record describes an interior bar. A high record's bar has a high strictly above both neighbours', and a low record's bar has a low strictly below both. |
| Wicks.NoAdjacentWicks | Testing/trading/eurusd_1h_wick_detector.py:83-85 | Two adjacent bars are never both high wicks, nor both low wicks. |
| Wicks.DetectOrdered | Testing/trading/eurusd_1h_wick_detector.py:82-86 | With strictly increasing bar times, record times never decrease. Two records share a time only when a bar's high record is immediately followed by its low record. |
| Wicks.FilterRange | Testing/trading/eurusd_1h_wick_detector.py:91-94 | A candle is kept exactly when it is in the input and `start <= time <= end`, both ends inclusive. |
| Wicks.FilterRangeAppend | Testing/trading/eurusd_1h_wick_detector.py:94 | The filter distributes over concatenation, so it keeps the input order. |
| Wicks.FilterRangeIdempotent | Testing/trading/eurusd_1h_wick_detector.py:94 | Filtering twice with the same range is filtering once. |
| Wicks.FilterRangeSorted | Testing/trading/eurusd_1h_wick_detector.py:93-94 | A time-sorted input gives a time-sorted output. |
| PyInt.ParseShow | Python_Codes/Rock_Paper_Scissors_Game.py:9 | `int()` reads back the decimal spelling of every integer of at most 4300 digits, and raises ValueError on a longer one. |
| PyInt.ShowNatFits | Python_Codes/Rock_Paper_Scissors_Game.py:9 | The decimal spelling of n has at most k digits exactly when n < 10^k, so the digit cap admits exactly the magnitudes below 10^4300. |
| PyInt.ParsePadded | Python_Codes/Rock_Paper_Scissors_Game.py:9 | Blanks around the decimal spelling of any natural number are ignored. It reads as that number within the digit cap and is rejected beyond it. |
| PyInt.ParseBlank | Python_Codes/Rock_Paper_Scissors_Game.py:9-12 | A line of blanks only, the empty line included, raises ValueError. |
| PyInt.ParseWord | Python_Codes/Rock_Paper_Scissors_Game.py:9-12 | A word that starts with neither a digit nor a sign raises ValueError. |
| PyInt.ParseGroup | Python_Codes/Rock_Paper_Scissors_Game.py:9 | Surrounding blanks are ignored. An underscore-grouped digit string reads as its value when it has at most 4300 digits, underscores not counted, and is rejected otherwise. |
| PyInt.ParseSigned | Python_Codes/Rock_Paper_Scissors_Game.py:9 | A leading sign is accepted and '-' negates, under the same digit cap. |
| RockPaperScissors.ProcessInputShow | Python_Codes/Rock_Paper_Scissors_Game.py:6-12 | A typed integer comes back as that integer when its spelling has at most 4300 digits; a longer spelling comes back as the line itself. |
| RockPaperScissors.ProcessInputWord | Python_Codes/Rock_Paper_Scissors_Game.py:6-12 | A word that starts with neither a digit nor a sign comes back unchanged as text. |
| PyInt.ParseGroupOnly | Python_Codes/Rock_Paper_Scissors_Game.py:9 | A string that starts and ends with a digit is accepted exactly when it is a well-formed underscore grouping within the digit cap. |
| RockPaperScissors.AcceptedIff | Python_Codes/Rock_Paper_Scissors_Game.py:15-32 | An entry is accepted exactly when it is a choice's word or its index 0, 1 or 2. |
| RockPaperScissors.DecideByCycle | Python_Codes/Rock_Paper_Scissors_Game.py:35-68 | For accepted entries ERROR is unreachable. Equal choices draw, the user wins exactly when their choice is one step ahead in the cycle rock, paper, scissors, and the computer wins when it is two steps ahead. |
| RockPaperScissors.ConditionsExclusive | Python_Codes/Rock_Paper_Scissors_Game.py:35-60 | For an accepted entry, exactly one of the draw, win and loss conditions holds. |
| RockPaperScissors.DecideAntisymmetric | Python_Codes/Rock_Paper_Scissors_Game.py:35-60 | Swapping user and computer swaps a user win into a computer win, and the same word on both sides draws. |
| RockPaperScissors.Round | Python_Codes/Rock_Paper_Scissors_Game.py:32-71 | A rejected entry leaves the score unchanged, and otherwise at most one score rises, by 1. |
| RockPaperScissors.RoundByVerdict | Python_Codes/Rock_Paper_Scissors_Game.py:45-66 | On an accepted entry the user's score rises exactly on a win and the computer's exactly on a loss. |
| RockPaperScissors.Play | Python_Codes/Rock_Paper_Scissors_Game.py:27-31 | A game that starts finished reads no line, the loop never reads more lines than there are, and it stops before they run out only when a score is five. |
| RockPaperScissors.PlayStopsAtFive | Python_Codes/Rock_Paper_Scissors_Game.py:27-31 | Before each line the loop reads, the game on the lines read so far has no score of five, so it stops at the first line after which a score is five. |
| RockPaperScissors.PlayReadsOnlyConsumed | Python_Codes/Rock_Paper_Scissors_Game.py:27-31 | The game on just the lines the loop read is the same game: no later line affects it. |
| RockPaperScissors.PlayReachable | Python_Codes/Rock_Paper_Scissors_Game.py:27-61 | Scores never decrease, never pass five, and are never both five. |
| RockPaperScissors.PlayCountsDecisive | Python_Codes/Rock_Paper_Scissors_Game.py:35-66 | The points scored equal the rounds somebody won, and they are at most the lines read. |
| RockPaperScissors.GameOutcome | Python_Codes/Rock_Paper_Scissors_Game.py:27-75 | A finished game from 0-0 has exactly one side at five, and that side is announced. Between five and nine rounds were decisive. |
| RockPaperScissors.NumbersAndWordsAgree | Python_Codes/Rock_Paper_Scissors_Game.py:15-32 | Typing a choice's index is the same move as typing its word. |
| RockPaperScissors.SeparatorLineRejected | Python_Codes/Rock_Paper_Scissors_Game.py:6-71 | A digit after a file separator 0x1c stays text, because `int()` does not skip that character. The line is rejected and the score stays. |
| PyInt.ParseSeparatorKept | Python_Codes/Rock_Paper_Scissors_Game.py:9 | `int()` raises ValueError on a file separator 0x1c followed by a digit. |
| RockPaperScissors.CapitalisedWordRejected | Python_Codes/Rock_Paper_Scissors_Game.py:31-71 | Words are compared as typed, so "Rock" is rejected and the score stays. |

## Left out

- CSV loading, column normalisation, datetime parsing, `dropna` and all CSV writing are left out. These are file I/O plus pandas parsing behaviour.
- `compute_macd_histogram` is left out. Its pandas `ewm` smoothing is floating-point library code, so the histogram values are an input sequence.
- Plotting, printing and `print_stats`' output are left out; only its win-rate rule is modelled.
- Volume and the other unused columns are not part of `Candle`.
- Floating point is left out. Prices are exact reals, so rounding in the ATR mean, the bracket and the pips is not modelled.
- Indicators.Atr requires `period >= 1`. The script's only call passes ATR_PERIOD = 14 (MACD_Strategy_Test.py:283), so the behaviour of a zero window is not modelled.
- `filter_range`'s `sort_index` is not modelled. The loader already returns time-sorted bars, and Wicks.FilterRangeSorted states what the filter does with them.
- Wicks.FilterRange: `start` and `end` are integer timestamps. Time-zone handling of `pd.Timestamp` is left out.
- PyInt.ParseInt uses CPython's default digit cap of 4300. The cap can be changed with `sys.set_int_max_str_digits` or `PYTHONINTMAXSTRDIGITS`, and Python versions before 3.11 have no cap; neither is modelled.
- PyInt.ParseInt handles only ASCII. Python's `int()` also accepts non-ASCII digits and Unicode whitespace. Among ASCII characters it skips only space and tab..carriage return, as the model does.
- RockPaperScissors.Play: the computer's random pick is a parameter of each turn, and `time.sleep` and colours are left out. When the input lines run out the model stops, whereas the script would end with an EOFError.
- Levels are compared by timestamp only, the same as the script's `level_map`. Two bars with equal timestamps are not distinguished.

## Findings

| source | as written | input that shows it | evidently intended | confidence | as-written member | corrected member |
|---|---|---|---|---|---|---|
| Testing/trading/custom_engulfing_noheader.py:71-87 | The detections frame is built from an empty list when no bar engulfs. It then has no `pattern` column, so `df.pattern` raises AttributeError before any rate is computed. | Three bars of which the middle one neither sweeps below the previous low nor above the previous high (no engulfing anywhere) | A summary with zero counts and rates of 0, which the `if total > 0 else 0` guards are written for | high, not executed | Engulfing.SummarizeAsWritten (shown by Engulfing.NoDetectionsNoSummary and Engulfing.SummaryExistsIff) | Engulfing.Summarize |

/**
 * `detect_macd_highs_lows`: split the indicator frame into runs where the MACD
 * histogram stays above zero (or not), drop the short runs, and emit one swing
 * level per kept run.
 */
module Segmenter {
  import opened Candles
  import opened Indicators

  const MIN_SEGMENT_LEN: nat := 3

  datatype Kind = MacdHigh | MacdLow

  /** One row of the levels frame: its type, the timestamp of the bar it came from, and its price. */
  datatype Level = Level(kind: Kind, time: int, price: real)

  /** The half-open range of row positions start..end-1. */
  datatype Segment = Segment(start: nat, end: nat) {
    function Len(): int {
      end - start
    }
  }

  /** The `above_zero` column: a histogram value of exactly zero is not above zero. */
  predicate AboveZero(r: Row) {
    r.hist > 0.0
  }

  /**
   * The `zone_change` column: the flag differs from the one of the previous row.
   * Row 0 is compared with the missing shifted value and so always counts as a change.
   */
  predicate ZoneChange(rows: seq<Row>, j: nat)
    requires j < |rows|
  {
    j == 0 || AboveZero(rows[j]) != AboveZero(rows[j - 1])
  }

  predicate Increasing(xs: seq<nat>) {
    forall a, b :: 0 <= a < b < |xs| ==> xs[a] < xs[b]
  }

  ghost predicate RowTimesIncreasing(rows: seq<Row>) {
    forall i, j :: 0 <= i < j < |rows| ==> rows[i].bar.time < rows[j].bar.time
  }

  /** The change indices from position i on, in increasing order. */
  function ChangesFrom(rows: seq<Row>, i: nat): (c: seq<nat>)
    requires i <= |rows|
    ensures Increasing(c)
    ensures forall k :: 0 <= k < |c| ==> i <= c[k] < |rows|
    ensures forall j :: i <= j < |rows| ==> (j in c <==> ZoneChange(rows, j))
    decreases |rows| - i
  {
    if i == |rows| then []
    else (if ZoneChange(rows, i) then [i] else []) + ChangesFrom(rows, i + 1)
  }

  /**
   * `change_idxs` after its two fix-ups: 0 is put in front when missing, and the
   * position of the LAST row is appended when it is not already the final entry.
   */
  function Boundaries(rows: seq<Row>): (b: seq<nat>)
    requires |rows| >= 1
    ensures |b| >= 1 && b[0] == 0 && b[|b| - 1] == |rows| - 1
    ensures Increasing(b)
    ensures forall k :: 0 <= k < |b| ==> b[k] < |rows|
    ensures forall j :: 0 < j < |rows| - 1 ==> (j in b <==> ZoneChange(rows, j))
  {
    var c := ChangesFrom(rows, 0);
    var c1 := if 0 in c then c else [0] + c;
    if c1[|c1| - 1] != |rows| - 1 then c1 + [|rows| - 1] else c1
  }

  /**
   * The segments `iloc[s:e]` between consecutive boundaries. They tile the rows
   * 0..n-2 without gap or overlap; the last row is in none of them. (On an empty
   * frame the boundaries are [0, -1] and the one slice is empty.)
   */
  function Segments(rows: seq<Row>): (segs: seq<Segment>)
    ensures |segs| == 0 <==> |rows| <= 1
    ensures |segs| > 0 ==> segs[0].start == 0 && segs[|segs| - 1].end == |rows| - 1
    ensures forall k :: 0 <= k < |segs| ==> segs[k].start < segs[k].end < |rows|
    ensures forall k :: 0 <= k < |segs| - 1 ==> segs[k].end == segs[k + 1].start
  {
    if |rows| == 0 then []
    else
      var b := Boundaries(rows);
      seq(|b| - 1, k requires 0 <= k < |b| - 1 => Segment(b[k], b[k + 1]))
  }

  /** `idxmax` of the highs over start..end-1: the first position holding the largest high. */
  function FirstMaxHigh(rows: seq<Row>, start: nat, end: nat): (k: nat)
    requires start < end <= |rows|
    ensures start <= k < end
    ensures forall j :: start <= j < end ==> rows[j].bar.high <= rows[k].bar.high
    ensures forall j :: start <= j < k ==> rows[j].bar.high < rows[k].bar.high
    decreases end - start
  {
    if end - start == 1 then start
    else
      var k := FirstMaxHigh(rows, start, end - 1);
      if rows[end - 1].bar.high > rows[k].bar.high then end - 1 else k
  }

  /** `idxmin` of the lows over start..end-1: the first position holding the smallest low. */
  function FirstMinLow(rows: seq<Row>, start: nat, end: nat): (k: nat)
    requires start < end <= |rows|
    ensures start <= k < end
    ensures forall j :: start <= j < end ==> rows[k].bar.low <= rows[j].bar.low
    ensures forall j :: start <= j < k ==> rows[k].bar.low < rows[j].bar.low
    decreases end - start
  {
    if end - start == 1 then start
    else
      var k := FirstMinLow(rows, start, end - 1);
      if rows[end - 1].bar.low < rows[k].bar.low then end - 1 else k
  }

  /**
   * The level a segment emits: a MACD high at the segment's highest high when its
   * first row is above zero, otherwise a MACD low at its lowest low; in both cases
   * stamped with the first bar that attains the extreme.
   */
  function LevelOf(rows: seq<Row>, sg: Segment): (l: Level)
    requires sg.start < sg.end <= |rows|
    ensures l.kind == MacdHigh <==> AboveZero(rows[sg.start])
    ensures l.kind == MacdHigh ==>
      (forall j :: sg.start <= j < sg.end ==> rows[j].bar.high <= l.price) &&
      exists k :: sg.start <= k < sg.end && l.time == rows[k].bar.time && l.price == rows[k].bar.high &&
        forall j :: sg.start <= j < k ==> rows[j].bar.high < l.price
    ensures l.kind == MacdLow ==>
      (forall j :: sg.start <= j < sg.end ==> l.price <= rows[j].bar.low) &&
      exists k :: sg.start <= k < sg.end && l.time == rows[k].bar.time && l.price == rows[k].bar.low &&
        forall j :: sg.start <= j < k ==> l.price < rows[j].bar.low
  {
    if AboveZero(rows[sg.start]) then
      var k := FirstMaxHigh(rows, sg.start, sg.end);
      Level(MacdHigh, rows[k].bar.time, rows[k].bar.high)
    else
      var k := FirstMinLow(rows, sg.start, sg.end);
      Level(MacdLow, rows[k].bar.time, rows[k].bar.low)
  }

  ghost predicate WithinRows(rows: seq<Row>, segs: seq<Segment>) {
    forall k :: 0 <= k < |segs| ==> segs[k].start < segs[k].end <= |rows|
  }

  /** The levels of segments i.. in order, skipping those shorter than MIN_SEGMENT_LEN. */
  function KeepFrom(rows: seq<Row>, segs: seq<Segment>, i: nat): seq<Level>
    requires WithinRows(rows, segs) && i <= |segs|
    decreases |segs| - i
  {
    if i == |segs| then []
    else if segs[i].Len() < MIN_SEGMENT_LEN then KeepFrom(rows, segs, i + 1)
    else [LevelOf(rows, segs[i])] + KeepFrom(rows, segs, i + 1)
  }

  /** `detect_macd_highs_lows` over the whole frame. */
  function Detect(rows: seq<Row>): seq<Level> {
    KeepFrom(rows, Segments(rows), 0)
  }

  lemma BoundaryGap(b: seq<nat>, k: nat, j: nat)
    requires Increasing(b) && k + 1 < |b| && b[k] < j < b[k + 1]
    ensures j !in b
  {
    forall m | 0 <= m < |b|
      ensures b[m] != j
    {
      if m < k {
        assert b[m] < b[k];
      } else if m > k + 1 {
        assert b[k + 1] < b[m];
      }
    }
  }

  /** Without a zone change after row lo, every later row up to j is on lo's side of zero. */
  lemma {:induction false} NoChangeUniform(rows: seq<Row>, lo: nat, j: nat)
    requires lo <= j < |rows|
    requires forall m :: lo < m <= j ==> !ZoneChange(rows, m)
    ensures AboveZero(rows[j]) == AboveZero(rows[lo])
    decreases j
  {
    if j > lo {
      assert !ZoneChange(rows, j);
      NoChangeUniform(rows, lo, j - 1);
    }
  }

  /** Every row of a segment is on the same side of zero as the segment's first row. */
  lemma SegmentsUniform(rows: seq<Row>)
    ensures var segs := Segments(rows);
      forall k, j :: 0 <= k < |segs| && segs[k].start <= j < segs[k].end ==>
        AboveZero(rows[j]) == AboveZero(rows[segs[k].start])
  {
    var segs := Segments(rows);
    forall k, j | 0 <= k < |segs| && segs[k].start <= j < segs[k].end
      ensures AboveZero(rows[j]) == AboveZero(rows[segs[k].start])
    {
      var b := Boundaries(rows);
      assert segs[k] == Segment(b[k], b[k + 1]);
      forall m | b[k] < m <= j
        ensures !ZoneChange(rows, m)
      {
        BoundaryGap(b, k, m);
      }
      NoChangeUniform(rows, b[k], j);
    }
  }

  /**
   * Segments are maximal: each starts at row 0 or at a zone change, and each ends
   * at a zone change or at the last row (which the sentinel cuts off).
   */
  lemma SegmentsMaximal(rows: seq<Row>)
    ensures var segs := Segments(rows);
      forall k :: 0 <= k < |segs| ==>
        (segs[k].start == 0 || ZoneChange(rows, segs[k].start)) &&
        (segs[k].end == |rows| - 1 || ZoneChange(rows, segs[k].end))
  {
    var segs := Segments(rows);
    if |rows| > 0 {
      var b := Boundaries(rows);
      forall k | 0 <= k < |segs|
        ensures segs[k].start == 0 || ZoneChange(rows, segs[k].start)
        ensures segs[k].end == |rows| - 1 || ZoneChange(rows, segs[k].end)
      {
        assert segs[k] == Segment(b[k], b[k + 1]);
        assert b[k] in b && b[k + 1] in b;
      }
    }
  }

  /** A histogram value of exactly zero counts as not above zero, so its segment emits a MACD low. */
  lemma ZeroHistogramIsLow(rows: seq<Row>, sg: Segment)
    requires sg.start < sg.end <= |rows| && rows[sg.start].hist == 0.0
    ensures LevelOf(rows, sg).kind == MacdLow
  {
  }

  /** Every level KeepFrom emits is the level of a segment at or after i of at least MIN_SEGMENT_LEN rows. */
  lemma {:induction false} KeepFromSound(rows: seq<Row>, segs: seq<Segment>, i: nat)
    requires WithinRows(rows, segs) && i <= |segs|
    ensures forall l :: l in KeepFrom(rows, segs, i) ==>
      exists k :: i <= k < |segs| && segs[k].Len() >= MIN_SEGMENT_LEN && l == LevelOf(rows, segs[k])
    decreases |segs| - i
  {
    if i < |segs| {
      KeepFromSound(rows, segs, i + 1);
    }
  }

  /** Every segment at or after i of at least MIN_SEGMENT_LEN rows has its level in KeepFrom. */
  lemma {:induction false} KeepFromComplete(rows: seq<Row>, segs: seq<Segment>, i: nat)
    requires WithinRows(rows, segs) && i <= |segs|
    ensures forall k :: i <= k < |segs| && segs[k].Len() >= MIN_SEGMENT_LEN ==>
      LevelOf(rows, segs[k]) in KeepFrom(rows, segs, i)
    decreases |segs| - i
  {
    if i < |segs| {
      KeepFromComplete(rows, segs, i + 1);
    }
  }

  /**
   * The detected levels are exactly the levels of the segments with at least
   * MIN_SEGMENT_LEN rows: a shorter segment emits nothing, one of exactly that
   * length is kept.
   */
  lemma DetectExactly(rows: seq<Row>)
    ensures var segs := Segments(rows);
      forall l :: l in Detect(rows) <==>
        exists k :: 0 <= k < |segs| && segs[k].Len() >= MIN_SEGMENT_LEN && l == LevelOf(rows, segs[k])
  {
    var segs := Segments(rows);
    KeepFromSound(rows, segs, 0);
    KeepFromComplete(rows, segs, 0);
  }

  /** No level is detected exactly when every segment is shorter than MIN_SEGMENT_LEN. */
  lemma DetectEmptyIff(rows: seq<Row>)
    ensures var segs := Segments(rows);
      Detect(rows) == [] <==> forall k :: 0 <= k < |segs| ==> segs[k].Len() < MIN_SEGMENT_LEN
  {
    var segs := Segments(rows);
    KeepFromSound(rows, segs, 0);
    KeepFromComplete(rows, segs, 0);
    if Detect(rows) != [] {
      assert Detect(rows)[0] in Detect(rows);
    }
  }

  predicate Contiguous(segs: seq<Segment>) {
    forall k :: 0 <= k < |segs| - 1 ==> segs[k].end == segs[k + 1].start
  }

  predicate Covers(sg: Segment, j: nat) {
    sg.start <= j < sg.end
  }

  predicate InSomeSegment(segs: seq<Segment>, j: nat) {
    exists k :: 0 <= k < |segs| && Covers(segs[k], j)
  }

  lemma {:induction false} TilingReaches(segs: seq<Segment>, i: nat, j: nat)
    requires Contiguous(segs)
    requires i < |segs| && segs[i].start <= j < segs[|segs| - 1].end
    ensures exists k :: i <= k < |segs| && Covers(segs[k], j)
    decreases |segs| - i
  {
    if j >= segs[i].end {
      TilingReaches(segs, i + 1, j);
    } else {
      assert Covers(segs[i], j);
    }
  }

  /**
   * The segments partition the rows 0..n-2: each of those rows lies in exactly
   * one segment, and the last row lies in none.
   */
  lemma SegmentsTile(rows: seq<Row>)
    ensures var segs := Segments(rows);
      && (forall j: nat :: j < |rows| - 1 ==> InSomeSegment(segs, j))
      && (forall k1, k2, j :: 0 <= k1 < |segs| && 0 <= k2 < |segs| && Covers(segs[k1], j) && Covers(segs[k2], j) ==> k1 == k2)
      && (forall k :: 0 <= k < |segs| ==> !Covers(segs[k], |rows| - 1))
  {
    var segs := Segments(rows);
    forall j: nat | j < |rows| - 1
      ensures InSomeSegment(segs, j)
    {
      assert Contiguous(segs);
      TilingReaches(segs, 0, j);
    }
  }

  /** The level of a segment is stamped with the time of one of the segment's rows. */
  lemma LevelTimeInSegment(rows: seq<Row>, sg: Segment)
    requires sg.start < sg.end < |rows| && RowTimesIncreasing(rows)
    ensures rows[sg.start].bar.time <= LevelOf(rows, sg).time < rows[sg.end].bar.time
  {
    var l := LevelOf(rows, sg);
    var k :| sg.start <= k < sg.end && l.time == rows[k].bar.time;
    assert k == sg.start || rows[sg.start].bar.time < rows[k].bar.time;
  }

  /** Level timestamps strictly increase along the sequence. */
  ghost predicate Chronological(ls: seq<Level>) {
    forall a, b :: 0 <= a < b < |ls| ==> ls[a].time < ls[b].time
  }

  ghost predicate NotBefore(ls: seq<Level>, t: int) {
    forall a :: 0 <= a < |ls| ==> t <= ls[a].time
  }

  ghost predicate Chained(rows: seq<Row>, segs: seq<Segment>) {
    && (forall k :: 0 <= k < |segs| ==> segs[k].start < segs[k].end < |rows|)
    && (forall k :: 0 <= k < |segs| - 1 ==> segs[k].end <= segs[k + 1].start)
  }

  lemma {:induction false} KeepFromChronological(rows: seq<Row>, segs: seq<Segment>, i: nat)
    requires Chained(rows, segs) && RowTimesIncreasing(rows) && i <= |segs|
    ensures WithinRows(rows, segs)
    ensures Chronological(KeepFrom(rows, segs, i))
    ensures i < |segs| ==> NotBefore(KeepFrom(rows, segs, i), rows[segs[i].start].bar.time)
    decreases |segs| - i
  {
    if i < |segs| {
      KeepFromChronological(rows, segs, i + 1);
      var rest := KeepFrom(rows, segs, i + 1);
      var t0 := rows[segs[i].start].bar.time;
      if i + 1 < |segs| {
        var t1 := rows[segs[i + 1].start].bar.time;
        assert rows[segs[i].end].bar.time <= t1;
        assert t0 < t1;
        assert forall a :: 0 <= a < |rest| ==> t1 <= rest[a].time;
      }
      assert forall a :: 0 <= a < |rest| ==> t0 < rest[a].time;
      if segs[i].Len() >= MIN_SEGMENT_LEN {
        var l := LevelOf(rows, segs[i]);
        LevelTimeInSegment(rows, segs[i]);
        if i + 1 < |segs| {
          assert forall a :: 0 <= a < |rest| ==> l.time < rest[a].time;
        }
        var ls := [l] + rest;
        assert forall a :: 1 <= a < |ls| ==> ls[a] == rest[a - 1];
      }
    }
  }

  /** With increasing bar times, the levels come out in strictly increasing time order. */
  lemma DetectChronological(rows: seq<Row>)
    requires RowTimesIncreasing(rows)
    ensures Chronological(Detect(rows))
  {
    var segs := Segments(rows);
    assert Chained(rows, segs);
    KeepFromChronological(rows, segs, 0);
  }
}

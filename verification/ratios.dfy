/** Percentages of a part in a whole, as the scripts' success and win rates report them. */
module Ratios {
  /** `part / whole * 100` (equivalently `100 * part / whole`) for a non-empty whole. */
  function Percent(part: nat, whole: nat): (r: real)
    requires part <= whole && whole > 0
    ensures 0.0 <= r <= 100.0
    ensures r == 0.0 <==> part == 0
    ensures r == 100.0 <==> part == whole
  {
    var p := part as real;
    var w := whole as real;
    FractionFacts(p, w);
    p / w * 100.0
  }

  lemma FractionFacts(p: real, w: real)
    requires 0.0 <= p <= w && w > 0.0
    ensures 0.0 <= p / w <= 1.0
    ensures p / w == 0.0 <==> p == 0.0
    ensures p / w == 1.0 <==> p == w
  {
    var q := p / w;
    assert q * w == p;
    assert w - p == (1.0 - q) * w;
    SignOfProduct(1.0 - q, w);
  }

  lemma SignOfProduct(x: real, w: real)
    requires w > 0.0
    ensures x * w >= 0.0 ==> x >= 0.0
  {
  }
}

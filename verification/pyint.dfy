/**
 * Python's `int(value)` on a string in base 10, as `process_input` relies on it:
 * surrounding blanks (space, tab..carriage return) are ignored, one optional sign, then decimal digits that
 * may be grouped by single underscores, at most 4300 of them by default. Anything
 * else raises ValueError (None here).
 */
module PyInt {
  import opened Wrappers

  /**
   * The blanks `int()` skips around the number: space and tab..carriage return.
   * The separators 0x1c..0x1f, which str.isspace() also accepts, are not among them.
   */
  predicate IsSpace(ch: char) {
    ch == ' ' || 9 <= ch as int <= 13
  }

  predicate IsDigit(ch: char) {
    '0' <= ch <= '9'
  }

  function DigitValue(ch: char): (v: nat)
    requires IsDigit(ch)
    ensures v < 10
  {
    ch as int - '0' as int
  }

  function DigitChar(v: nat): (ch: char)
    requires v < 10
    ensures IsDigit(ch) && DigitValue(ch) == v
  {
    ('0' as int + v) as char
  }

  function StripLeft(s: string): (t: string)
    ensures |t| <= |s| && t == s[|s| - |t|..]
    ensures |t| > 0 ==> !IsSpace(t[0])
    ensures forall k :: 0 <= k < |s| - |t| ==> IsSpace(s[k])
  {
    if |s| > 0 && IsSpace(s[0]) then StripLeft(s[1..]) else s
  }

  function StripRight(s: string): (t: string)
    ensures |t| <= |s| && t == s[..|t|]
    ensures |t| > 0 ==> !IsSpace(t[|t| - 1])
    ensures forall k :: |t| <= k < |s| ==> IsSpace(s[k])
  {
    if |s| > 0 && IsSpace(s[|s| - 1]) then StripRight(s[..|s| - 1]) else s
  }

  function Strip(s: string): string {
    StripRight(StripLeft(s))
  }

  /** Decimal digits, each underscore standing between two digits ("1_000", not "_1", "1_" or "1__0"). */
  predicate WellFormedDigits(d: string) {
    |d| > 0 && IsDigit(d[0]) && GroupTail(d[1..])
  }

  /** What may follow a digit: more digits, each optionally preceded by one underscore. */
  predicate GroupTail(r: string)
    decreases |r|
  {
    || |r| == 0
    || (IsDigit(r[0]) && GroupTail(r[1..]))
    || (|r| >= 2 && r[0] == '_' && IsDigit(r[1]) && GroupTail(r[2..]))
  }

  lemma {:induction false} GroupTailEndsInDigit(r: string)
    requires GroupTail(r) && |r| > 0
    ensures IsDigit(r[|r| - 1])
    decreases |r|
  {
    if IsDigit(r[0]) && GroupTail(r[1..]) {
      if |r| > 1 {
        GroupTailEndsInDigit(r[1..]);
      }
    } else if |r| > 2 {
      GroupTailEndsInDigit(r[2..]);
    }
  }

  /** A well-formed group begins and ends with a digit. */
  lemma WellFormedEnds(d: string)
    requires WellFormedDigits(d)
    ensures IsDigit(d[0]) && IsDigit(d[|d| - 1])
  {
    if |d| > 1 {
      GroupTailEndsInDigit(d[1..]);
    }
  }

  /** The digits with the grouping underscores removed. */
  function DropUnderscores(d: string): (r: string)
    ensures |r| <= |d|
  {
    if |d| == 0 then []
    else (if d[0] == '_' then [] else [d[0]]) + DropUnderscores(d[1..])
  }

  predicate AllDigits(d: string) {
    forall k :: 0 <= k < |d| ==> IsDigit(d[k])
  }

  /** The decimal value of a digit string, read most significant digit first. */
  function Value(d: string): nat
    requires AllDigits(d)
  {
    if |d| == 0 then 0 else 10 * Value(d[..|d| - 1]) + DigitValue(d[|d| - 1])
  }

  lemma {:induction false} DropUnderscoresOfTail(r: string)
    requires GroupTail(r)
    ensures AllDigits(DropUnderscores(r))
    decreases |r|
  {
    if |r| == 0 {
    } else if IsDigit(r[0]) && GroupTail(r[1..]) {
      DropUnderscoresOfTail(r[1..]);
      assert DropUnderscores(r) == [r[0]] + DropUnderscores(r[1..]);
    } else {
      DropUnderscoresOfTail(r[2..]);
      assert r[1..][1..] == r[2..];
      assert DropUnderscores(r) == [r[1]] + DropUnderscores(r[2..]);
    }
  }

  /** The value of a well-formed digit group; never called on anything else. */
  function GroupValue(d: string): nat
    requires WellFormedDigits(d)
  {
    DropUnderscoresOfTail(d[1..]);
    assert DropUnderscores(d) == [d[0]] + DropUnderscores(d[1..]);
    Value(DropUnderscores(d))
  }

  /**
   * CPython's default cap on the number of digits `int()` converts from a decimal
   * string; the underscores do not count, leading zeros do.
   */
  const MAX_STR_DIGITS: nat := 4300

  /** A well-formed digit group short enough for `int()` to convert. */
  predicate Convertible(d: string) {
    WellFormedDigits(d) && |DropUnderscores(d)| <= MAX_STR_DIGITS
  }

  /** `int(value)`: Some(the integer) when Python accepts the string, None where it raises ValueError. */
  function ParseInt(s: string): Option<int> {
    var t := Strip(s);
    if |t| > 0 && (t[0] == '+' || t[0] == '-') then
      if Convertible(t[1..]) then
        var v: int := GroupValue(t[1..]);
        Some(if t[0] == '-' then -v else v)
      else None
    else if Convertible(t) then Some(GroupValue(t))
    else None
  }

  /** The usual decimal spelling of n, as `str(n)` gives it. */
  function ShowNat(n: nat): (s: string)
    ensures |s| > 0 && AllDigits(s)
    decreases n
  {
    if n < 10 then [DigitChar(n)] else ShowNat(n / 10) + [DigitChar(n % 10)]
  }

  function Show(n: int): string {
    if n < 0 then "-" + ShowNat(-n) else ShowNat(n)
  }

  lemma {:induction false} ValueOfShowNat(n: nat)
    ensures Value(ShowNat(n)) == n
    decreases n
  {
    if n >= 10 {
      ValueOfShowNat(n / 10);
      var s := ShowNat(n);
      assert s[..|s| - 1] == ShowNat(n / 10);
    }
  }

  lemma {:induction false} DropUnderscoresIdentity(d: string)
    requires AllDigits(d)
    ensures DropUnderscores(d) == d
    ensures GroupTail(d)
  {
    if |d| > 0 {
      DropUnderscoresIdentity(d[1..]);
    }
  }

  lemma StripUnspaced(s: string)
    requires |s| > 0 && !IsSpace(s[0]) && !IsSpace(s[|s| - 1])
    ensures Strip(s) == s
  {
  }

  /** 10 to the power k. */
  function Pow10(k: nat): (p: nat)
    ensures p >= 1
  {
    if k == 0 then 1 else 10 * Pow10(k - 1)
  }

  /** The decimal spelling of n has at most k digits exactly when n is below 10^k. */
  lemma {:induction false} ShowNatFits(n: nat, k: nat)
    requires k >= 1
    ensures |ShowNat(n)| <= k <==> n < Pow10(k)
    decreases n
  {
    if n >= 10 {
      var q := n / 10;
      assert n == 10 * q + n % 10;
      assert |ShowNat(n)| == |ShowNat(q)| + 1;
      if k == 1 {
        assert Pow10(1) == 10;
      } else {
        ShowNatFits(q, k - 1);
        assert q < Pow10(k - 1) <==> n < 10 * Pow10(k - 1);
      }
    } else {
      assert Pow10(k) == 10 * Pow10(k - 1);
    }
  }

  /**
   * Reading back the decimal spelling of any integer gives that integer, as long
   * as the spelling has at most MAX_STR_DIGITS digits; a longer one raises ValueError.
   */
  lemma ParseShow(n: int)
    ensures |ShowNat(if n < 0 then -n else n)| <= MAX_STR_DIGITS ==> ParseInt(Show(n)) == Some(n)
    ensures |ShowNat(if n < 0 then -n else n)| > MAX_STR_DIGITS ==> ParseInt(Show(n)) == None
  {
    if n < 0 {
      ParseShowNegative(n);
    } else {
      var d := ShowNat(n);
      assert Show(n) == d;
      ParsePadded("", n, "");
      assert "" + d + "" == d;
    }
  }

  /** A single digit always reads back, far below the digit cap. */
  lemma ParseDigit(n: nat)
    requires n < 10
    ensures ParseInt(Show(n)) == Some(n)
  {
    assert |ShowNat(n)| == 1;
    ParseShow(n);
  }

  lemma ParseShowNegative(n: int)
    requires n < 0
    ensures |ShowNat(-n)| <= MAX_STR_DIGITS ==> ParseInt(Show(n)) == Some(n)
    ensures |ShowNat(-n)| > MAX_STR_DIGITS ==> ParseInt(Show(n)) == None
  {
    var m: nat := -n;
    var d := ShowNat(m);
    ValueOfShowNat(m);
    DigitsGroup(d);
    assert GroupValue(d) == m;
    ParseSigned('-', d);
    assert Show(n) == ['-'] + d;
  }

  /** A line of blanks only, the empty line included, raises ValueError. */
  lemma ParseBlank(s: string)
    requires forall k :: 0 <= k < |s| ==> IsSpace(s[k])
    ensures ParseInt(s) == None
  {
    assert Strip(s) == [];
  }

  /** A word that neither starts with a digit nor with a sign raises ValueError. */
  lemma ParseWord(s: string)
    requires |s| > 0 && !IsSpace(s[0]) && !IsSpace(s[|s| - 1])
    requires !IsDigit(s[0]) && s[0] != '+' && s[0] != '-'
    ensures ParseInt(s) == None
  {
    StripUnspaced(s);
  }

  /** An unsigned digit group with surrounding blanks reads as its value. */
  lemma ParseGroup(pre: string, d: string, post: string)
    requires forall k :: 0 <= k < |pre| ==> IsSpace(pre[k])
    requires forall k :: 0 <= k < |post| ==> IsSpace(post[k])
    requires WellFormedDigits(d)
    ensures |DropUnderscores(d)| <= MAX_STR_DIGITS ==> ParseInt(pre + d + post) == Some(GroupValue(d))
    ensures |DropUnderscores(d)| > MAX_STR_DIGITS ==> ParseInt(pre + d + post) == None
  {
    WellFormedEnds(d);
    StripAround(pre, d, post);
  }

  /** A signed digit group reads as its value, negated after '-'. */
  lemma ParseSigned(sign: char, d: string)
    requires sign == '+' || sign == '-'
    requires WellFormedDigits(d)
    ensures |DropUnderscores(d)| <= MAX_STR_DIGITS ==> ParseInt([sign] + d) == Some(if sign == '-' then -(GroupValue(d) as int) else GroupValue(d))
    ensures |DropUnderscores(d)| > MAX_STR_DIGITS ==> ParseInt([sign] + d) == None
  {
    var t := [sign] + d;
    WellFormedEnds(d);
    StripUnspaced(t);
    assert t[0] == sign && t[1..] == d;
    if |DropUnderscores(d)| <= MAX_STR_DIGITS {
      assert Convertible(t[1..]);
      var v: int := GroupValue(d);
      assert ParseInt(t) == Some(if sign == '-' then -v else v);
    } else {
      assert !Convertible(t[1..]);
    }
  }

  lemma {:induction false} StripAround(pre: string, d: string, post: string)
    requires forall k :: 0 <= k < |pre| ==> IsSpace(pre[k])
    requires forall k :: 0 <= k < |post| ==> IsSpace(post[k])
    requires |d| > 0 && !IsSpace(d[0]) && !IsSpace(d[|d| - 1])
    ensures Strip(pre + d + post) == d
  {
    StripLeftSpaces(pre, d + post);
    assert pre + d + post == pre + (d + post);
    StripRightSpaces(d, post);
  }

  lemma {:induction false} StripLeftSpaces(pre: string, rest: string)
    requires forall k :: 0 <= k < |pre| ==> IsSpace(pre[k])
    requires |rest| > 0 && !IsSpace(rest[0])
    ensures StripLeft(pre + rest) == rest
  {
    if |pre| > 0 {
      assert (pre + rest)[1..] == pre[1..] + rest;
      StripLeftSpaces(pre[1..], rest);
    }
  }

  lemma {:induction false} StripRightSpaces(rest: string, post: string)
    requires forall k :: 0 <= k < |post| ==> IsSpace(post[k])
    requires |rest| > 0 && !IsSpace(rest[|rest| - 1])
    ensures StripRight(rest + post) == rest
  {
    if |post| > 0 {
      var p := post[..|post| - 1];
      assert (rest + post)[..|rest + post| - 1] == rest + p;
      StripRightSpaces(rest, p);
    }
  }

  /** Blanks around the decimal spelling of a natural number are ignored; the digit cap still applies. */
  lemma ParsePadded(pre: string, n: nat, post: string)
    requires forall k :: 0 <= k < |pre| ==> IsSpace(pre[k])
    requires forall k :: 0 <= k < |post| ==> IsSpace(post[k])
    ensures |ShowNat(n)| <= MAX_STR_DIGITS ==> ParseInt(pre + ShowNat(n) + post) == Some(n)
    ensures |ShowNat(n)| > MAX_STR_DIGITS ==> ParseInt(pre + ShowNat(n) + post) == None
  {
    var d := ShowNat(n);
    ValueOfShowNat(n);
    DigitsGroup(d);
    ParseGroup(pre, d, post);
  }

  /** A leading plus sign is accepted. */
  lemma ParsePlus()
    ensures ParseInt("+1") == Some(1)
  {
    DigitsGroup("1");
    ParseSigned('+', "1");
    assert ['+'] + "1" == "+1";
  }

  /** Minus zero is zero. */
  lemma ParseMinusZero()
    ensures ParseInt("-0") == Some(0)
  {
    DigitsGroup("0");
    ParseSigned('-', "0");
    assert ['-'] + "0" == "-0";
  }

  lemma UnderscoreGroupWellFormed()
    ensures WellFormedDigits("0_1")
  {
    var g := "0_1";
    assert GroupTail(g[1..][2..]);
  }

  /** A single underscore may group digits, and leading zeros are allowed. */
  lemma ParseUnderscore()
    ensures ParseInt("0_1") == Some(1)
  {
    UnderscoreGroupWellFormed();
    var g := "0_1";
    assert DropUnderscores(g[2..]) == "1";
    assert DropUnderscores(g[1..]) == "1";
    assert DropUnderscores(g) == "01";
    var v := "01";
    assert v[..1] == "0";
    assert Value(v[..1]) == 0;
    assert Value(v) == 1;
    ParseGroup("", g, "");
    assert "" + g + "" == g;
  }

  /** A plain run of digits is a well-formed group worth its decimal value. */
  lemma DigitsGroup(d: string)
    requires |d| > 0 && AllDigits(d)
    ensures WellFormedDigits(d) && DropUnderscores(d) == d && GroupValue(d) == Value(d)
  {
    DropUnderscoresIdentity(d);
    DropUnderscoresIdentity(d[1..]);
  }

  /** A doubled underscore is rejected. */
  lemma ParseDoubleUnderscore()
    ensures ParseInt("1__0") == None
  {
    var d := "1__0";
    assert !IsDigit(d[1]) && !IsDigit(d[2]);
    assert !GroupTail(d[1..]);
    ParseGroupOnly(d);
  }

  /** A file separator 0x1c before a digit is not skipped, so the line raises ValueError. */
  lemma ParseSeparatorKept()
    ensures ParseInt([28 as char, '1']) == None
  {
    ParseWord([28 as char, '1']);
  }

  /** The empty line and a word raise ValueError. */
  lemma ParseRejects()
    ensures ParseInt("") == None
    ensures ParseInt("rock") == None
  {
    ParseBlank("");
    ParseWord("rock");
  }

  /** A string starting and ending with a digit parses only if it is a well-formed group within the digit cap. */
  lemma ParseGroupOnly(d: string)
    requires |d| > 0 && IsDigit(d[0]) && IsDigit(d[|d| - 1])
    ensures ParseInt(d).Some? <==> Convertible(d)
  {
    StripUnspaced(d);
  }
}

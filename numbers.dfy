/** Decimal numerals: Python's `str` on integers, `int` on strings, and the
    two-decimal `"{:.2f}"` rendering of a threshold. */
module Numbers {
  import opened Wrappers

  predicate IsDigit(c: char)
  {
    '0' <= c <= '9'
  }

  predicate AllDigits(s: string)
  {
    forall i :: 0 <= i < |s| ==> IsDigit(s[i])
  }

  function DigitChar(d: nat): (c: char)
    requires d < 10
    ensures IsDigit(c)
  {
    ('0' as int + d) as char
  }

  function DigitValue(c: char): (d: nat)
    requires IsDigit(c)
    ensures d < 10 && DigitChar(d) == c
  {
    c as int - '0' as int
  }

  /** `str(n)` for a natural number: decimal digits without a leading zero. */
  function NatToString(n: nat): (s: string)
    ensures |s| >= 1 && AllDigits(s)
    ensures |s| > 1 ==> s[0] != '0'
    decreases n
  {
    if n < 10 then [DigitChar(n)]
    else NatToString(n / 10) + [DigitChar(n % 10)]
  }

  /** The number a digit string denotes. */
  function DigitsValue(s: string): nat
    requires AllDigits(s)
    decreases |s|
  {
    if |s| == 0 then 0 else DigitsValue(s[..|s| - 1]) * 10 + DigitValue(s[|s| - 1])
  }

  lemma {:induction false} NatToStringRoundTrip(n: nat)
    ensures DigitsValue(NatToString(n)) == n
    decreases n
  {
    var s := NatToString(n);
    if n < 10 {
      assert s[..0] == [];
    } else {
      NatToStringRoundTrip(n / 10);
      assert s[..|s| - 1] == NatToString(n / 10);
    }
  }

  /** Distinct numbers are written differently. */
  lemma NatToStringInjective(a: nat, b: nat)
    requires NatToString(a) == NatToString(b)
    ensures a == b
  {
    NatToStringRoundTrip(a);
    NatToStringRoundTrip(b);
  }

  /** `str(i)` for an integer: a minus exactly when `i` is negative, then the digits of
      its magnitude without a leading zero (so neither "-0" nor "007" is produced). */
  function IntToString(i: int): (s: string)
    ensures |s| >= 1
    ensures forall k :: 0 <= k < |s| ==> IsDigit(s[k]) || (k == 0 && s[k] == '-')
    ensures s[0] == '-' <==> i < 0
    ensures i >= 0 && |s| > 1 ==> s[0] != '0'
    ensures i < 0 ==> |s| > 1 && s[1] != '0'
  {
    if i < 0 then "-" + NatToString(-i) else NatToString(i)
  }

  /** `int(s)` on an optionally signed decimal numeral; None where Python raises ValueError.
      Leading zeros and a '+' sign are accepted, as by Python. (Python also tolerates
      surrounding white space and '_' between digits; those are treated as errors here.) */
  function ParseInt(s: string): (r: Option<int>)
    ensures r.Some? <==>
      ((|s| > 0 && AllDigits(s)) || (|s| > 1 && (s[0] == '-' || s[0] == '+') && AllDigits(s[1..])))
    ensures |s| > 0 && AllDigits(s) ==> r == Some(DigitsValue(s))
    ensures |s| > 1 && s[0] == '+' && AllDigits(s[1..]) ==> r == Some(DigitsValue(s[1..]))
    ensures |s| > 1 && s[0] == '-' && AllDigits(s[1..]) ==> r == Some(-(DigitsValue(s[1..]) as int))
  {
    if |s| > 0 && (s[0] == '-' || s[0] == '+') then
      var body := s[1..];
      if |body| > 0 && AllDigits(body) then
        assert IsDigit(s[1]);
        var v: int := DigitsValue(body);
        Some(if s[0] == '-' then -v else v)
      else None
    else if |s| > 0 && AllDigits(s) then
      assert IsDigit(s[0]);
      var v: int := DigitsValue(s);
      Some(v)
    else None
  }

  /** `int(str(i)) == i`. */
  lemma ParseIntRoundTrip(i: int)
    ensures ParseInt(IntToString(i)) == Some(i)
  {
    var s := IntToString(i);
    if i < 0 {
      var n := NatToString(-i);
      NatToStringRoundTrip(-i);
      assert s[1..] == n;
      assert ParseInt(s) == Some(-(DigitsValue(n) as int));
    } else {
      NatToStringRoundTrip(i);
      assert ParseInt(s) == Some(DigitsValue(s));
    }
  }

  /** `"{:.2f}".format(h / 100)` for a threshold held in hundredths: an optional minus,
      the integer part, a point, and exactly two fractional digits. */
  function FormatHundredths(h: int): (s: string)
    ensures |s| >= 4
    ensures s[|s| - 3] == '.' && IsDigit(s[|s| - 2]) && IsDigit(s[|s| - 1])
    ensures forall k :: 0 <= k < |s| - 3 ==> IsDigit(s[k]) || (k == 0 && s[k] == '-')
  {
    var a := if h < 0 then -h else h;
    (if h < 0 then "-" else "") + NatToString(a / 100) + "." + [DigitChar(a % 100 / 10), DigitChar(a % 10)]
  }

  /** Reads a two-decimal numeral back into hundredths. */
  function ParseHundredths(s: string): Option<int>
  {
    if |s| < 4 || s[|s| - 3] != '.' || !IsDigit(s[|s| - 2]) || !IsDigit(s[|s| - 1]) then None
    else
      var negative := s[0] == '-';
      var whole := if negative then s[1..|s| - 3] else s[..|s| - 3];
      if |whole| == 0 || !AllDigits(whole) then None
      else
        var a: int := DigitsValue(whole) * 100 + DigitValue(s[|s| - 2]) * 10 + DigitValue(s[|s| - 1]);
        Some(if negative then -a else a)
  }

  /** The two-decimal text determines the threshold: nothing is lost in the rendering. */
  lemma FormatHundredthsRoundTrip(h: int)
    ensures ParseHundredths(FormatHundredths(h)) == Some(h)
  {
    HundredthsSplit(if h < 0 then -h else h);
    var a := if h < 0 then -h else h;
    var whole := NatToString(a / 100);
    var s := FormatHundredths(h);
    NatToStringRoundTrip(a / 100);
    if h < 0 {
      assert s == "-" + whole + "." + [DigitChar(a % 100 / 10), DigitChar(a % 10)];
      assert s[1..|s| - 3] == whole;
    } else {
      assert s == whole + "." + [DigitChar(a % 100 / 10), DigitChar(a % 10)];
      assert s[..|s| - 3] == whole;
      assert whole[0] != '-';
    }
    assert DigitValue(DigitChar(a % 100 / 10)) == a % 100 / 10;
    assert DigitValue(DigitChar(a % 10)) == a % 10;
  }

  /** A count of hundredths is its whole part, its tenths digit and its hundredths digit. */
  lemma HundredthsSplit(a: nat)
    ensures (a / 100) * 100 + (a % 100 / 10) * 10 + a % 10 == a
  {
    var q, r := a / 100, a % 100;
    var tens, units := r / 10, r % 10;
    assert a == q * 100 + r;
    assert r == tens * 10 + units;
    assert a == (q * 10 + tens) * 10 + units;
    assert a % 10 == units;
  }
}

/**
 * The two Python conversions the rank parser relies on: `int(text)` and
 * `str(number)`.  `int` is modelled on ASCII text only: an optional `+` or
 * `-` sign followed by one or more ASCII digits.  Python also strips
 * surrounding whitespace, accepts `_` between digits and accepts non-ASCII
 * decimal digits; those inputs are not modelled.
 */
module Numerals {
  import opened Basics

  predicate IsDigit(c: char)
  {
    '0' <= c <= '9'
  }

  predicate AllDigits(s: string)
  {
    forall i :: 0 <= i < |s| ==> IsDigit(s[i])
  }

  /** The value of a run of decimal digits (the empty run is 0). */
  function DigitsValue(s: string): nat
    requires AllDigits(s)
  {
    if s == [] then 0
    else DigitsValue(s[..|s| - 1]) * 10 + (s[|s| - 1] as int - '0' as int)
  }

  /** Python's `int(s)` on ASCII text; `None` where Python raises `ValueError`. */
  function ParseInt(s: string): (r: Option<int>)
    ensures r.Some? ==> |s| > 0
    ensures r.Some? ==> forall i :: 0 < i < |s| ==> IsDigit(s[i])
    ensures r.Some? && r.value < 0 ==> s[0] == '-'
  {
    if |s| > 0 && (s[0] == '+' || s[0] == '-') then
      if |s| > 1 && AllDigits(s[1..]) then
        var magnitude: int := DigitsValue(s[1..]);
        Some(if s[0] == '-' then -magnitude else magnitude)
      else None
    else if |s| > 0 && AllDigits(s) then Some(DigitsValue(s))
    else None
  }

  /** A numeral without a minus sign: an optional `+` and one or more digits. */
  predicate IsUnsignedNumeral(s: string)
  {
    |s| > 0 &&
    if s[0] == '+' then |s| > 1 && AllDigits(s[1..]) else AllDigits(s)
  }

  function NumeralValue(s: string): nat
    requires IsUnsignedNumeral(s)
  {
    if s[0] == '+' then DigitsValue(s[1..]) else DigitsValue(s)
  }

  /**
   * Without a minus sign, `int` succeeds exactly on unsigned numerals, and
   * then yields their (non-negative) value.
   */
  lemma ParseIntUnsigned(s: string)
    requires '-' !in s
    ensures ParseInt(s).Some? <==> IsUnsignedNumeral(s)
    ensures ParseInt(s).Some? ==> ParseInt(s).value == NumeralValue(s) >= 0
  {
    if |s| > 0 {
      assert s[0] != '-' by {
        assert s[0] in s;
      }
    }
  }

  function DigitChar(d: nat): (c: char)
    requires d < 10
    ensures IsDigit(c) && c as int - '0' as int == d
  {
    ('0' as int + d) as char
  }

  /** Python's `str(n)` for a non-negative integer: its shortest decimal numeral. */
  function NatToString(n: nat): (r: string)
    ensures |r| > 0 && AllDigits(r)
  {
    if n < 10 then [DigitChar(n)]
    else NatToString(n / 10) + [DigitChar(n % 10)]
  }

  /** Python's `str(i)` for any integer. */
  function IntToString(i: int): (r: string)
    ensures |r| > 0
    ensures ('-' in r) <==> i < 0
  {
    if i < 0 then "-" + NatToString(-i) else NatToString(i)
  }

  lemma {:induction false} NatToStringValue(n: nat)
    ensures DigitsValue(NatToString(n)) == n
  {
    var s := NatToString(n);
    if n >= 10 {
      assert s[..|s| - 1] == NatToString(n / 10);
      NatToStringValue(n / 10);
    }
  }

  /** Reading back what `str` printed gives the integer: `int(str(i)) == i`. */
  lemma ParseIntOfIntToString(i: int)
    ensures ParseInt(IntToString(i)) == Some(i)
  {
    var s := IntToString(i);
    if i < 0 {
      var digits := NatToString(-i);
      assert s[0] == '-' && s[1..] == digits;
      NatToStringValue(-i);
      assert DigitsValue(s[1..]) == -i;
    } else {
      var digits := NatToString(i);
      assert s == digits && IsDigit(s[0]);
      NatToStringValue(i);
      assert ParseInt(s) == Some(DigitsValue(s));
    }
  }
}

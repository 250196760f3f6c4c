/**
 * The part of JavaScript's string-to-number conversion that the age check
 * relies on, restricted to integers: a string that is all whitespace converts
 * to 0, and a string that is an optionally signed run of decimal digits,
 * possibly surrounded by whitespace, converts to that integer. Every other
 * string is treated as NaN.
 */
module Numbers {
  import opened Text

  datatype Number = NaN | Num(value: int)

  /** Value of one decimal digit. */
  function DigitValue(c: char): (d: nat)
    requires IsDigit(c)
    ensures d < 10
  {
    (c as int) - ('0' as int)
  }

  /** The digit character for `d`. */
  function DigitChar(d: nat): (c: char)
    requires d < 10
    ensures IsDigit(c) && DigitValue(c) == d
  {
    ('0' as int + d) as char
  }

  /** Value of a run of decimal digits, most significant first. */
  function DigitsValue(s: string): nat
    requires forall k :: 0 <= k < |s| ==> IsDigit(s[k])
  {
    if s == [] then 0
    else 10 * DigitsValue(s[..|s| - 1]) + DigitValue(s[|s| - 1])
  }

  /** A non-empty run of decimal digits, or NaN. */
  function ParseDigits(d: string): Number
  {
    if d != [] && AllChars(d, IsDigit) then Num(DigitsValue(d)) else NaN
  }

  /** An optionally signed run of decimal digits, or NaN. */
  function ParseInteger(t: string): Number
  {
    if t != [] && (t[0] == '+' || t[0] == '-') then
      match ParseDigits(t[1..])
      case Num(v) => if t[0] == '-' then Num(-v) else Num(v)
      case NaN => NaN
    else ParseDigits(t)
  }

  /** A non-empty run of decimal digits. */
  ghost predicate DigitRun(d: string)
  {
    d != [] && forall k :: 0 <= k < |d| ==> IsDigit(d[k])
  }

  /** An optionally signed, non-empty run of decimal digits. */
  ghost predicate IntegerLiteral(t: string)
  {
    if t != [] && (t[0] == '+' || t[0] == '-') then DigitRun(t[1..]) else DigitRun(t)
  }

  /** A trimmed, non-empty value converts to NaN exactly when it is not an integer literal. */
  lemma ParseIntegerNaN(t: string)
    ensures ParseInteger(t).NaN? <==> !IntegerLiteral(t)
  {
    var digits := if t != [] && (t[0] == '+' || t[0] == '-') then t[1..] else t;
    assert ParseInteger(t).NaN? <==> ParseDigits(digits).NaN?;
    assert IntegerLiteral(t) <==> DigitRun(digits);
  }

  /**
   * `Number(s)`, restricted as described for this module: a value of
   * whitespace alone converts to 0, and once trimmed, a value is NaN exactly
   * when it is not an integer literal.
   */
  function ToNumber(s: string): (n: Number)
    ensures (forall k :: 0 <= k < |s| ==> IsSpace(s[k])) ==> n == Num(0)
    ensures n.NaN? <==> Trim(s) != [] && !IntegerLiteral(Trim(s))
  {
    var t := Trim(s);
    ParseIntegerNaN(t);
    if t == [] then Num(0) else ParseInteger(t)
  }

  /** Decimal notation of a natural number, without leading zeros. */
  function NatString(n: nat): string
  {
    if n < 10 then [DigitChar(n)]
    else NatString(n / 10) + [DigitChar(n % 10)]
  }

  /** Decimal notation of an integer, with a leading '-' when it is negative. */
  function DecimalString(n: int): string
  {
    if n < 0 then "-" + NatString(-n) else NatString(n)
  }

  /** The decimal notation of `n` is a non-empty run of digits whose value is `n`. */
  lemma {:induction false} NatStringValue(n: nat)
    ensures NatString(n) != []
    ensures forall k :: 0 <= k < |NatString(n)| ==> IsDigit(NatString(n)[k])
    ensures DigitsValue(NatString(n)) == n
  {
    if n >= 10 {
      NatStringValue(n / 10);
      var s := NatString(n);
      assert s[..|s| - 1] == NatString(n / 10);
    }
  }

  /** The decimal notation of `n`, with or without a leading '-', parses back to `n` or `-n`. */
  lemma ParseNatString(n: nat)
    ensures ParseInteger(NatString(n)) == Num(n)
    ensures ParseInteger("-" + NatString(n)) == Num(-(n as int))
  {
    NatStringValue(n);
    var digits := NatString(n);
    assert ParseDigits(digits) == Num(n);
    assert !(digits[0] == '+' || digits[0] == '-');
    assert ("-" + digits)[1..] == digits;
  }

  /** Leading zeros do not change the value of a run of digits. */
  lemma {:induction false} LeadingZeros(z: string, d: string)
    requires forall k :: 0 <= k < |z| ==> z[k] == '0'
    requires forall k :: 0 <= k < |d| ==> IsDigit(d[k])
    ensures forall k :: 0 <= k < |z + d| ==> IsDigit((z + d)[k])
    ensures DigitsValue(z + d) == DigitsValue(d)
  {
    var s := z + d;
    assert forall k :: 0 <= k < |s| ==> IsDigit(s[k]) by {
      forall k | 0 <= k < |s|
        ensures IsDigit(s[k])
      {
        if k < |z| { assert s[k] == z[k]; } else { assert s[k] == d[k - |z|]; }
      }
    }
    if d == [] {
      assert s == z;
      if z != [] {
        LeadingZeros(z[..|z| - 1], []);
        assert z[..|z| - 1] + [] == z[..|z| - 1];
      }
    } else {
      LeadingZeros(z, d[..|d| - 1]);
      assert s[..|s| - 1] == z + d[..|d| - 1];
      assert s[|s| - 1] == d[|d| - 1];
    }
  }

  /** A run of digits with leading zeros, signed or not, parses to the value of its digits. */
  lemma ParseZeroLed(z: string, n: nat)
    requires forall k :: 0 <= k < |z| ==> z[k] == '0'
    ensures ParseInteger(z + NatString(n)) == Num(n)
    ensures ParseInteger("+" + z + NatString(n)) == Num(n)
    ensures ParseInteger("-" + z + NatString(n)) == Num(-(n as int))
  {
    NatStringValue(n);
    var d := z + NatString(n);
    LeadingZeros(z, NatString(n));
    assert ParseDigits(d) == Num(n);
    assert IsDigit(d[0]);
    assert ("+" + d)[1..] == d && ("-" + d)[1..] == d;
    assert "+" + z + NatString(n) == "+" + d;
    assert "-" + z + NatString(n) == "-" + d;
  }

  /** A value padded with whitespace converts as the unpadded value parses. */
  lemma ToNumberPadded(pre: string, t: string, post: string)
    requires forall k :: 0 <= k < |pre| ==> IsSpace(pre[k])
    requires forall k :: 0 <= k < |post| ==> IsSpace(post[k])
    requires t != [] && !IsSpace(t[0]) && !IsSpace(t[|t| - 1])
    ensures ToNumber(pre + t + post) == ParseInteger(t)
  {
    TrimPadded(pre, t, post);
  }

  /** Digits with leading zeros, and an optional sign before them, start and end with no whitespace. */
  lemma ZeroLedUnpadded(sign: string, z: string, n: nat)
    requires sign == "" || sign == "+" || sign == "-"
    requires forall k :: 0 <= k < |z| ==> z[k] == '0'
    ensures var t := sign + z + NatString(n); t != [] && !IsSpace(t[0]) && !IsSpace(t[|t| - 1])
  {
    NatStringValue(n);
    var t := sign + z + NatString(n);
    assert t[|t| - 1] == NatString(n)[|NatString(n)| - 1];
    assert t[0] == if sign != "" then sign[0] else if z != [] then z[0] else NatString(n)[0];
  }

  /**
   * An integer literal with any whitespace around it, an optional sign and any
   * number of leading zeros converts to the integer it denotes.
   */
  lemma PaddedLiteral(value: string, pre: string, sign: string, z: string, n: nat, post: string)
    requires forall k :: 0 <= k < |pre| ==> IsSpace(pre[k])
    requires forall k :: 0 <= k < |post| ==> IsSpace(post[k])
    requires sign == "" || sign == "+" || sign == "-"
    requires forall k :: 0 <= k < |z| ==> z[k] == '0'
    requires value == pre + sign + z + NatString(n) + post
    ensures value != []
    ensures ToNumber(value) == if sign == "-" then Num(-(n as int)) else Num(n)
  {
    var t := sign + z + NatString(n);
    ZeroLedUnpadded(sign, z, n);
    assert value == pre + t + post;
    ToNumberPadded(pre, t, post);
    ParseZeroLed(z, n);
    if sign == "" {
      assert t == z + NatString(n);
    }
  }

  /** Converting the decimal notation of any integer gives that integer back. */
  lemma ToNumberDecimalString(n: int)
    ensures ToNumber(DecimalString(n)) == Num(n)
  {
    var m := if n < 0 then -n else n;
    NatStringValue(m);
    ParseNatString(m);
    var s := DecimalString(n);
    assert IsDigit(s[|s| - 1]);
    TrimUnpadded(s);
  }
}

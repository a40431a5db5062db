/** Decimal digits, the numbers they stand for, and the blanks between tokens. */
module Digits {

  predicate IsBlank(c: char) { c == ' ' || c == '\t' }

  function SkipBlanks(s: string): (r: string)
    ensures |r| <= |s|
  {
    if s != "" && IsBlank(s[0]) then SkipBlanks(s[1..]) else s
  }

  predicate IsDigit(c: char) { '0' <= c <= '9' }

  predicate AllDigits(s: string) {
    forall i :: 0 <= i < |s| ==> IsDigit(s[i])
  }

  function TakeDigits(s: string): (r: string)
    ensures |r| <= |s|
  {
    if s != "" && IsDigit(s[0]) then [s[0]] + TakeDigits(s[1..]) else ""
  }

  function DigitValue(c: char): nat {
    if IsDigit(c) then c as int - '0' as int else 0
  }

  function DigitsValue(s: string): nat {
    if s == "" then 0 else 10 * DigitsValue(s[..|s| - 1]) + DigitValue(s[|s| - 1])
  }

  function Pow10(n: nat): (r: real)
    ensures r > 0.0
  {
    if n == 0 then 1.0 else 10.0 * Pow10(n - 1)
  }

  function DecimalValue(whole: string, frac: string): real {
    DigitsValue(whole) as real + DigitsValue(frac) as real / Pow10(|frac|)
  }

  lemma {:induction false} TakesDigits(digits: string, rest: string)
    requires AllDigits(digits) && (rest == "" || !IsDigit(rest[0]))
    ensures TakeDigits(digits + rest) == digits
    decreases |digits|
  {
    if digits == "" {
      assert digits + rest == rest;
    } else {
      TakesDigits(digits[1..], rest);
      assert (digits + rest)[1..] == digits[1..] + rest;
    }
  }

  // ---- writing numbers ----

  function DigitChar(d: nat): (c: char)
    requires d < 10
    ensures IsDigit(c) && DigitValue(c) == d
  {
    '0' + d as char
  }

  /** The shortest decimal form, as %d writes it. */
  function NatText(n: nat): (s: string)
    ensures s != "" && AllDigits(s)
  {
    if n < 10 then [DigitChar(n)] else NatText(n / 10) + [DigitChar(n % 10)]
  }

  lemma {:induction false} NatTextValue(n: nat)
    ensures DigitsValue(NatText(n)) == n
  {
    if n < 10 {
      assert NatText(n)[..0] == "";
    } else {
      NatTextValue(n / 10);
      assert NatText(n)[..|NatText(n)| - 1] == NatText(n / 10);
    }
  }

  /** Exactly `width` digits, with leading zeros, as %0<width>d writes a number that short. */
  function PadText(n: nat, width: nat): (s: string)
    ensures |s| == width && AllDigits(s)
    decreases width
  {
    if width == 0 then "" else PadText(n / 10, width - 1) + [DigitChar(n % 10)]
  }

  function TenTo(n: nat): nat {
    if n == 0 then 1 else 10 * TenTo(n - 1)
  }

  lemma {:induction false} PadTextValue(n: nat, width: nat)
    requires n < TenTo(width)
    ensures DigitsValue(PadText(n, width)) == n
    decreases width
  {
    if width > 0 {
      PadTextValue(n / 10, width - 1);
      assert PadText(n, width)[..width - 1] == PadText(n / 10, width - 1);
    }
  }

  /** Decimal places: a further digit multiplies what stands before it by ten. */
  lemma Places(s: string, c: char, n: nat)
    requires '0' <= c <= '9'
    ensures DigitsValue("") == 0 && DigitsValue(s + [c]) == 10 * DigitsValue(s) + (c as int - 48)
    ensures Pow10(0) == 1.0 && Pow10(n + 1) == 10.0 * Pow10(n)
  {
    hide DecimalValue;
    assert (s + [c])[..|s|] == s;
  }

  /** A fraction is its digits over as many tens. */
  lemma FractionPlaces(whole: string, frac: string)
    ensures (DecimalValue(whole, frac) - DigitsValue(whole) as real) * Pow10(|frac|) == DigitsValue(frac) as real
  {
    hide DigitsValue, Pow10;
    var v, p := DigitsValue(frac) as real, Pow10(|frac|);
    assert DecimalValue(whole, frac) - DigitsValue(whole) as real == v / p;
    assert v / p * p == v;
  }

  /** A number is written without leading zeros. */
  lemma {:induction false} NoLeadingZero(n: nat)
    ensures n > 0 ==> NatText(n)[0] != '0'
    ensures n == 0 ==> NatText(n) == "0"
  {
    if n >= 10 {
      NoLeadingZero(n / 10);
    }
  }
}

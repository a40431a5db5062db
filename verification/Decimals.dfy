/** Numbers as text in getLib.c: ftoa writes six decimals, getDouble reads the next token of a line. */
module Decimals {
  import opened Digits

  function Abs(x: real): (r: real)
    ensures r >= 0.0
  {
    if x >= 0.0 then x else -x
  }

  /** The magnitudes whose whole part fits an int. */
  predicate Printable(x: real) {
    Abs(x) < 2147483648.0
  }

  /** The two integers ftoa prints. */
  function WholePart(x: real): nat {
    Abs(x).Floor
  }

  function Millionths(x: real): (n: nat)
    ensures n < 1000000
  {
    (1000000.0 * (Abs(x) - WholePart(x) as real)).Floor
  }

  /** ftoa: a sign or a blank, the integer part, a point and six digits. */
  function Ftoa(x: real): string
    requires Printable(x)
  {
    [if x >= 0.0 then ' ' else '-'] + (NatText(WholePart(x)) + ("." + PadText(Millionths(x), 6)))
  }

  // ---- tokens ----

  predicate IsBreak(c: char) { IsBlank(c) || c < ' ' || c == ',' || c == ';' }

  function TokenOf(s: string): (t: string)
    ensures |t| <= |s|
  {
    if s == "" || IsBreak(s[0]) then "" else [s[0]] + TokenOf(s[1..])
  }

  /** gtkbrk: the next token and the line after its break character. */
  function NextToken(s: string): (r: (string, string))
    ensures |r.1| <= |s| && (|r.0| > 0 ==> |r.1| < |s|)
  {
    var t := SkipBlanks(s);
    var token := TokenOf(t);
    var rest := t[|token|..];
    var after := if rest == "" then rest else rest[1..];
    assert |token| > 0 ==> |after| < |t|;
    (token, after)
  }

  method GetTokenBreak(line: string) returns (token: string, rest: string)
    ensures (token, rest) == NextToken(line)
  {
    ghost var t := SkipBlanks(line);
    rest := SkipBlankPrefix(line);
    token := "";
    while rest != "" && !IsBreak(rest[0])
      invariant token + rest == t && token + TokenOf(rest) == TokenOf(t)
      decreases |rest|
    {
      assert token + rest == (token + [rest[0]]) + rest[1..];
      assert token + TokenOf(rest) == (token + [rest[0]]) + TokenOf(rest[1..]);
      token := token + [rest[0]];
      rest := rest[1..];
    }
    assert TokenOf(rest) == "" && token + "" == token;
    assert t[|token|..] == rest;
    if rest != "" {
      rest := rest[1..];
    }
  }

  /** White space before the token. */
  method SkipBlankPrefix(line: string) returns (rest: string)
    ensures rest == SkipBlanks(line)
  {
    rest := line;
    while rest != "" && IsBlank(rest[0])
      invariant SkipBlanks(rest) == SkipBlanks(line)
      decreases |rest|
    {
      rest := rest[1..];
    }
  }

  /** checkIfEos: no token is left on the line. */
  predicate AtEnd(line: string) {
    NextToken(line).0 == ""
  }

  // ---- simple_strtod ----

  predicate IsSpaceOrControl(c: char) { c <= ' ' || c == 127 as char }

  function SkipSpace(s: string): (r: string)
    ensures |r| <= |s|
  {
    if s != "" && IsSpaceOrControl(s[0]) then SkipSpace(s[1..]) else s
  }

  predicate Signed(s: string) { s != "" && (s[0] == '+' || s[0] == '-') }

  function Sign(s: string): real { if s != "" && s[0] == '-' then -1.0 else 1.0 }

  function Unsigned(s: string): string { if Signed(s) then s[1..] else s }

  /** The digits before and after the point, and the text after them. */
  function Mantissa(s: string): (r: (string, string, string)) {
    var whole := TakeDigits(s);
    var s1 := s[|whole|..];
    if s1 != "" && s1[0] == '.' then
      var frac := TakeDigits(s1[1..]);
      (whole, frac, s1[1 + |frac|..])
    else (whole, "", s1)
  }

  predicate IsExponentMark(c: char) { c == 'e' || c == 'E' || c == 'd' || c == 'D' }

  function ExponentFactor(s: string): real {
    if s != "" && IsExponentMark(s[0]) then
      var digits := TakeDigits(Unsigned(s[1..]));
      if s[1..] != "" && s[1] == '-' then 1.0 / Pow10(DigitsValue(digits)) else Pow10(DigitsValue(digits))
    else 1.0
  }

  function Strtod(s: string): real {
    var t := SkipSpace(s);
    var (whole, frac, rest) := Mantissa(Unsigned(t));
    if whole == "" && frac == "" then 0.0
    else Sign(t) * (DecimalValue(whole, frac) * ExponentFactor(rest))
  }

  lemma FractionStep(v: nat, d: nat, p: real)
    requires p > 0.0
    ensures v as real / p + 1.0 / (10.0 * p) * d as real == (10 * v + d) as real / (10.0 * p)
    ensures 1.0 / (10.0 * p) * 0.1 == 1.0 / (10.0 * (10.0 * p))
  {
    var q := 1.0 / (10.0 * p);
    assert q * (10.0 * p) == 1.0;
    assert v as real / p == (10.0 * q) * v as real by {
      assert (v as real / p) * p == v as real;
      assert ((10.0 * q) * v as real) * p == v as real * (q * (10.0 * p));
    }
    assert (10 * v + d) as real / (10.0 * p) == q * (10 * v + d) as real by {
      assert (q * (10 * v + d) as real) * (10.0 * p) == (10 * v + d) as real * (q * (10.0 * p));
    }
    assert (10 * v + d) as real == 10.0 * v as real + d as real;
  }

  lemma DigitsPush(s: string, c: char)
    ensures DigitsValue(s + [c]) == 10 * DigitsValue(s) + DigitValue(c)
    ensures Pow10(|s + [c]|) == 10.0 * Pow10(|s|)
  {
    assert (s + [c])[..|s|] == s;
  }

  lemma TakeMore(s: string, k: nat)
    requires k < |s| && IsDigit(s[k]) && TakeDigits(s) == s[..k] + TakeDigits(s[k..])
    ensures TakeDigits(s) == s[..k + 1] + TakeDigits(s[k + 1..])
  {
    hide TakeDigits;
    TakeOne(s[k..]);
    assert s[k..][1..] == s[k + 1..];
    assert s[..k + 1] == s[..k] + [s[k]];
  }

  lemma TakeOne(s: string)
    requires s != "" && IsDigit(s[0])
    ensures TakeDigits(s) == [s[0]] + TakeDigits(s[1..])
  {
  }

  /** The digit loops of simple_strtod, over the reals: first the whole part. */
  method ReadWhole(s: string) returns (result: real, n: nat)
    ensures n <= |s| && TakeDigits(s) == s[..n] && result == DigitsValue(s[..n]) as real
  {
    hide TakeDigits, DigitsValue;
    result, n := 0.0, 0;
    NothingTaken(s);
    while n < |s| && IsDigit(s[n])
      invariant 0 <= n <= |s| && TakeDigits(s) == s[..n] + TakeDigits(s[n..])
      invariant result == DigitsValue(s[..n]) as real
    {
      TakeMore(s, n);
      DigitsPush(s[..n], s[n]);
      assert s[..n + 1] == s[..n] + [s[n]];
      result := result * 10.0 + DigitValue(s[n]) as real;
      n := n + 1;
    }
    TakeEnds(s[n..]);
  }

  /** The digits after the point, each worth a tenth of the one before. */
  method ReadFraction(t: string, whole: real) returns (result: real, n: nat)
    ensures n <= |t| && TakeDigits(t) == t[..n]
    ensures result == whole + DigitsValue(t[..n]) as real / Pow10(n)
  {
    hide TakeDigits, DigitsValue;
    result, n := whole, 0;
    var fract := 0.1;
    NothingTaken(t);
    while n < |t| && IsDigit(t[n])
      invariant 0 <= n <= |t| && TakeDigits(t) == t[..n] + TakeDigits(t[n..])
      invariant fract == 1.0 / (10.0 * Pow10(n))
      invariant result == whole + DigitsValue(t[..n]) as real / Pow10(n)
    {
      TakeMore(t, n);
      DigitsPush(t[..n], t[n]);
      assert t[..n + 1] == t[..n] + [t[n]];
      FractionStep(DigitsValue(t[..n]), DigitValue(t[n]), Pow10(n));
      result := result + fract * DigitValue(t[n]) as real;
      fract := fract * 0.1;
      n := n + 1;
    }
    TakeEnds(t[n..]);
  }

  lemma NothingTaken(s: string)
    ensures TakeDigits(s) == s[..0] + TakeDigits(s[0..]) && DigitsValue(s[..0]) == 0
    ensures Pow10(0) == 1.0
  {
    assert s[0..] == s;
  }

  lemma TakeEnds(s: string)
    requires s == "" || !IsDigit(s[0])
    ensures TakeDigits(s) == ""
  {
  }

  method ReadMantissa(s: string) returns (result: real, found: bool, rest: string)
    ensures var (whole, frac, after) := Mantissa(s);
            && rest == after && (found <==> whole != "" || frac != "")
            && result == DecimalValue(whole, frac)
  {
    hide TakeDigits, DigitsValue, Pow10;
    var n;
    result, n := ReadWhole(s);
    rest := s[n..];
    found := n > 0;
    NoFraction();
    if rest != "" && rest[0] == '.' {
      var t := rest[1..];
      result, n := ReadFraction(t, result);
      found := found || n > 0;
      assert rest[1 + n..] == t[n..];
      rest := t[n..];
    }
  }

  lemma NoFraction()
    ensures DigitsValue("") == 0 && Pow10(|""|) == 1.0
  {
  }

  /** getDouble: the value of the next token, and the line after it. */
  function GetDouble(line: string): (real, string) {
    var (token, rest) := NextToken(line);
    (Strtod(token), rest)
  }

  // ---- what getDouble makes of ftoa ----

  /** The value six decimals keep. */
  function Kept(x: real): real {
    (if x >= 0.0 then 1.0 else -1.0) * (WholePart(x) as real + Millionths(x) as real / 1000000.0)
  }

  /**
   * Six decimals lose less than a millionth, towards zero. The sign is kept, except that what is
   * smaller than a millionth becomes 0.
   */
  lemma KeptIsClose(x: real)
    ensures Abs(Kept(x)) <= Abs(x) < Abs(Kept(x)) + 1.0 / 1000000.0
    ensures Kept(x) > 0.0 <==> x >= 1.0 / 1000000.0
    ensures Kept(x) < 0.0 <==> x <= -1.0 / 1000000.0
  {
    var rest := Abs(x) - WholePart(x) as real;
    assert Millionths(x) as real <= 1000000.0 * rest < Millionths(x) as real + 1.0;
    assert Millionths(x) as real / 1000000.0 <= rest < Millionths(x) as real / 1000000.0 + 1.0 / 1000000.0;
  }

  predicate Plain(s: string) {
    forall i :: 0 <= i < |s| ==> !IsBreak(s[i])
  }

  lemma {:induction false} TokenEnds(t: string, rest: string)
    requires Plain(t) && (rest == "" || IsBreak(rest[0]))
    ensures TokenOf(t + rest) == t
    decreases |t|
  {
    if t == "" {
      assert t + rest == rest;
    } else {
      TokenEnds(t[1..], rest);
      assert (t + rest)[1..] == t[1..] + rest;
    }
  }

  /** The digits and the token of ftoa's text: its text without the leading blank. */
  function Printed(x: real): string {
    NatText(WholePart(x)) + ("." + PadText(Millionths(x), 6))
  }

  function NumberToken(x: real): string {
    if x >= 0.0 then Printed(x) else "-" + Printed(x)
  }

  lemma PrintedIsPlain(x: real)
    ensures Plain(Printed(x)) && Printed(x) != "" && IsDigit(Printed(x)[0])
  {
    hide WholePart, Millionths, NatText, PadText;
  }

  lemma SkipsOneBlank(s: string)
    requires s != "" && !IsBlank(s[0])
    ensures SkipBlanks(" " + s) == s && SkipBlanks(s) == s
  {
    assert (" " + s)[1..] == s;
  }

  lemma NumberTokenIsRead(x: real, rest: string)
    requires Printable(x)
    requires rest == "" || IsBreak(rest[0])
    ensures NextToken(Ftoa(x) + rest) == (NumberToken(x), if rest == "" then "" else rest[1..])
    ensures NumberToken(x) != ""
  {
    hide Printed, SkipBlanks, TokenOf, WholePart, Millionths;
    var token := NumberToken(x);
    PrintedIsPlain(x);
    SkipsOneBlank(token + rest);
    TextOfToken(x, rest);
    TokenEnds(token, rest);
    assert (token + rest)[|token|..] == rest;
  }

  lemma TextOfToken(x: real, rest: string)
    requires Printable(x)
    ensures Ftoa(x) + rest == if x >= 0.0 then " " + (NumberToken(x) + rest) else NumberToken(x) + rest
  {
    hide WholePart, Millionths, NatText, PadText;
  }

  lemma NumberTokenValue(x: real)
    ensures Strtod(NumberToken(x)) == Kept(x)
  {
    hide DecimalValue, Pow10, TakeDigits, Printed, Mantissa, WholePart, Millionths;
    var w, f := NatText(WholePart(x)), PadText(Millionths(x), 6);
    PrintedIsPlain(x);
    assert Printed(x) == w + ("." + f) by { PrintedText(x); }
    SplitsAtPoint(w, f);
    var token := NumberToken(x);
    assert SkipSpace(token) == token;
    if x < 0.0 {
      assert token[1..] == Printed(x);
    }
    SixDigits(WholePart(x), Millionths(x));
  }

  lemma PrintedText(x: real)
    ensures Printed(x) == NatText(WholePart(x)) + ("." + PadText(Millionths(x), 6))
  {
  }

  lemma SplitsAtPoint(w: string, f: string)
    requires AllDigits(w) && AllDigits(f)
    ensures Mantissa(w + ("." + f)) == (w, f, "")
  {
    hide TakeDigits;
    TakesDigits(w, "." + f);
    assert (w + ("." + f))[|w|..] == "." + f;
    assert ("." + f)[1..] == f + "" && f + "" == f;
    TakesDigits(f, "");
    assert ("." + f)[1 + |f|..] == "";
  }

  lemma SixDigits(whole: nat, frac: nat)
    requires frac < 1000000
    ensures DecimalValue(NatText(whole), PadText(frac, 6)) == whole as real + frac as real / 1000000.0
  {
    NatTextValue(whole);
    assert TenTo(6) == 1000000 by {
      assert TenTo(2) == 100 && TenTo(4) == 10000;
    }
    PadTextValue(frac, 6);
    assert Pow10(6) == 1000000.0 by {
      assert Pow10(2) == 100.0 && Pow10(4) == 10000.0;
    }
  }

  /** Print and parse: the value read back is less than a millionth smaller, with the sign unless it is 0. */
  lemma PrintParse(x: real, rest: string)
    requires Printable(x)
    requires rest == "" || IsBreak(rest[0])
    ensures GetDouble(Ftoa(x) + rest) == (Kept(x), if rest == "" then "" else rest[1..])
    ensures Abs(Kept(x)) <= Abs(x) < Abs(Kept(x)) + 1.0 / 1000000.0
    ensures Kept(x) > 0.0 <==> x >= 1.0 / 1000000.0
    ensures Kept(x) < 0.0 <==> x <= -1.0 / 1000000.0
  {
    NumberTokenIsRead(x, rest);
    NumberTokenValue(x);
    KeptIsClose(x);
  }

  // ---- lists ----

  function Join(xs: seq<real>): string
    requires forall x :: x in xs ==> Printable(x)
  {
    if xs == [] then ""
    else if |xs| == 1 then Ftoa(xs[0])
    else Ftoa(xs[0]) + ("," + Join(xs[1..]))
  }

  /** Reading numbers until checkIfEos says there are no more. */
  function ReadAll(line: string): seq<real>
    decreases |line|
  {
    if AtEnd(line) then []
    else
      var (v, rest) := GetDouble(line);
      [v] + ReadAll(rest)
  }

  /** A comma-joined list is recovered element by element, and the end is seen exactly after the last. */
  lemma {:induction false} ListRoundTrip(xs: seq<real>)
    requires forall x :: x in xs ==> Printable(x)
    ensures |ReadAll(Join(xs))| == |xs|
    ensures forall i :: 0 <= i < |xs| ==> ReadAll(Join(xs))[i] == Kept(xs[i])
    decreases |xs|
  {
    hide Ftoa, Kept, ReadAll, Printable;
    if xs == [] {
      NothingToRead();
    } else {
      var rest := if |xs| == 1 then "" else "," + Join(xs[1..]);
      assert Join(xs) == Ftoa(xs[0]) + rest;
      ReadsFirst(xs[0], rest);
      ListRoundTrip(xs[1..]);
      assert |xs| == 1 ==> xs[1..] == [];
      assert |xs| > 1 ==> rest[1..] == Join(xs[1..]);
    }
  }

  lemma NothingToRead()
    ensures ReadAll("") == []
  {
  }

  lemma ReadsFirst(x: real, rest: string)
    requires Printable(x) && (rest == "" || IsBreak(rest[0]))
    ensures ReadAll(Ftoa(x) + rest) == [Kept(x)] + ReadAll(if rest == "" then "" else rest[1..])
  {
    hide Ftoa, Kept, Strtod, NextToken, Printable;
    NumberTokenIsRead(x, rest);
    NumberTokenValue(x);
  }

  // ---- all the forms of a token ----

  /** A token ends at a blank, a tab, a comma, a semicolon or a control character, which is used up. */
  lemma TokenAtBreak(blanks: string, token: string, c: char, rest: string)
    requires forall i :: 0 <= i < |blanks| ==> blanks[i] in " \t"
    requires forall i :: 0 <= i < |token| ==> token[i] >= ' ' && token[i] !in " ,;"
    requires c < ' ' || c in " ,;"
    requires token != "" || c !in " \t"
    ensures NextToken(blanks + (token + ([c] + rest))) == (token, rest)
    ensures NextToken(blanks + token) == (token, "")
  {
    hide TokenOf, SkipBlanks;
    var line := token + ([c] + rest);
    BlanksSkipped(blanks, line);
    TokenEnds(token, [c] + rest);
    assert line[|token|..] == [c] + rest;
    BlanksSkipped(blanks, token);
    TokenEnds(token, "");
    assert token + "" == token;
  }

  lemma {:induction false} BlanksSkipped(blanks: string, s: string)
    requires (forall i :: 0 <= i < |blanks| ==> blanks[i] in " \t") && (s == "" || s[0] !in " \t")
    ensures SkipBlanks(blanks + s) == s
    decreases |blanks|
  {
    if blanks == "" {
      assert blanks + s == s;
    } else {
      assert blanks[0] in " \t";
      BlanksSkipped(blanks[1..], s);
      assert (blanks + s)[1..] == blanks[1..] + s;
    }
  }

  /** What may stand in front of a number, and its sign. */
  predicate InFront(spaces: string, sign: string) {
    (forall i :: 0 <= i < |spaces| ==> spaces[i] <= ' ' || spaces[i] == 127 as char) && sign in {"", "+", "-"}
  }

  /** Digits with or without a point; there is at least one digit. */
  predicate IsNumber(whole: string, point: bool, frac: string) {
    AllDigits(whole) && AllDigits(frac) && whole + frac != "" && (point || frac == "")
  }

  /** Every number without an exponent: its digits on both sides of the point, and its sign. */
  lemma PlainNumberValue(spaces: string, sign: string, whole: string, point: bool, frac: string, rest: string)
    requires InFront(spaces, sign) && IsNumber(whole, point, frac)
    requires rest == "" || (!IsDigit(rest[0]) && rest[0] !in "eEdD" && (point || rest[0] != '.'))
    ensures Strtod(spaces + (sign + (whole + (if point then "." else "") + frac + rest)))
         == (if sign == "-" then -1.0 else 1.0) * DecimalValue(whole, frac)
  {
    hide DecimalValue;
    NumberParts(spaces, sign, whole, point, frac, rest);
    assert ExponentFactor(rest) == 1.0;
  }

  /** With an exponent: a power of ten, or its inverse when the exponent is negative; no digits stand for 0. */
  lemma ExponentNumberValue(spaces: string, sign: string, whole: string, point: bool, frac: string, mark: char,
                            minus: string, digits: string, rest: string)
    requires InFront(spaces, sign) && IsNumber(whole, point, frac)
    requires mark in "eEdD" && minus in {"", "+", "-"} && AllDigits(digits)
    requires rest == "" || (!IsDigit(rest[0]) && rest[0] != '+' && rest[0] != '-')
    ensures var power := Pow10(DigitsValue(digits));
            var tail := [mark] + (minus + (digits + rest));
            Strtod(spaces + (sign + (whole + (if point then "." else "") + frac + tail)))
            == (if sign == "-" then -1.0 else 1.0)
               * (DecimalValue(whole, frac) * (if minus == "-" then 1.0 / power else power))
  {
    hide DecimalValue, Pow10, DigitsValue, Strtod, ExponentFactor;
    var tail := [mark] + (minus + (digits + rest));
    assert tail[0] == mark;
    NumberParts(spaces, sign, whole, point, frac, tail);
    ExponentValue(mark, minus, digits, rest);
  }

  lemma ExponentValue(mark: char, minus: string, digits: string, rest: string)
    requires mark in "eEdD" && minus in {"", "+", "-"} && AllDigits(digits)
    requires rest == "" || (!IsDigit(rest[0]) && rest[0] != '+' && rest[0] != '-')
    ensures var power := Pow10(DigitsValue(digits));
            ExponentFactor([mark] + (minus + (digits + rest))) == if minus == "-" then 1.0 / power else power
  {
    hide Pow10, DigitsValue, TakeDigits;
    var tail := [mark] + (minus + (digits + rest));
    TakesDigits(digits, rest);
    assert tail[1..] == minus + (digits + rest);
    UnsignedForm(minus, digits + rest);
    assert (tail[1..] != "" && tail[1] == '-') <==> minus == "-";
  }

  /** A text without a number in front is read as 0. */
  lemma NoNumberValue(spaces: string, sign: string, rest: string)
    requires InFront(spaces, sign) && rest != "" && rest[0] > ' ' && rest[0] != 127 as char
    requires !IsDigit(rest[0]) && rest[0] != '.' && rest[0] != '+' && rest[0] != '-'
    ensures Strtod(spaces + (sign + rest)) == 0.0
  {
    hide SkipSpace;
    UnsignedForm(sign, rest);
    SpaceSkipped(spaces, sign + rest);
    assert rest[0..] == rest;
  }

  lemma UnsignedForm(sign: string, s: string)
    requires sign in {"", "+", "-"} && (s == "" || (s[0] != '+' && s[0] != '-'))
    ensures Unsigned(sign + s) == s && Sign(sign + s) == if sign == "-" then -1.0 else 1.0
  {
    if sign == "" {
      assert sign + s == s;
    } else {
      assert (sign + s)[1..] == s;
    }
  }

  lemma NumberParts(spaces: string, sign: string, whole: string, point: bool, frac: string, rest: string)
    requires InFront(spaces, sign) && IsNumber(whole, point, frac)
    requires rest == "" || (!IsDigit(rest[0]) && (point || rest[0] != '.'))
    ensures var number := whole + (if point then "." else "") + frac + rest;
            Strtod(spaces + (sign + number))
            == (if sign == "-" then -1.0 else 1.0) * (DecimalValue(whole, frac) * ExponentFactor(rest))
  {
    hide DecimalValue, TakeDigits, ExponentFactor, Mantissa, SkipSpace;
    var number := whole + (if point then "." else "") + frac + rest;
    FirstIsPlain(whole, point, frac, rest);
    UnsignedForm(sign, number);
    SpaceSkipped(spaces, sign + number);
    MantissaParts(whole, point, frac, rest);
  }

  lemma FirstIsPlain(whole: string, point: bool, frac: string, rest: string)
    requires IsNumber(whole, point, frac)
    ensures var number := whole + (if point then "." else "") + frac + rest;
            number != "" && number[0] > ' ' && number[0] != '+' && number[0] != '-' && number[0] != 127 as char
  {
  }

  lemma {:induction false} SpaceSkipped(spaces: string, s: string)
    requires forall i :: 0 <= i < |spaces| ==> spaces[i] <= ' ' || spaces[i] == 127 as char
    requires s != "" && s[0] > ' ' && s[0] != 127 as char
    ensures SkipSpace(spaces + s) == s
    decreases |spaces|
  {
    if spaces == "" {
      assert spaces + s == s;
    } else {
      SpaceSkipped(spaces[1..], s);
      assert (spaces + s)[1..] == spaces[1..] + s;
    }
  }

  lemma MantissaParts(whole: string, point: bool, frac: string, rest: string)
    requires IsNumber(whole, point, frac)
    requires rest == "" || (!IsDigit(rest[0]) && (point || rest[0] != '.'))
    ensures Mantissa(whole + (if point then "." else "") + frac + rest) == (whole, frac, rest)
  {
    hide TakeDigits, Mantissa, AllDigits;
    if point {
      WithPoint(whole, frac, rest);
      assert whole + "." + frac + rest == whole + ("." + (frac + rest));
    } else {
      WithoutPoint(whole, rest);
      assert whole + "" + "" + rest == whole + rest;
    }
  }

  lemma WithPoint(whole: string, frac: string, rest: string)
    requires AllDigits(whole) && AllDigits(frac) && (rest == "" || !IsDigit(rest[0]))
    ensures Mantissa(whole + ("." + (frac + rest))) == (whole, frac, rest)
  {
    hide TakeDigits;
    var tail := "." + (frac + rest);
    TakesDigits(whole, tail);
    TakesDigits(frac, rest);
    assert (whole + tail)[|whole|..] == tail && tail[1..] == frac + rest && tail[1 + |frac|..] == rest;
  }

  lemma WithoutPoint(whole: string, rest: string)
    requires AllDigits(whole) && (rest == "" || (!IsDigit(rest[0]) && rest[0] != '.'))
    ensures Mantissa(whole + rest) == (whole, "", rest)
  {
    hide TakeDigits;
    TakesDigits(whole, rest);
    assert (whole + rest)[|whole|..] == rest;
  }

  /** The text of a number: a blank or a sign, no leading zeros, a point and six decimals. */
  lemma PrintedForm(x: real)
    requires Printable(x)
    ensures var s := Ftoa(x);
            && (s[0] == if x >= 0.0 then ' ' else '-')
            && |s| >= 9 && s[|s| - 7] == '.'
            && (s[1] == '0' ==> |s| == 9)
            && forall i :: 1 <= i < |s| && i != |s| - 7 ==> '0' <= s[i] <= '9'
  {
    hide WholePart, Millionths, NatText, PadText;
    var w, f := NatText(WholePart(x)), PadText(Millionths(x), 6);
    NoLeadingZero(WholePart(x));
  }
}

/** A printer with no more parentheses than the grammar needs, and the round trip through the parser. */
module MathPrinter {
  import opened Digits
  import opened MathParser

  /** Expressions as they are written: numbers keep their decimal digits, and an exponent has no sign. */
  datatype Expr =
    | Number(whole: string, point: bool, frac: string, exponent: string)
    | Variable(name: string)
    | Call(name: string, arg: Expr)
    | Binary(op: Op, left: Expr, right: Expr)
    | Minus(arg: Expr)

  predicate IsDecimal(whole: string, point: bool, frac: string) {
    AllDigits(whole) && AllDigits(frac) && whole + frac != "" && (!point ==> frac == "")
  }

  predicate Identifier(s: string) {
    s != "" && IsNameStart(s[0]) && forall i :: 0 <= i < |s| ==> IsNameChar(s[i])
  }

  predicate Blanks(s: string) {
    forall i :: 0 <= i < |s| ==> IsBlank(s[i])
  }

  predicate Printable(e: Expr) {
    match e
    case Number(whole, point, frac, exponent) => IsDecimal(whole, point, frac) && AllDigits(exponent)
    case Variable(name) => Identifier(name)
    case Call(name, arg) => Identifier(name) && Printable(arg)
    case Binary(_, left, right) => Printable(left) && Printable(right)
    case Minus(arg) => Printable(arg)
  }

  function Tree(e: Expr): Node {
    match e
    case Number(whole, _, frac, exponent) => Num(DecimalValue(whole, frac) * Pow10(DigitsValue(exponent)))
    case Variable(name) => Var(name)
    case Call(name, arg) => Func(name, Tree(arg))
    case Binary(op, left, right) => Bin(op, Tree(left), Tree(right))
    case Minus(arg) => Neg(Tree(arg))
  }

  /** An operand at level prec needs no parentheses: its own operator binds there. */
  predicate Fits(e: Expr, prec: int) {
    e.Binary? ==> Binds(e.op, prec)
  }

  /** Left operands: '^' takes only atoms, the other operators take what binds at least as tightly. */
  predicate LeftFits(e: Expr, op: Op) {
    match e
    case Binary(op', _, _) => op != Exp && Prec(op') >= Prec(op)
    case Minus(_) => op != Exp
    case _ => true
  }

  function Lexeme(whole: string, point: bool, frac: string): string {
    if point then whole + "." + frac else whole
  }

  function Marked(exponent: string): string {
    if exponent == "" then "" else "e" + exponent
  }

  /** The text of e, every token preceded by the blanks ws. */
  function Text(e: Expr, ws: string): string
    decreases e, 0
  {
    match e
    case Number(whole, point, frac, exponent) => ws + (Lexeme(whole, point, frac) + Marked(exponent))
    case Variable(name) => ws + name
    case Call(name, arg) => ws + name + Wrapped(arg, ws, true)
    case Binary(op, left, right) =>
      Wrapped(left, ws, !LeftFits(left, op)) + (ws + [Symbol(op)]) + Wrapped(right, ws, !Fits(right, Prec(op)))
    case Minus(arg) => ws + "-" + Wrapped(arg, ws, !Fits(arg, 30))
  }

  function Wrapped(e: Expr, ws: string, parens: bool): string
    decreases e, 1
  {
    if parens then ws + "(" + Text(e, ws) + (ws + ")") else Text(e, ws)
  }

  // ---- tokens ----

  lemma SkipsBlanks(ws: string, s: string)
    requires Blanks(ws) && (s == "" || !IsBlank(s[0]))
    ensures SkipBlanks(ws + s) == s
  {
    if ws == "" {
      assert ws + s == s;
    } else {
      SkipsBlanks(ws[1..], s);
      assert (ws + s)[1..] == ws[1..] + s;
    }
  }

  /** What may follow an expression: the end, an operator or a closing parenthesis. */
  predicate Boundary(rest: string) {
    var t := SkipBlanks(rest);
    t == "" || IsOp(t[0]) || t[0] == ')'
  }

  lemma BoundaryFirst(rest: string)
    requires Boundary(rest)
    ensures rest == "" || IsBlank(rest[0]) || IsOp(rest[0]) || rest[0] == ')'
  {
  }

  lemma {:induction false} TakesName(name: string, rest: string)
    requires forall i :: 0 <= i < |name| ==> IsNameChar(name[i])
    requires rest == "" || !IsNameChar(rest[0])
    ensures TakeName(name + rest) == name
    decreases |name|
  {
    if name == "" {
      assert name + rest == rest;
    } else {
      TakesName(name[1..], rest);
      assert (name + rest)[1..] == name[1..] + rest;
    }
  }

  lemma {:induction false} SkipsNumber(lexeme: string, rest: string)
    requires forall i :: 0 <= i < |lexeme| ==> IsNumberChar(lexeme[i])
    requires rest == "" || !IsNumberChar(rest[0])
    ensures SkipNumber(lexeme + rest) == rest
    decreases |lexeme|
  {
    if lexeme == "" {
      assert lexeme + rest == rest;
    } else {
      SkipsNumber(lexeme[1..], rest);
      assert (lexeme + rest)[1..] == lexeme[1..] + rest;
    }
  }

  lemma ScansReal(whole: string, point: bool, frac: string, rest: string)
    requires IsDecimal(whole, point, frac)
    requires rest == "" || !(IsDigit(rest[0]) || rest[0] == '.')
    ensures ScanReal(Lexeme(whole, point, frac) + rest) == DecimalValue(whole, frac) * ScanExponent(rest)
  {
    hide DecimalValue, TakeDigits, ScanExponent, DigitsValue, ScanReal;
    if point {
      var tail := "." + (frac + rest);
      assert Lexeme(whole, point, frac) + rest == whole + tail;
      TakesDigits(whole, tail);
      TakesDigits(frac, rest);
      ScansPoint(whole, frac, rest);
    } else {
      TakesDigits(whole, rest);
      ScansWhole(whole, rest);
    }
  }

  lemma ScansPoint(whole: string, frac: string, rest: string)
    requires whole + frac != "" && TakeDigits(whole + ("." + (frac + rest))) == whole && TakeDigits(frac + rest) == frac
    ensures ScanReal(whole + ("." + (frac + rest))) == DecimalValue(whole, frac) * ScanExponent(rest)
  {
    hide DecimalValue, TakeDigits, ScanExponent;
    var s, tail := whole + ("." + (frac + rest)), "." + (frac + rest);
    assert s[|whole|..] == tail && tail[1..] == frac + rest && tail[1 + |frac|..] == rest;
  }

  lemma ScansWhole(whole: string, rest: string)
    requires whole != "" && TakeDigits(whole + rest) == whole && (rest == "" || rest[0] != '.')
    ensures ScanReal(whole + rest) == DecimalValue(whole, "") * ScanExponent(rest)
  {
    hide DecimalValue, TakeDigits, ScanExponent;
    assert (whole + rest)[|whole|..] == rest;
  }

  lemma ScansExponent(exponent: string, rest: string)
    requires AllDigits(exponent) && (rest == "" || !IsNumberChar(rest[0]))
    ensures ScanExponent(Marked(exponent) + rest) == Pow10(DigitsValue(exponent))
  {
    if exponent == "" {
      assert Marked(exponent) + rest == rest;
    } else {
      hide Pow10, DigitsValue, TakeDigits;
      var s := Marked(exponent) + rest;
      assert s == "e" + (exponent + rest);
      UnsignedTail(exponent + rest);
      TakesDigits(exponent, rest);
    }
  }

  lemma UnsignedTail(digits: string)
    requires digits != "" && IsDigit(digits[0]) && TakeDigits(digits) != ""
    ensures ScanExponent("e" + digits) == Pow10(DigitsValue(TakeDigits(digits)))
  {
    hide Pow10, DigitsValue, TakeDigits;
    var s := "e" + digits;
    assert s[1..] == digits && s[1] == digits[0];
  }

  // ---- the round trip ----

  /** No operator after e would be taken into e's last operand. */
  predicate Stops(rest: string, e: Expr) {
    var t := SkipBlanks(rest);
    t == "" || !IsOp(t[0]) ||
    match e
    case Binary(op, _, _) => !Binds(OpOf(t[0]), Prec(op))
    case Minus(_) => !Binds(OpOf(t[0]), 30)
    case _ => true
  }

  /** The parser, at the start of a text, has read e and stands in its loop before the rest. */
  ghost predicate Reads(text: string, e: Expr, prec: int, rest: string) {
    DoParse(text + rest, prec) == Loop(Tree(e), rest, prec)
  }

  /** After a good operand the parser stands in its loop. */
  lemma ReadsOperand(ws: string, t: string, node: Node, rest: string, prec: int)
    requires Blanks(ws) && t != "" && !IsBlank(t[0])
    requires Operand(t) == (true, Parse(node, rest, false))
    ensures DoParse(ws + t, prec) == Loop(node, rest, prec)
  {
    hide Operand, Loop, SkipBlanks;
    SkipsBlanks(ws, t);
  }

  lemma NumberOperand(t: string)
    requires t != "" && IsNumberStart(t[0])
    ensures Operand(t) == (true, Parse(Num(ScanReal(t)), SkipNumber(t), false))
    ensures !IsBlank(t[0])
  {
  }

  lemma LexemeChars(whole: string, point: bool, frac: string)
    requires IsDecimal(whole, point, frac)
    ensures Lexeme(whole, point, frac) != "" && IsNumberStart(Lexeme(whole, point, frac)[0])
    ensures forall i :: 0 <= i < |Lexeme(whole, point, frac)| ==> IsNumberChar(Lexeme(whole, point, frac)[i])
  {
  }

  lemma ReadsNumber(e: Expr, ws: string, prec: int, rest: string)
    requires e.Number? && Printable(e) && Blanks(ws) && Boundary(rest)
    ensures Reads(Text(e, ws), e, prec, rest)
  {
    hide DoParse, Loop, Operand, SkipNumber, ScanReal, ScanExponent, SkipBlanks, DecimalValue, Lexeme;
    var digits, mark := Lexeme(e.whole, e.point, e.frac), Marked(e.exponent);
    var t := digits + mark + rest;
    BoundaryFirst(rest);
    LexemeChars(e.whole, e.point, e.frac);
    assert Text(e, ws) + rest == ws + t;
    assert t == digits + (mark + rest);
    assert mark + rest == "" || (mark + rest)[0] == if mark == "" then rest[0] else 'e';
    ScansReal(e.whole, e.point, e.frac, mark + rest);
    ScansExponent(e.exponent, rest);
    assert SkipNumber(t) == rest by { SkipsNumber(digits + mark, rest); }
    NumberOperand(t);
    assert t[0] == digits[0];
    assert ScanExponent(mark + rest) == Pow10(DigitsValue(e.exponent));
    assert ScanReal(t) == DecimalValue(e.whole, e.frac) * ScanExponent(mark + rest);
    assert Tree(e) == Num(ScanReal(t));
    ReadsOperand(ws, t, Tree(e), rest, prec);
  }

  lemma ReadsVariable(e: Expr, ws: string, prec: int, rest: string)
    requires e.Variable? && Printable(e) && Blanks(ws) && Boundary(rest)
    ensures Reads(Text(e, ws), e, prec, rest)
  {
    hide DoParse, Loop, TakeName, SkipBlanks;
    BoundaryFirst(rest);
    assert Text(e, ws) + rest == ws + (e.name + rest);
    TakesName(e.name, rest);
    assert (e.name + rest)[|e.name|..] == rest;
    ReadsOperand(ws, e.name + rest, Tree(e), SkipBlanks(rest), prec);
    LoopSkips(Var(e.name), rest, prec);
  }

  lemma Closes(ws: string, rest: string)
    requires Blanks(ws)
    ensures CloseParen(ws + ")" + rest) == rest
    ensures Boundary(ws + ")" + rest)
    ensures SkipBlanks(ws + ")" + rest) == ")" + rest
  {
    assert ws + ")" + rest == ws + (")" + rest);
    SkipsBlanks(ws, ")" + rest);
  }

  /** Inside parentheses an expression is read to the closing one. */
  lemma ReadsInside(e: Expr, ws: string, rest: string)
    requires Blanks(ws) && Reads(Text(e, ws), e, 0, ws + ")" + rest)
    ensures var p := DoParse(Text(e, ws) + (ws + ")" + rest), 0);
            p.node == Tree(e) && !p.err && CloseParen(p.rest) == rest
  {
    Closes(ws, rest);
    LoopStops(Tree(e), ws + ")" + rest, 0);
    SkipTwice(ws + ")" + rest);
  }

  lemma ReadsParens(e: Expr, ws: string, prec: int, rest: string)
    requires Blanks(ws) && Reads(Text(e, ws), e, 0, ws + ")" + rest)
    ensures Reads(Wrapped(e, ws, true), e, prec, rest)
  {
    var inside := Text(e, ws) + (ws + ")" + rest);
    hide DoParse, Loop, CloseParen, Text;
    assert Wrapped(e, ws, true) + rest == ws + ("(" + inside);
    assert ("(" + inside)[1..] == inside;
    ReadsInside(e, ws, rest);
    ReadsOperand(ws, "(" + inside, Tree(e), rest, prec);
  }

  lemma ReadsCall(e: Expr, ws: string, prec: int, rest: string)
    requires e.Call? && Printable(e) && Blanks(ws)
    requires Reads(Text(e.arg, ws), e.arg, 0, ws + ")" + rest)
    ensures Reads(Text(e, ws), e, prec, rest)
  {
    hide DoParse, Loop, CloseParen, TakeName, SkipBlanks, Operand, Text;
    var inside := Text(e.arg, ws) + (ws + ")" + rest);
    CallText(e, ws, rest);
    var after := ws + ("(" + inside);
    assert after[0] == if ws == "" then '(' else ws[0];
    TakesName(e.name, after);
    SkipsBlanks(ws, "(" + inside);
    assert ("(" + inside)[1..] == inside;
    ReadsInside(e.arg, ws, rest);
    CallOperand(e.name, after, inside);
    ReadsOperand(ws, e.name + after, Tree(e), rest, prec);
  }

  lemma CallText(e: Expr, ws: string, rest: string)
    requires e.Call?
    ensures Text(e, ws) + rest == ws + (e.name + (ws + ("(" + (Text(e.arg, ws) + (ws + ")" + rest)))))
  {
  }

  /** A name and a parenthesis is a call. */
  lemma CallOperand(name: string, after: string, inside: string)
    requires Identifier(name) && TakeName(name + after) == name && SkipBlanks(after) == "(" + inside
    requires !DoParse(inside, 0).err
    ensures Operand(name + after) == (true, Parse(Func(name, DoParse(inside, 0).node),
                                                  CloseParen(DoParse(inside, 0).rest), false))
  {
    hide DoParse, CloseParen, SkipBlanks, TakeName;
    assert (name + after)[|name|..] == after;
    assert ("(" + inside)[1..] == inside;
  }

  lemma ReadsMinus(e: Expr, ws: string, prec: int, rest: string)
    requires e.Minus? && Blanks(ws) && Stops(rest, e)
    requires Reads(Wrapped(e.arg, ws, !Fits(e.arg, 30)), e.arg, 30, rest)
    ensures Reads(Text(e, ws), e, prec, rest)
  {
    var inside := Wrapped(e.arg, ws, !Fits(e.arg, 30)) + rest;
    hide DoParse, Loop, SkipBlanks, Wrapped, Binds, Operand, Text;
    MinusText(e, ws, rest);
    assert ("-" + inside)[1..] == inside;
    LoopStops(Tree(e.arg), rest, 30);
    MinusOperand("-" + inside);
    ReadsOperand(ws, "-" + inside, Tree(e), SkipBlanks(rest), prec);
    LoopSkips(Tree(e), rest, prec);
  }

  lemma MinusText(e: Expr, ws: string, rest: string)
    requires e.Minus?
    ensures Text(e, ws) + rest == ws + ("-" + (Wrapped(e.arg, ws, !Fits(e.arg, 30)) + rest))
  {
    hide Wrapped;
  }

  lemma MinusOperand(t: string)
    requires t != "" && t[0] == '-'
    ensures var arg := DoParse(t[1..], 30); Operand(t) == (true, Parse(Neg(arg.node), arg.rest, arg.err))
    ensures !IsBlank(t[0])
  {
    hide DoParse;
  }

  /** What follows the left operand of a binary expression. */
  function AfterLeft(e: Expr, ws: string, rest: string): string
    requires e.Binary?
  {
    ws + [Symbol(e.op)] + (Wrapped(e.right, ws, !Fits(e.right, Prec(e.op))) + rest)
  }

  lemma ReadsBinary(e: Expr, ws: string, prec: int, rest: string)
    requires e.Binary? && Blanks(ws) && Fits(e, prec) && Stops(rest, e)
    requires Reads(Wrapped(e.left, ws, !LeftFits(e.left, e.op)), e.left, prec, AfterLeft(e, ws, rest))
    requires Reads(Wrapped(e.right, ws, !Fits(e.right, Prec(e.op))), e.right, Prec(e.op), rest)
    ensures Reads(Text(e, ws), e, prec, rest)
  {
    hide DoParse, Loop, SkipBlanks, Wrapped, Binds, LeftFits;
    var left := Wrapped(e.left, ws, !LeftFits(e.left, e.op));
    var right := Wrapped(e.right, ws, !Fits(e.right, Prec(e.op)));
    assert Text(e, ws) + rest == left + AfterLeft(e, ws, rest);
    var t := [Symbol(e.op)] + (right + rest);
    assert AfterLeft(e, ws, rest) == ws + t;
    SkipsBlanks(ws, t);
    SkipTwice(ws + t);
    LoopSkips(Tree(e.left), ws + t, prec);
    assert t[1..] == right + rest;
    LoopTakes(Tree(e.left), t, prec);
    LoopStops(Tree(e.right), rest, Prec(e.op));
    LoopSkips(Tree(e), rest, prec);
  }

  lemma SymbolBoundary(e: Expr, ws: string, rest: string)
    requires e.Binary? && Blanks(ws)
    ensures Boundary(AfterLeft(e, ws, rest))
    ensures LeftFits(e.left, e.op) ==> Stops(AfterLeft(e, ws, rest), e.left)
    ensures forall prec :: Fits(e, prec) && LeftFits(e.left, e.op) ==> Fits(e.left, prec)
  {
    var t := [Symbol(e.op)] + (Wrapped(e.right, ws, !Fits(e.right, Prec(e.op))) + rest);
    assert AfterLeft(e, ws, rest) == ws + t;
    SkipsBlanks(ws, t);
  }

  /** Reading the text of e, in a context where e needs no parentheses, leaves exactly the tree of e. */
  lemma {:induction false} ReadsText(e: Expr, ws: string, prec: int, rest: string)
    requires Printable(e) && Blanks(ws) && Fits(e, prec) && Boundary(rest) && Stops(rest, e)
    ensures Reads(Text(e, ws), e, prec, rest)
    decreases e, 0
  {
    hide Reads, Boundary, Stops;
    match e
    case Number(_, _, _, _) => ReadsNumber(e, ws, prec, rest);
    case Variable(_) => ReadsVariable(e, ws, prec, rest);
    case Call(_, arg) =>
      InsideStops(arg, ws, rest);
      ReadsText(arg, ws, 0, ws + ")" + rest);
      ReadsCall(e, ws, prec, rest);
    case Minus(arg) =>
      LastStops(e, arg, 30, rest);
      ReadsWrapped(arg, ws, 30, rest, !Fits(arg, 30));
      ReadsMinus(e, ws, prec, rest);
    case Binary(op, left, right) =>
      SymbolBoundary(e, ws, rest);
      ReadsWrapped(left, ws, prec, AfterLeft(e, ws, rest), !LeftFits(left, op));
      LastStops(e, right, Prec(op), rest);
      ReadsWrapped(right, ws, Prec(op), rest, !Fits(right, Prec(op)));
      ReadsBinary(e, ws, prec, rest);
  }

  lemma {:induction false} ReadsWrapped(e: Expr, ws: string, prec: int, rest: string, parens: bool)
    requires Printable(e) && Blanks(ws) && Boundary(rest)
    requires !parens ==> Fits(e, prec) && Stops(rest, e)
    ensures Reads(Wrapped(e, ws, parens), e, prec, rest)
    decreases e, 1
  {
    hide Reads, Boundary, Stops;
    if parens {
      InsideStops(e, ws, rest);
      ReadsText(e, ws, 0, ws + ")" + rest);
      ReadsParens(e, ws, prec, rest);
    } else {
      ReadsText(e, ws, prec, rest);
    }
  }

  lemma InsideStops(e: Expr, ws: string, rest: string)
    requires Blanks(ws)
    ensures Boundary(ws + ")" + rest) && Stops(ws + ")" + rest, e) && Fits(e, 0)
  {
    Closes(ws, rest);
  }

  /** What stops an expression also stops its unparenthesised last operand. */
  lemma LastStops(e: Expr, last: Expr, prec: int, rest: string)
    requires Stops(rest, e)
    requires (e.Minus? && prec == 30) || (e.Binary? && prec == Prec(e.op))
    ensures Fits(last, prec) ==> Stops(rest, last)
  {
  }

  /** Round trip: printing any expression and parsing the text gives back its tree, with no error. */
  lemma RoundTrip(e: Expr, ws: string)
    requires Printable(e) && Blanks(ws)
    ensures DoParse(Text(e, ws), 0) == Parse(Tree(e), "", false)
  {
    ReadsText(e, ws, 0, "");
    assert Text(e, ws) + "" == Text(e, ws);
  }

  /** An exponent mark without digits spoils the whole conversion, and the value stays 0. */
  lemma BareMarkIsZero(whole: string, point: bool, frac: string, mark: char, sign: string, rest: string)
    requires IsDecimal(whole, point, frac) && mark in "eE" && sign in {"", "+", "-"}
    requires rest == "" || (!IsDigit(rest[0]) && rest[0] != '+' && rest[0] != '-')
    ensures ScanReal(Lexeme(whole, point, frac) + ([mark] + sign + rest)) == 0.0
  {
    hide DecimalValue, Lexeme, ScanReal;
    var tail := [mark] + sign + rest;
    ScansReal(whole, point, frac, tail);
    assert tail[1..] == sign + rest && (sign != "" ==> tail[2..] == rest);
  }

  /** A second point ends the value but not the number's text. */
  lemma SecondPointIsSkipped(whole: string, frac: string, more: string)
    requires IsDecimal(whole, true, frac) && AllDigits(more)
    ensures ScanReal(whole + ("." + (frac + ("." + more)))) == DecimalValue(whole, frac)
    ensures SkipNumber(whole + ("." + (frac + ("." + more)))) == ""
  {
    hide DecimalValue, TakeDigits, SkipNumber, ScanReal;
    var rest := "." + more;
    TakesDigits(whole, "." + (frac + rest));
    TakesDigits(frac, rest);
    ScansPoint(whole, frac, rest);
    var lexeme := whole + ("." + (frac + rest));
    assert forall i :: 0 <= i < |lexeme| ==> IsNumberChar(lexeme[i]);
    SkipsNumber(lexeme, "");
    assert lexeme + "" == lexeme;
  }

  /** What the conversion makes of the exponent's digits after a sign. */
  function Scale(sign: Op, exponent: string): real {
    if sign == Sub then 1.0 / Pow10(DigitsValue(exponent)) else Pow10(DigitsValue(exponent))
  }

  /**
   * A sign in the exponent is where the round trip stops: the conversion reads the sign, the cursor does
   * not, so the exponent is added or subtracted as well.
   */
  lemma SignedExponentSplits(whole: string, point: bool, frac: string, sign: Op, exponent: string)
    requires IsDecimal(whole, point, frac) && sign in {Add, Sub} && AllDigits(exponent) && exponent != ""
    ensures DoParse(Lexeme(whole, point, frac) + ("e" + [Symbol(sign)] + exponent), 0)
         == Parse(Bin(sign, Num(DecimalValue(whole, frac) * Scale(sign, exponent)),
                      Num(DecimalValue(exponent, "") * 1.0)), "", false)
  {
    hide DoParse, Loop, Operand, SkipNumber, ScanReal, ScanExponent, DecimalValue, Scale, Lexeme, SkipBlanks;
    var digits, tail := Lexeme(whole, point, frac), [Symbol(sign)] + exponent;
    var s := digits + ("e" + [Symbol(sign)] + exponent);
    LexemeChars(whole, point, frac);
    ScansReal(whole, point, frac, "e" + [Symbol(sign)] + exponent);
    ScansSigned(sign, exponent);
    assert ScanReal(s) == DecimalValue(whole, frac) * Scale(sign, exponent);
    assert s == (digits + "e") + tail;
    SkipsNumber(digits + "e", tail);
    NumberOperand(s);
    assert "" + s == s;
    ReadsOperand("", s, Num(ScanReal(s)), tail, 0);
    assert "" + tail == tail;
    SkipsBlanks("", tail);
    assert tail[1..] == exponent && IsOp(tail[0]) && OpOf(tail[0]) == sign;
    LoopTakes(Num(ScanReal(s)), tail, 0);
    ReadsDigits(exponent, 10);
    SkipsBlanks("", "");
    LoopStops(Bin(sign, Num(ScanReal(s)), Num(DecimalValue(exponent, "") * 1.0)), "", 0);
  }

  lemma ScansSigned(sign: Op, exponent: string)
    requires sign in {Add, Sub} && AllDigits(exponent) && exponent != ""
    ensures ScanExponent("e" + [Symbol(sign)] + exponent) == Scale(sign, exponent)
  {
    hide Pow10, DigitsValue, TakeDigits;
    var s := "e" + [Symbol(sign)] + exponent;
    assert s[2..] == exponent + "" && s[1] == Symbol(sign) && IsDigit(s[2]);
    TakesDigits(exponent, "");
  }

  /** A number with exponent digits, with or without a sign in front of them. */
  function Written(whole: string, point: bool, frac: string, sign: string, exponent: string): string {
    Lexeme(whole, point, frac) + ("e" + sign + exponent)
  }

  /** A number is read as one number exactly when its exponent has no sign. */
  lemma NumberReadIffUnsigned(whole: string, point: bool, frac: string, sign: string, exponent: string)
    requires IsDecimal(whole, point, frac) && AllDigits(exponent) && exponent != ""
    requires sign in {"", [Symbol(Add)], [Symbol(Sub)]}
    ensures var scale := Scale(if sign == [Symbol(Sub)] then Sub else Add, exponent);
            var one := Parse(Num(DecimalValue(whole, frac) * scale), "", false);
            (DoParse(Written(whole, point, frac, sign, exponent), 0) == one) <==> sign == ""
  {
    hide DoParse, Lexeme, Scale, DecimalValue;
    if sign == "" {
      UnsignedIsRead(whole, point, frac, exponent);
      assert DoParse(Written(whole, point, frac, sign, exponent), 0).node
          == Num(DecimalValue(whole, frac) * Scale(Add, exponent));
    } else {
      SignedExponentSplits(whole, point, frac, OpOf(sign[0]), exponent);
    }
  }

  lemma UnsignedIsRead(whole: string, point: bool, frac: string, exponent: string)
    requires IsDecimal(whole, point, frac) && AllDigits(exponent) && exponent != ""
    ensures DoParse(Lexeme(whole, point, frac) + ("e" + "" + exponent), 0)
         == Parse(Num(DecimalValue(whole, frac) * Scale(Add, exponent)), "", false)
  {
    hide DoParse, Lexeme, DecimalValue, Pow10, DigitsValue;
    var e := Number(whole, point, frac, exponent);
    UnsignedText(whole, point, frac, exponent);
    RoundTrip(e, "");
    assert Printable(e) && Tree(e) == Num(DecimalValue(whole, frac) * Scale(Add, exponent));
  }

  lemma UnsignedText(whole: string, point: bool, frac: string, exponent: string)
    requires exponent != ""
    ensures Text(Number(whole, point, frac, exponent), "") == Lexeme(whole, point, frac) + ("e" + "" + exponent)
  {
    hide Lexeme;
    var digits := Lexeme(whole, point, frac);
    assert "e" + "" + exponent == "e" + exponent;
    assert "" + (digits + ("e" + exponent)) == digits + ("e" + exponent);
  }

  lemma ReadsDigits(digits: string, prec: int)
    requires AllDigits(digits) && digits != ""
    ensures DoParse(digits, prec) == Parse(Num(DecimalValue(digits, "") * 1.0), "", false)
  {
    hide DoParse, Loop, Operand, SkipNumber, ScanReal, DecimalValue, SkipBlanks;
    assert "" + digits == digits == digits + "" == Lexeme(digits, false, "");
    ScansReal(digits, false, "", "");
    SkipsNumber(digits, "");
    NumberOperand(digits);
    ReadsOperand("", digits, Num(DecimalValue(digits, "") * 1.0), "", prec);
    SkipsBlanks("", "");
    LoopStops(Num(DecimalValue(digits, "") * 1.0), "", prec);
  }
}

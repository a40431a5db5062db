/** What a text is worth: the value of every form of expression, from the values of its parts' own texts. */
module MathValues {
  import opened Digits
  import opened MathParser
  import opened MathPrinter
  import opened MathGrammar
  import opened MathEval

  /** The value of a text, as MP_evaluate computes it. */
  function ValueOf<V>(s: string, m: Arith<V>, x: V): Option<V> {
    Ev(DoParse(s, 0).node, m, x)
  }

  /** The five operators, each on its operands in the order they are written. */
  function Operation<V>(c: char, m: Arith<V>, a: V, b: V): V {
    if c == '^' then m.pow(a, b)
    else if c == '*' then m.mul(a, b)
    else if c == '/' then m.div(a, b)
    else if c == '+' then m.add(a, b)
    else m.sub(a, b)
  }

  lemma ValueOfTree<V>(e: Expr, ws: string, m: Arith<V>, x: V)
    requires Printable(e) && Blanks(ws)
    ensures ValueOf(Text(e, ws), m, x) == Ev(Tree(e), m, x) && Ev(Tree(e), m, x).Some?
  {
    hide DoParse, Text, Ev, Tree;
    RoundTripValue(e, ws, m, x);
  }

  /** Printed with or without parentheses, an operator combines the values of its operands' texts. */
  lemma OperatorValue<V>(a: Expr, c: char, op: Op, b: Expr, ws: string, m: Arith<V>, x: V)
    requires Printable(a) && Printable(b) && Blanks(ws) && Writes(c, op)
    ensures var l, r := ValueOf(Text(a, ws), m, x), ValueOf(Text(b, ws), m, x);
            l.Some? && r.Some? &&
            ValueOf(Text(Binary(op, a, b), ws), m, x) == Some(Operation(c, m, l.value, r.value)) &&
            ValueOf(Enclosed(a, ws) + (ws + ([c] + Enclosed(b, ws))), m, x)
              == Some(Operation(c, m, l.value, r.value))
  {
    hide DoParse, Text, Enclosed;
    ValueOfTree(a, ws, m, x);
    ValueOfTree(b, ws, m, x);
    ValueOfTree(Binary(op, a, b), ws, m, x);
    Parenthesised(a, c, op, b, ws);
  }

  /** Two operators without parentheses, between operands that need none. */
  lemma TwoOperatorsValue<V>(
    a: Expr, c1: char, op1: Op, b: Expr, c2: char, op2: Op, c: Expr, ws: string, m: Arith<V>, x: V)
    requires IsAtom(a) && IsAtom(b) && IsAtom(c) && Blanks(ws) && Writes(c1, op1) && Writes(c2, op2)
    ensures var s := Text(a, ws) + (ws + [c1]) + Text(b, ws) + (ws + [c2]) + Text(c, ws);
            var l, r, t := ValueOf(Text(a, ws), m, x), ValueOf(Text(b, ws), m, x), ValueOf(Text(c, ws), m, x);
            l.Some? && r.Some? && t.Some? &&
            ValueOf(s, m, x) == Some(if c2 == '^' || (c2 in "*/" && c1 in "+-")
                                     then Operation(c1, m, l.value, Operation(c2, m, r.value, t.value))
                                     else Operation(c2, m, Operation(c1, m, l.value, r.value), t.value))
  {
    hide DoParse, Text, Tree, Ev, Operation, Blanks;
    ValueOfTree(a, ws, m, x);
    ValueOfTree(b, ws, m, x);
    ValueOfTree(c, ws, m, x);
    TwoOperators(a, c1, op1, b, c2, op2, c, ws);
    if c2 == '^' || (c2 in "*/" && c1 in "+-") {
      OperationOnTrees(c2, op2, Tree(b), Tree(c), m, x);
      OperationOnTrees(c1, op1, Tree(a), Bin(op2, Tree(b), Tree(c)), m, x);
    } else {
      OperationOnTrees(c1, op1, Tree(a), Tree(b), m, x);
      OperationOnTrees(c2, op2, Bin(op1, Tree(a), Tree(b)), Tree(c), m, x);
    }
  }

  lemma OperationOnTrees<V>(c: char, op: Op, left: Node, right: Node, m: Arith<V>, x: V)
    requires Writes(c, op) && Ev(left, m, x).Some? && Ev(right, m, x).Some?
    ensures Ev(Bin(op, left, right), m, x) == Some(Operation(c, m, Ev(left, m, x).value, Ev(right, m, x).value))
  {
    hide Apply, Operation, Writes, Ev;
    EvOfBin(op, left, right, Ev(left, m, x).value, Ev(right, m, x).value, m, x);
    ApplyIsOperation(c, op, m, Ev(left, m, x).value, Ev(right, m, x).value);
  }

  lemma EvOfBin<V>(op: Op, left: Node, right: Node, a: V, b: V, m: Arith<V>, x: V)
    requires Ev(left, m, x) == Some(a) && Ev(right, m, x) == Some(b)
    ensures Ev(Bin(op, left, right), m, x) == Some(Apply(m, op, a, b))
  {
    hide Apply, KnownFunction;
  }

  lemma ApplyIsOperation<V>(c: char, op: Op, m: Arith<V>, a: V, b: V)
    requires Writes(c, op)
    ensures Apply(m, op, a, b) == Operation(c, m, a, b)
  {
  }

  lemma SignValue<V>(a: Expr, ws: string, m: Arith<V>, x: V)
    requires Printable(a) && Blanks(ws)
    ensures var v := ValueOf(Text(a, ws), m, x);
            v.Some? && ValueOf(Text(Minus(a), ws), m, x) == Some(m.neg(v.value)) &&
            ValueOf(ws + ("-" + Enclosed(a, ws)), m, x) == Some(m.neg(v.value))
  {
    hide DoParse, Text, Enclosed;
    ValueOfTree(a, ws, m, x);
    ValueOfTree(Minus(a), ws, m, x);
    SignOfParenthesised(a, ws);
  }

  /** A call by its name: sin, cos and tan of the argument's value, and 0 for every other name. */
  lemma CallValue<V>(name: string, a: Expr, ws: string, m: Arith<V>, x: V)
    requires Identifier(name) && Printable(a) && Blanks(ws)
    ensures var v := ValueOf(Text(a, ws), m, x);
            v.Some? && ValueOf(ws + name + Enclosed(a, ws), m, x)
                    == Some(match name
                            case "sin" => m.sin(v.value)
                            case "cos" => m.cos(v.value)
                            case "tan" => m.tan(v.value)
                            case _ => m.lit(0.0))
  {
    hide DoParse;
    ValueOfTree(a, ws, m, x);
    ValueOfTree(Call(name, a), ws, m, x);
    assert Text(Call(name, a), ws) == ws + name + Enclosed(a, ws);
  }

  /** A name alone: x is the variable and every other name is 0. */
  lemma NameValue<V>(name: string, ws: string, m: Arith<V>, x: V)
    requires Identifier(name) && Blanks(ws)
    ensures ValueOf(ws + name, m, x) == Some(if name == "x" then x else m.lit(0.0))
  {
    hide DoParse;
    ValueOfTree(Variable(name), ws, m, x);
    assert Text(Variable(name), ws) == ws + name;
  }

  /** A number written without a point, with one, and with an exponent; v is its decimal value and p the power. */
  lemma NumberValue<V>(whole: string, frac: string, exponent: string, v: real, p: real, ws: string, m: Arith<V>, x: V)
    requires AllDigits(whole) && AllDigits(frac) && AllDigits(exponent) && whole + frac != "" && Blanks(ws)
    requires v == DecimalValue(whole, frac) && p == v * Pow10(DigitsValue(exponent))
    ensures frac == "" ==> ValueOf(ws + whole, m, x) == Some(m.lit(v))
    ensures ValueOf(ws + (whole + "." + frac), m, x) == Some(m.lit(v))
    ensures exponent == "" || ValueOf(ws + (whole + "." + frac + ("e" + exponent)), m, x) == Some(m.lit(p))
  {
    hide DoParse, DigitsValue, Pow10, ValueOf, Blanks, AllDigits, DecimalValue;
    PlainNumber(whole, true, frac, v, ws, m, x);
    if frac == "" {
      PlainNumber(whole, false, frac, v, ws, m, x);
    }
    if exponent != "" {
      MarkedNumber(whole, frac, exponent, p, ws, m, x);
    }
  }

  lemma NumberOfTree<V>(e: Expr, v: real, ws: string, m: Arith<V>, x: V)
    requires Printable(e) && Blanks(ws) && Tree(e) == Num(v)
    ensures ValueOf(Text(e, ws), m, x) == Some(m.lit(v))
  {
    hide DoParse, Text, Tree;
    ValueOfTree(e, ws, m, x);
  }

  lemma PlainNumber<V>(whole: string, point: bool, frac: string, v: real, ws: string, m: Arith<V>, x: V)
    requires IsDecimal(whole, point, frac) && Blanks(ws) && v == DecimalValue(whole, frac)
    ensures ValueOf(ws + Lexeme(whole, point, frac), m, x) == Some(m.lit(v))
  {
    hide DecimalValue, Lexeme, ValueOf;
    var e := Number(whole, point, frac, "");
    assert Text(e, ws) == ws + Lexeme(whole, point, frac);
    assert Pow10(DigitsValue("")) == 1.0;
    NumberOfTree(e, v, ws, m, x);
  }

  lemma MarkedNumber<V>(whole: string, frac: string, exponent: string, p: real, ws: string, m: Arith<V>, x: V)
    requires IsDecimal(whole, true, frac) && AllDigits(exponent) && exponent != "" && Blanks(ws)
    requires p == DecimalValue(whole, frac) * Pow10(DigitsValue(exponent))
    ensures ValueOf(ws + (Lexeme(whole, true, frac) + ("e" + exponent)), m, x) == Some(m.lit(p))
  {
    hide DecimalValue, Lexeme, Pow10, DigitsValue, ValueOf;
    var e := Number(whole, true, frac, exponent);
    assert Text(e, ws) == ws + (Lexeme(whole, true, frac) + ("e" + exponent));
    NumberOfTree(e, p, ws, m, x);
  }
}

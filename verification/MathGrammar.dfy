/** The language the parser reads, as a grammar of sums, products and factors, with no operator levels. */
module MathGrammar {
  import opened Digits
  import opened MathParser
  import opened MathPrinter

  /** The characters each test of the parser names. */
  lemma TokenCharacters(c: char)
    ensures IsBlank(c) <==> c in " \t"
    ensures IsOp(c) <==> c in "^*/+-"
    ensures IsNumberStart(c) <==> c in "0123456789."
    ensures IsNumberChar(c) <==> c in "0123456789.eE"
    ensures IsNameStart(c) <==> 'A' <= c <= 'Z' || 'a' <= c <= 'z' || c == '_'
    ensures IsNameChar(c) <==> 'A' <= c <= 'Z' || 'a' <= c <= 'z' || c == '_' || '0' <= c <= '9'
  {
    assert IsDigit(c) <==> c in "0123456789";
    assert forall k | 0 <= k < 10 :: "0123456789"[k] in "0123456789.";
    assert forall k | 0 <= k < 11 :: "0123456789."[k] in "0123456789.eE";
  }

  /** A phrase at the start of a text and what follows it, or the lack of an operand. */
  datatype Phrase = Failed | Phrase(node: Node, rest: string)

  predicate StartsWith(t: string, chars: string) {
    t != "" && t[0] in chars
  }

  /** atom ::= number | name | name '(' sum [')'] | '(' sum [')']; t starts at a token. */
  function Atom(t: string): (r: Phrase)
    ensures r.Phrase? ==> |r.rest| < |t|
    decreases |t|, 0
  {
    if t == "" then Failed
    else if IsNumberStart(t[0]) then Phrase(Num(ScanReal(t)), SkipNumber(t[1..]))
    else if IsNameStart(t[0]) then
      var name := TakeName(t);
      var u := SkipBlanks(t[|name|..]);
      if StartsWith(u, "(") then
        match Sum(u[1..])
        case Failed => Failed
        case Phrase(arg, rest) => Phrase(Func(name, arg), Closed(rest))
      else Phrase(Var(name), u)
    else if t[0] == '(' then
      match Sum(t[1..])
      case Failed => Failed
      case Phrase(inner, rest) => Phrase(inner, Closed(rest))
    else Failed
  }

  /** A closing parenthesis is read when it is there; none is needed. */
  function Closed(s: string): (r: string)
    ensures |r| <= |s|
  {
    var t := SkipBlanks(s);
    if StartsWith(t, ")") then t[1..] else t
  }

  /** factor ::= '-' factor | atom ['^' factor] */
  function Factor(s: string): (r: Phrase)
    ensures r.Phrase? ==> |r.rest| < |s|
    decreases |s|, 1
  {
    var t := SkipBlanks(s);
    if StartsWith(t, "-") then
      match Factor(t[1..])
      case Failed => Failed
      case Phrase(arg, rest) => Phrase(Neg(arg), rest)
    else
      match Atom(t)
      case Failed => Failed
      case Phrase(base, rest) => Power(base, SkipBlanks(rest))
  }

  /** ['^' factor] */
  function Power(base: Node, t: string): (r: Phrase)
    ensures r.Phrase? ==> |r.rest| <= |t|
    decreases |t|, 2
  {
    if StartsWith(t, "^") then
      match Factor(t[1..])
      case Failed => Failed
      case Phrase(exponent, rest) => Phrase(Bin(Exp, base, exponent), rest)
    else Phrase(base, t)
  }

  /** product ::= factor (('*' | '/') factor)*, grouped from the left */
  function Product(s: string): (r: Phrase)
    ensures r.Phrase? ==> |r.rest| < |s|
    decreases |s|, 3
  {
    match Factor(s)
    case Failed => Failed
    case Phrase(left, rest) => Products(left, rest)
  }

  function Products(left: Node, t: string): (r: Phrase)
    ensures r.Phrase? ==> |r.rest| <= |t|
    decreases |t|, 2
  {
    if StartsWith(t, "*/") then
      match Factor(t[1..])
      case Failed => Failed
      case Phrase(right, rest) => Products(Bin(if t[0] == '*' then Mul else Div, left, right), rest)
    else Phrase(left, t)
  }

  /** sum ::= product (('+' | '-') product)*, grouped from the left */
  function Sum(s: string): (r: Phrase)
    ensures r.Phrase? ==> |r.rest| < |s|
    decreases |s|, 4
  {
    match Product(s)
    case Failed => Failed
    case Phrase(left, rest) => Sums(left, rest)
  }

  function Sums(left: Node, t: string): (r: Phrase)
    ensures r.Phrase? ==> |r.rest| <= |t|
    decreases |t|, 3
  {
    if StartsWith(t, "+-") then
      match Product(t[1..])
      case Failed => Failed
      case Phrase(right, rest) => Sums(Bin(if t[0] == '+' then Add else Sub, left, right), rest)
    else Phrase(left, t)
  }

  // ---- the parser reads this grammar ----

  /** What the grammar should say where the parser leaves p: nothing when the flag is up. */
  function AsPhrase(p: Parse): Phrase {
    if p.err then Failed else Phrase(p.node, p.rest)
  }

  /** The loop at a level stops only at what does not bind there. */
  lemma {:induction false} LoopEnds(node: Node, s: string, prec: int)
    ensures var rest := Loop(node, s, prec).rest;
            SkipBlanks(rest) == rest && (rest == "" || !IsOp(rest[0]) || !Binds(OpOf(rest[0]), prec))
    decreases |s|
  {
    var t := SkipBlanks(s);
    SkipTwice(s);
    if t != "" && IsOp(t[0]) && Binds(OpOf(t[0]), prec) {
      var right := DoParse(t[1..], Prec(OpOf(t[0])));
      LoopEnds(Bin(OpOf(t[0]), node, right.node), right.rest, prec);
    }
  }

  lemma ParseEnds(s: string, prec: int)
    requires !DoParse(s, prec).err
    ensures var rest := DoParse(s, prec).rest;
            SkipBlanks(rest) == rest && (rest == "" || !IsOp(rest[0]) || !Binds(OpOf(rest[0]), prec))
  {
    hide Operand, Loop, SkipBlanks, Binds;
    var first := Operand(SkipBlanks(s)).1;
    assert Operand(SkipBlanks(s)).0 || first.err by { NotFoundIsError(SkipBlanks(s)); }
    LoopEnds(first.node, first.rest, prec);
  }

  lemma NotFoundIsError(t: string)
    ensures !Operand(t).0 ==> Operand(t).1.err
  {
  }

  lemma {:induction false} AtomAgrees(t: string)
    requires !StartsWith(t, "-")
    ensures AsPhrase(Operand(t).1) == Atom(t)
    decreases |t|, 0
  {
    hide Loop, DoParse, SkipBlanks, TakeName, ScanReal, Sum;
    if t == "" {
    } else if IsNumberStart(t[0]) {
    } else if IsNameStart(t[0]) {
      var u := SkipBlanks(t[|TakeName(t)|..]);
      if StartsWith(u, "(") {
        SumAgrees(u[1..]);
      }
    } else if t[0] == '(' {
      SumAgrees(t[1..]);
    }
  }

  /** At the levels of '^', of a sign, and of the right operand of '*' and '/', a factor is read. */
  lemma {:induction false} FactorAgrees(s: string, prec: int)
    requires prec in {20, 30, 40}
    ensures AsPhrase(DoParse(s, prec)) == Factor(s)
    decreases |s|, 1
  {
    hide Loop, SkipBlanks, Atom;
    var t := SkipBlanks(s);
    if StartsWith(t, "-") {
      FactorAgrees(t[1..], 30);
      if !DoParse(t[1..], 30).err {
        ParseEnds(t[1..], 30);
        LoopStops(Operand(t).1.node, Operand(t).1.rest, prec);
      }
    } else {
      AtomAgrees(t);
      NotFoundIsError(t);
      if !Operand(t).1.err {
        PowerAgrees(Operand(t).1.node, Operand(t).1.rest, prec);
      }
    }
  }

  lemma {:induction false} PowerAgrees(node: Node, s: string, prec: int)
    requires prec in {20, 30, 40}
    ensures AsPhrase(Loop(node, s, prec)) == Power(node, SkipBlanks(s))
    decreases |s|, 2
  {
    hide DoParse, SkipBlanks, Factor;
    var t := SkipBlanks(s);
    if StartsWith(t, "^") {
      FactorAgrees(t[1..], 40);
      var right := DoParse(t[1..], 40);
      if !right.err {
        ParseEnds(t[1..], 40);
        LoopStops(Bin(Exp, node, right.node), right.rest, prec);
      }
    }
  }

  /** At a lower level the first factor is read, and then the loop goes on behind it. */
  lemma {:induction false} FirstFactor(s: string, prec: int)
    requires prec in {0, 10}
    ensures Factor(s).Failed? ==> DoParse(s, prec).err
    ensures Factor(s).Phrase? ==> AsPhrase(DoParse(s, prec)) == AsPhrase(Loop(Factor(s).node, Factor(s).rest, prec))
    ensures Factor(s).Phrase? ==> SkipBlanks(Factor(s).rest) == Factor(s).rest && !StartsWith(Factor(s).rest, "^")
    decreases |s|, 3
  {
    hide Loop, SkipBlanks, Atom, DoParse, Operand, Factor;
    FactorAgrees(s, 20);
    if Factor(s).Phrase? {
      ParseEnds(s, 20);
    }
    BehindFactor(s, prec);
  }

  /** Both levels read the same operand; a '^' behind it is taken at either of them. */
  lemma BehindFactor(s: string, prec: int)
    requires prec in {0, 10}
    ensures var high := DoParse(s, 20);
            if high.err then DoParse(s, prec).err
            else AsPhrase(DoParse(s, prec)) == AsPhrase(Loop(high.node, high.rest, prec))
  {
    hide Loop, SkipBlanks, Operand;
    var first := Operand(SkipBlanks(s));
    NotFoundIsError(SkipBlanks(s));
    if first.0 {
      LoopRises(first.1.node, first.1.rest, prec);
    }
  }

  /** The loop at a lower level is the loop at the level of products, and then itself. */
  lemma {:induction false} LoopRises(node: Node, s: string, prec: int)
    requires prec <= 20
    ensures var high := Loop(node, s, 20);
            var low := Loop(node, s, prec);
            var all := Loop(high.node, high.rest, prec);
            low == Parse(all.node, all.rest, high.err || all.err)
    decreases |s|
  {
    hide DoParse, SkipBlanks;
    var t := SkipBlanks(s);
    if t != "" && IsOp(t[0]) && Binds(OpOf(t[0]), 20) {
      var right := DoParse(t[1..], Prec(OpOf(t[0])));
      LoopRises(Bin(OpOf(t[0]), node, right.node), right.rest, prec);
    } else {
      LoopSkips(node, s, prec);
    }
  }

  lemma {:induction false} ProductAgrees(s: string)
    ensures AsPhrase(DoParse(s, 10)) == Product(s)
    decreases |s|, 4
  {
    hide Loop, DoParse, Factor;
    FirstFactor(s, 10);
    if Factor(s).Phrase? {
      ProductsAgree(Factor(s).node, Factor(s).rest);
    }
  }

  lemma {:induction false} ProductsAgree(node: Node, t: string)
    requires SkipBlanks(t) == t && !StartsWith(t, "^")
    ensures AsPhrase(Loop(node, t, 10)) == Products(node, t)
    decreases |t|, 3
  {
    hide DoParse, SkipBlanks, Factor;
    if StartsWith(t, "*/") {
      FactorAgrees(t[1..], 20);
      var right := DoParse(t[1..], 20);
      LoopTakes(node, t, 10);
      if !right.err {
        ParseEnds(t[1..], 20);
        ProductsAgree(Bin(OpOf(t[0]), node, right.node), right.rest);
      }
    } else {
      LoopStops(node, t, 10);
    }
  }

  /** Sums of products, from a point behind the first factor. */
  function SumFrom(node: Node, t: string): Phrase {
    match Products(node, t)
    case Failed => Failed
    case Phrase(left, rest) => Sums(left, rest)
  }

  lemma {:induction false} SumFromAgrees(node: Node, t: string)
    requires SkipBlanks(t) == t && !StartsWith(t, "^")
    ensures AsPhrase(Loop(node, t, 0)) == SumFrom(node, t)
    decreases |t|, 5
  {
    hide DoParse, SkipBlanks, Factor, Product;
    if StartsWith(t, "*/") {
      FactorAgrees(t[1..], 20);
      var right := DoParse(t[1..], 20);
      LoopTakes(node, t, 0);
      if !right.err {
        ParseEnds(t[1..], 20);
        SumFromAgrees(Bin(OpOf(t[0]), node, right.node), right.rest);
      }
    } else if StartsWith(t, "+-") {
      ProductAgrees(t[1..]);
      var right := DoParse(t[1..], 10);
      LoopTakes(node, t, 0);
      if !right.err {
        ParseEnds(t[1..], 10);
        SumFromAgrees(Bin(OpOf(t[0]), node, right.node), right.rest);
      }
    } else {
      LoopStops(node, t, 0);
    }
  }

  /**
   * Precedence climbing reads the grammar: for every text the flag stays down exactly when the grammar finds
   * an operand wherever it needs one, and then the tree and the unread text are the grammar's.
   */
  lemma {:induction false} SumAgrees(s: string)
    ensures AsPhrase(DoParse(s, 0)) == Sum(s)
    decreases |s|, 6
  {
    hide Loop, DoParse, Factor;
    FirstFactor(s, 0);
    if Factor(s).Phrase? {
      SumFromAgrees(Factor(s).node, Factor(s).rest);
    }
  }

  // ---- how operators group ----

  /** The five operators and the characters they are written with. */
  predicate Writes(c: char, op: Op) {
    match op
    case Exp => c == '^'
    case Mul => c == '*'
    case Div => c == '/'
    case Add => c == '+'
    case Sub => c == '-'
  }

  /** An operand that never needs parentheses. */
  predicate IsAtom(e: Expr) {
    Printable(e) && (e.Number? || e.Variable? || e.Call?)
  }

  lemma BareOperands(op: Op, c: char, a: Expr, b: Expr, ws: string)
    requires Writes(c, op) && LeftFits(a, op) && Fits(b, Prec(op))
    ensures Text(Binary(op, a, b), ws) == Text(a, ws) + (ws + [c]) + Text(b, ws)
  {
    assert Wrapped(a, ws, false) == Text(a, ws) && Wrapped(b, ws, false) == Text(b, ws);
  }

  lemma BareSign(a: Expr, ws: string)
    requires Fits(a, 30)
    ensures Text(Minus(a), ws) == ws + "-" + Text(a, ws)
  {
    assert Wrapped(a, ws, false) == Text(a, ws);
  }

  /** Of two operators the second goes first exactly when it is '^', or multiplies or divides after a sum. */
  lemma TwoOperators(a: Expr, c1: char, op1: Op, b: Expr, c2: char, op2: Op, c: Expr, ws: string)
    requires IsAtom(a) && IsAtom(b) && IsAtom(c) && Blanks(ws) && Writes(c1, op1) && Writes(c2, op2)
    ensures var s := Text(a, ws) + (ws + [c1]) + Text(b, ws) + (ws + [c2]) + Text(c, ws);
            var node := if c2 == '^' || (c2 in "*/" && c1 in "+-")
                        then Bin(op1, Tree(a), Bin(op2, Tree(b), Tree(c)))
                        else Bin(op2, Bin(op1, Tree(a), Tree(b)), Tree(c));
            DoParse(s, 0) == Parse(node, "", false)
  {
    hide DoParse, Text;
    if c2 == '^' || (c2 in "*/" && c1 in "+-") {
      BareOperands(op2, c2, b, c, ws);
      BareOperands(op1, c1, a, Binary(op2, b, c), ws);
      Regroup(Text(a, ws) + (ws + [c1]), Text(b, ws) + (ws + [c2]), Text(c, ws));
      Regroup(Text(a, ws) + (ws + [c1]), Text(b, ws), ws + [c2]);
      RoundTrip(Binary(op1, a, Binary(op2, b, c)), ws);
    } else {
      BareOperands(op1, c1, a, b, ws);
      BareOperands(op2, c2, Binary(op1, a, b), c, ws);
      RoundTrip(Binary(op2, Binary(op1, a, b), c), ws);
    }
  }

  lemma Regroup(s: string, t: string, u: string)
    ensures s + (t + u) == s + t + u
  {
  }

  /** A sign goes before every operator but '^'. */
  lemma SignAndOperator(a: Expr, c: char, op: Op, b: Expr, ws: string)
    requires IsAtom(a) && IsAtom(b) && Blanks(ws) && Writes(c, op)
    ensures var s := ws + "-" + Text(a, ws) + (ws + [c]) + Text(b, ws);
            var node := if c == '^' then Neg(Bin(op, Tree(a), Tree(b))) else Bin(op, Neg(Tree(a)), Tree(b));
            DoParse(s, 0) == Parse(node, "", false)
  {
    hide DoParse, Text;
    if c == '^' {
      BareOperands(op, c, a, b, ws);
      BareSign(Binary(op, a, b), ws);
      Regroup(ws + "-", Text(a, ws) + (ws + [c]), Text(b, ws));
      Regroup(ws + "-", Text(a, ws), ws + [c]);
      RoundTrip(Minus(Binary(op, a, b)), ws);
    } else {
      BareSign(a, ws);
      BareOperands(op, c, Minus(a), b, ws);
      RoundTrip(Binary(op, Minus(a), b), ws);
    }
  }

  /** The text of a in parentheses. */
  function Enclosed(a: Expr, ws: string): string {
    ws + "(" + Text(a, ws) + (ws + ")")
  }

  /** Parentheses make operands of any expressions, and the operator between them keeps their order. */
  lemma Parenthesised(a: Expr, c: char, op: Op, b: Expr, ws: string)
    requires Printable(a) && Printable(b) && Blanks(ws) && Writes(c, op)
    ensures DoParse(Enclosed(a, ws) + (ws + ([c] + Enclosed(b, ws))), 0)
         == Parse(Bin(op, Tree(a), Tree(b)), "", false)
  {
    hide DoParse, Loop, SkipBlanks, Text, Binds, Enclosed, Prec, Boundary;
    var t := [c] + Enclosed(b, ws);
    SkipsBlanks("", "");
    SkipTwice(ws + t);
    OperatorFollows(c, op, t, ws);
    ReadsEnclosed(a, ws, 0, ws + t);
    LoopSkips(Tree(a), ws + t, 0);
    BindsAtTop(op);
    LoopTakes(Tree(a), t, 0);
    assert t[1..] == Enclosed(b, ws) == Enclosed(b, ws) + "";
    ReadsEnclosed(b, ws, Prec(op), "");
    LoopStops(Tree(b), "", Prec(op));
    LoopStops(Bin(op, Tree(a), Tree(b)), "", 0);
  }

  lemma OperatorFollows(c: char, op: Op, t: string, ws: string)
    requires Writes(c, op) && Blanks(ws) && t != "" && t[0] == c
    ensures SkipBlanks(ws + t) == t && Boundary(ws + t) && IsOp(c) && OpOf(c) == op
    ensures Boundary("")
  {
    SkipsBlanks(ws, t);
  }

  lemma ReadsEnclosed(a: Expr, ws: string, prec: int, rest: string)
    requires Printable(a) && Blanks(ws) && Boundary(rest)
    ensures DoParse(Enclosed(a, ws) + rest, prec) == Loop(Tree(a), rest, prec)
  {
    hide DoParse, Loop, Boundary, Text;
    ReadsWrapped(a, ws, prec, rest, true);
  }

  lemma BindsAtTop(op: Op)
    ensures Binds(op, 0)
  {
  }

  /** A parenthesised expression is an operand like any other: alone it is read as itself, a sign takes it whole. */
  lemma SignOfParenthesised(a: Expr, ws: string)
    requires Printable(a) && Blanks(ws)
    ensures DoParse(Enclosed(a, ws), 0) == Parse(Tree(a), "", false)
    ensures DoParse(ws + ("-" + Enclosed(a, ws)), 0) == Parse(Neg(Tree(a)), "", false)
  {
    hide DoParse, Loop, SkipBlanks, Text, Binds, Operand, Enclosed;
    var inside := Enclosed(a, ws);
    SkipsBlanks("", "");
    assert inside + "" == inside;
    ReadsEnclosed(a, ws, 0, "");
    ReadsEnclosed(a, ws, 30, "");
    LoopStops(Tree(a), "", 0);
    LoopStops(Tree(a), "", 30);
    assert ("-" + inside)[1..] == inside;
    MinusOperand("-" + inside);
    ReadsOperand(ws, "-" + inside, Neg(Tree(a)), "", 0);
    LoopStops(Neg(Tree(a)), "", 0);
  }
}

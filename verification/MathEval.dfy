/** Evaluation of parsed trees, over any interpretation of the arithmetic, and when it is defined. */
module MathEval {
  import opened Digits
  import opened MathParser
  import opened MathPrinter

  datatype Option<T> = None | Some(value: T)

  /** The machine arithmetic ev uses. */
  datatype Arith<!V> = Arith(
    lit: real -> V, pow: (V, V) -> V, mul: (V, V) -> V, div: (V, V) -> V, add: (V, V) -> V, sub: (V, V) -> V,
    neg: V -> V, sin: V -> V, cos: V -> V, tan: V -> V)

  predicate KnownFunction(name: string) {
    name == "sin" || name == "cos" || name == "tan"
  }

  function Apply<V>(m: Arith<V>, op: Op, a: V, b: V): V {
    match op
    case Exp => m.pow(a, b)
    case Mul => m.mul(a, b)
    case Div => m.div(a, b)
    case Add => m.add(a, b)
    case Sub => m.sub(a, b)
  }

  /** ev; None is a null pointer being followed. An unknown function gives 0 without looking at its argument. */
  function Ev<V>(node: Node, m: Arith<V>, x: V): Option<V> {
    match node
    case Missing => None
    case Num(value) => Some(m.lit(value))
    case Var(name) => Some(if name == "x" then x else m.lit(0.0))
    case Func(name, right) =>
      if !KnownFunction(name) then Some(m.lit(0.0))
      else
        (match Ev(right, m, x)
         case None => None
         case Some(v) => Some(if name == "sin" then m.sin(v) else if name == "cos" then m.cos(v) else m.tan(v)))
    case Neg(right) =>
      (match Ev(right, m, x)
       case None => None
       case Some(v) => Some(m.neg(v)))
    case Bin(op, left, right) =>
      (match (Ev(left, m, x), Ev(right, m, x))
       case (Some(a), Some(b)) => Some(Apply(m, op, a, b))
       case _ => None)
  }

  /** No operator, function or negation has a missing operand. */
  predicate Complete(node: Node) {
    match node
    case Missing => false
    case Num(_) => true
    case Var(_) => true
    case Func(_, right) => Complete(right)
    case Neg(right) => Complete(right)
    case Bin(_, left, right) => Complete(left) && Complete(right)
  }

  /** The error flag is raised exactly when an operand is missing somewhere in the tree. */
  lemma {:induction false} ErrorMeansMissing(s: string, prec: int)
    ensures DoParse(s, prec).err <==> !Complete(DoParse(s, prec).node)
    decreases |s|, 1
  {
    var (found, first) := Operand(SkipBlanks(s));
    OperandError(SkipBlanks(s));
    if found {
      LoopError(first.node, first.rest, prec, first.err);
    }
  }

  lemma {:induction false} OperandError(t: string)
    ensures Operand(t).1.err <==> !Complete(Operand(t).1.node)
    decreases |t|, 0
  {
    if t != "" {
      if IsNameStart(t[0]) {
        var u := SkipBlanks(t[|TakeName(t)|..]);
        if u != "" && u[0] == '(' && |u| <= |t| {
          ErrorMeansMissing(u[1..], 0);
        }
      } else if t[0] == '(' {
        ErrorMeansMissing(t[1..], 0);
      } else if t[0] == '-' {
        ErrorMeansMissing(t[1..], 30);
      }
    }
  }

  lemma {:induction false} LoopError(node: Node, s: string, prec: int, err: bool)
    requires err <==> !Complete(node)
    ensures err || Loop(node, s, prec).err <==> !Complete(Loop(node, s, prec).node)
    decreases |s|, 0
  {
    var t := SkipBlanks(s);
    if t != "" && IsOp(t[0]) && Binds(OpOf(t[0]), prec) {
      var right := DoParse(t[1..], Prec(OpOf(t[0])));
      ErrorMeansMissing(t[1..], Prec(OpOf(t[0])));
      LoopError(Bin(OpOf(t[0]), node, right.node), right.rest, prec, err || right.err);
    }
  }

  /** Exactly which trees ev can walk. */
  predicate Walkable(node: Node) {
    match node
    case Missing => false
    case Num(_) => true
    case Var(_) => true
    case Func(name, right) => KnownFunction(name) ==> Walkable(right)
    case Neg(right) => Walkable(right)
    case Bin(_, left, right) => Walkable(left) && Walkable(right)
  }

  lemma {:induction false} EvDefinedIff<V>(node: Node, m: Arith<V>, x: V)
    ensures Ev(node, m, x).Some? <==> Walkable(node)
  {
    match node
    case Func(_, right) => EvDefinedIff(right, m, x);
    case Neg(right) => EvDefinedIff(right, m, x);
    case Bin(_, left, right) =>
      EvDefinedIff(left, m, x);
      EvDefinedIff(right, m, x);
    case _ =>
  }

  lemma {:induction false} CompleteIsWalkable(node: Node)
    requires Complete(node)
    ensures Walkable(node)
  {
    match node
    case Func(_, right) => CompleteIsWalkable(right);
    case Neg(right) => CompleteIsWalkable(right);
    case Bin(_, left, right) =>
      CompleteIsWalkable(left);
      CompleteIsWalkable(right);
    case _ =>
  }

  /** Totality: a text parsed without error evaluates, under every arithmetic. */
  lemma NoErrorEvaluates<V>(s: string, m: Arith<V>, x: V)
    requires !DoParse(s, 0).err
    ensures Ev(DoParse(s, 0).node, m, x).Some?
  {
    ErrorMeansMissing(s, 0);
    CompleteIsWalkable(DoParse(s, 0).node);
    EvDefinedIff(DoParse(s, 0).node, m, x);
  }

  /** A missing operand is met by evaluation: the text "-" follows a null pointer. */
  lemma MissingOperandCrashes<V>(m: Arith<V>, x: V)
    ensures DoParse("-", 0).err && Ev(DoParse("-", 0).node, m, x) == None
  {
    var s := "-";
    assert s[1..] == "";
    assert Operand("") == (false, Parse(Missing, "", true));
    assert DoParse("", 30) == Parse(Missing, "", true);
    assert Operand(s) == (true, Parse(Neg(Missing), "", true));
  }

  /** Every function the tree calls is one that ev knows. */
  predicate CallsKnown(node: Node) {
    match node
    case Missing => true
    case Num(_) => true
    case Var(_) => true
    case Func(name, right) => KnownFunction(name) && CallsKnown(right)
    case Neg(right) => CallsKnown(right)
    case Bin(_, left, right) => CallsKnown(left) && CallsKnown(right)
  }

  lemma {:induction false} KnownCallsNeedOperands(node: Node)
    requires CallsKnown(node)
    ensures Walkable(node) <==> Complete(node)
  {
    match node
    case Func(_, right) => KnownCallsNeedOperands(right);
    case Neg(right) => KnownCallsNeedOperands(right);
    case Bin(_, left, right) =>
      KnownCallsNeedOperands(left);
      KnownCallsNeedOperands(right);
    case _ =>
  }

  /** With only known functions, evaluation follows a null pointer exactly when the parser has raised its flag. */
  lemma CrashesIffError<V>(s: string, m: Arith<V>, x: V)
    requires CallsKnown(DoParse(s, 0).node)
    ensures Ev(DoParse(s, 0).node, m, x) == None <==> DoParse(s, 0).err
  {
    ErrorMeansMissing(s, 0);
    KnownCallsNeedOperands(DoParse(s, 0).node);
    EvDefinedIff(DoParse(s, 0).node, m, x);
  }

  /** The converse fails: an unknown function hides the missing argument. */
  lemma ErrorMayStillEvaluate<V>(m: Arith<V>, x: V)
    ensures DoParse("f()", 0).err && Ev(DoParse("f()", 0).node, m, x) == Some(m.lit(0.0))
  {
    var s := "f()";
    assert TakeName(s[1..]) == "" && TakeName(s) == "f";
    assert s[1..][1..] == ")";
    assert SkipBlanks(")") == ")";
    assert Operand(")") == (false, Parse(Missing, ")", true));
    assert Operand(s) == (true, Parse(Func("f", Missing), "", true));
  }

  /** Printing and parsing keeps the value under every arithmetic. */
  lemma RoundTripValue<V>(e: Expr, ws: string, m: Arith<V>, x: V)
    requires Printable(e) && Blanks(ws)
    ensures Ev(DoParse(Text(e, ws), 0).node, m, x) == Ev(Tree(e), m, x)
    ensures Ev(DoParse(Text(e, ws), 0).node, m, x).Some?
  {
    RoundTrip(e, ws);
    NoErrorEvaluates(Text(e, ws), m, x);
  }

  datatype Outcome<V> = Invalid | Crashed | Done(value: V, err: bool)

  /** MP_evaluate: the tree is evaluated before the error flag is looked at. */
  method Evaluate<V>(expression: string, m: Arith<V>, x: V) returns (r: Outcome<V>)
    ensures r.Invalid? <==> expression == ""
    ensures r.Crashed? ==> DoParse(expression, 0).err
    ensures expression != "" ==> (r.Crashed? <==> !Walkable(DoParse(expression, 0).node))
    ensures expression != "" && CallsKnown(DoParse(expression, 0).node) ==> (r.Crashed? <==> DoParse(expression, 0).err)
    ensures r.Done? ==> Some(r.value) == Ev(DoParse(expression, 0).node, m, x) && r.err == DoParse(expression, 0).err
  {
    if expression == "" {
      return Invalid;
    }
    var parser := new Parser();
    var node := parser.ParseText(expression);
    EvDefinedIff(node, m, x);
    if !DoParse(expression, 0).err {
      NoErrorEvaluates(expression, m, x);
    }
    if CallsKnown(node) {
      CrashesIffError(expression, m, x);
    }
    match Ev(node, m, x)
    case None => r := Crashed;
    case Some(v) => r := Done(v, parser.err);
  }
}

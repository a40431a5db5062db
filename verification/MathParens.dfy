/** The printer writes no parentheses that could be left out: without them the text is another expression's. */
module MathParens {
  import opened MathParser
  import opened MathPrinter

  // ---- the left operand ----

  /** What the text of `left` without parentheses, an operator and the text of `right` stand for. */
  function HangRight(left: Expr, op: Op, right: Expr): (e: Expr)
    ensures Printable(left) && Printable(right) ==> Printable(e)
    decreases left
  {
    if LeftFits(left, op) then Binary(op, left, right)
    else
      match left
      case Binary(op', l, r) =>
        Binary(op', l, if Fits(r, Prec(op')) then HangRight(r, op, right) else Binary(op, r, right))
      case Minus(arg) => Minus(if Fits(arg, 30) then HangRight(arg, op, right) else Binary(op, arg, right))
      case _ => left
  }

  /** Whatever binds looser than op on its left would take the operator into its own right operand. */
  lemma {:induction false} HangRightFits(left: Expr, op: Op, right: Expr, prec: int)
    requires Fits(left, prec) && Binds(op, prec)
    ensures Fits(HangRight(left, op, right), prec)
    decreases left
  {
  }

  /** The operator and the right operand, as they follow the left one. */
  function Tail(op: Op, right: Expr, ws: string): string {
    ws + [Symbol(op)] + Wrapped(right, ws, !Fits(right, Prec(op)))
  }

  /** The last operand of `left` once it has taken the operator. */
  function Hung(last: Expr, op: Op, right: Expr, prec: int): Expr {
    if Fits(last, prec) then HangRight(last, op, right) else Binary(op, last, right)
  }

  lemma {:induction false} HungText(last: Expr, op: Op, right: Expr, ws: string, prec: int)
    requires Binds(op, prec) && (Fits(last, prec) || !LeftFits(last, op))
    ensures Wrapped(Hung(last, op, right, prec), ws, !Fits(Hung(last, op, right, prec), prec))
         == Wrapped(last, ws, !Fits(last, prec)) + Tail(op, right, ws)
    decreases last, 1
  {
    if Fits(last, prec) {
      HangRightText(last, op, right, ws);
      HangRightFits(last, op, right, prec);
    } else {
      BinaryText(op, last, right, ws);
    }
  }

  lemma BinaryText(op: Op, left: Expr, right: Expr, ws: string)
    ensures Text(Binary(op, left, right), ws) == Wrapped(left, ws, !LeftFits(left, op)) + Tail(op, right, ws)
  {
    hide Wrapped;
    var l, r := Wrapped(left, ws, !LeftFits(left, op)), Wrapped(right, ws, !Fits(right, Prec(op)));
    assert l + (ws + [Symbol(op)]) + r == l + (ws + [Symbol(op)] + r);
  }

  /** Without its parentheses the left operand's last operand takes the operator. */
  lemma {:induction false} HangRightText(left: Expr, op: Op, right: Expr, ws: string)
    ensures Text(HangRight(left, op, right), ws) == Text(left, ws) + Tail(op, right, ws)
    decreases left, 0
  {
    hide Wrapped, Tail;
    if LeftFits(left, op) {
      BinaryText(op, left, right, ws);
      assert Wrapped(left, ws, false) == Text(left, ws) by { Bare(left, ws); }
    } else if left.Binary? {
      HungText(left.right, op, right, ws, Prec(left.op));
      var front := Wrapped(left.left, ws, !LeftFits(left.left, left.op)) + (ws + [Symbol(left.op)]);
      Associate(front, Wrapped(left.right, ws, !Fits(left.right, Prec(left.op))), Tail(op, right, ws));
    } else {
      HungText(left.arg, op, right, ws, 30);
      Associate(ws + "-", Wrapped(left.arg, ws, !Fits(left.arg, 30)), Tail(op, right, ws));
    }
  }

  lemma Bare(e: Expr, ws: string)
    ensures Wrapped(e, ws, false) == Text(e, ws)
  {
  }

  lemma Associate(a: string, b: string, c: string)
    ensures a + b + c == a + (b + c)
  {
  }

  lemma HangRightIsOther(left: Expr, op: Op, right: Expr)
    requires !LeftFits(left, op)
    ensures Tree(HangRight(left, op, right)) != Tree(Binary(op, left, right))
  {
    if left.Binary? {
      NotItsOperand(left.op, Tree(left.left), Tree(left.right));
    }
  }

  lemma NotItsOperand(op: Op, left: Node, right: Node)
    ensures Bin(op, left, right) != left && Bin(op, left, right) != right
  {
    var node := Bin(op, left, right);
    assert left < node && right < node;
  }

  /** The left operand can be written without parentheses exactly when LeftFits says so. */
  lemma BareLeftIffFits(left: Expr, op: Op, right: Expr, ws: string)
    requires Printable(left) && Printable(right) && Blanks(ws)
    ensures (DoParse(Text(left, ws) + Tail(op, right, ws), 0).node == Tree(Binary(op, left, right))) <==>
        LeftFits(left, op)
  {
    hide Text, Tail, Tree, LeftFits, DoParse;
    HangRightText(left, op, right, ws);
    RoundTrip(HangRight(left, op, right), ws);
    var other := HangRight(left, op, right);
    assert DoParse(Text(left, ws) + Tail(op, right, ws), 0).node == Tree(other);
    if LeftFits(left, op) {
      assert other == Binary(op, left, right);
    } else {
      HangRightIsOther(left, op, right);
    }
  }

  // ---- the right operand, and the operand of a minus ----

  /** What stands in front of an operand: an operator with its left operand, or a minus. */
  datatype Head = After(op: Op, left: Expr) | Negated
  {
    function Level(): int { if After? then Prec(op) else 30 }

    function Applied(e: Expr): Expr { if After? then Binary(op, left, e) else Minus(e) }

    predicate Writable() { After? ==> Printable(left) }

    function Written(ws: string): string {
      if After? then Wrapped(left, ws, !LeftFits(left, op)) + (ws + [Symbol(op)]) else ws + "-"
    }
  }

  /** What the head followed by the text of `e` without parentheses stands for. */
  function HangLeft(head: Head, e: Expr): (r: Expr)
    ensures head.Writable() && Printable(e) ==> Printable(r)
    decreases e
  {
    if Fits(e, head.Level()) then head.Applied(e)
    else Binary(e.op, if LeftFits(e.left, e.op) then HangLeft(head, e.left) else head.Applied(e.left), e.right)
  }

  lemma {:induction false} HangLeftFits(head: Head, e: Expr, op: Op)
    requires LeftFits(e, op) && op != Exp && Prec(op) <= head.Level()
    ensures LeftFits(HangLeft(head, e), op)
  {
  }

  /** Without its parentheses the operand's first operand is taken by the head. */
  lemma {:induction false} HangLeftText(head: Head, e: Expr, ws: string)
    ensures Text(HangLeft(head, e), ws) == head.Written(ws) + Text(e, ws)
    decreases e
  {
    if Fits(e, head.Level()) {
      AppliedText(head, e, ws);
    } else {
      var first := if LeftFits(e.left, e.op) then HangLeft(head, e.left) else head.Applied(e.left);
      if LeftFits(e.left, e.op) {
        HangLeftText(head, e.left, ws);
        HangLeftFits(head, e.left, e.op);
      } else {
        AppliedText(head, e.left, ws);
      }
      hide Text, Head.Written;
      BinaryText(e.op, first, e.right, ws);
      BinaryText(e.op, e.left, e.right, ws);
      Associate(head.Written(ws), Wrapped(e.left, ws, !LeftFits(e.left, e.op)), Tail(e.op, e.right, ws));
    }
  }

  lemma AppliedText(head: Head, e: Expr, ws: string)
    ensures Text(head.Applied(e), ws) == head.Written(ws) + Wrapped(e, ws, !Fits(e, head.Level()))
  {
    hide Wrapped;
  }

  lemma HangLeftIsOther(head: Head, e: Expr)
    requires !Fits(e, head.Level())
    ensures Tree(HangLeft(head, e)) != Tree(head.Applied(e))
  {
    NotItsOperand(e.op, Tree(e.left), Tree(e.right));
  }

  /** A right operand, or the operand of a minus, can be written without parentheses exactly when Fits says so. */
  lemma BareOperandIffFits(head: Head, e: Expr, ws: string)
    requires head.Writable() && Printable(e) && Blanks(ws)
    ensures (DoParse(head.Written(ws) + Text(e, ws), 0).node == Tree(head.Applied(e))) <==> Fits(e, head.Level())
  {
    hide Text, Tree, DoParse, Head.Written;
    HangLeftText(head, e, ws);
    RoundTrip(HangLeft(head, e), ws);
    var other := HangLeft(head, e);
    assert DoParse(head.Written(ws) + Text(e, ws), 0).node == Tree(other);
    if Fits(e, head.Level()) {
      assert other == head.Applied(e);
    } else {
      HangLeftIsOther(head, e);
    }
  }
}

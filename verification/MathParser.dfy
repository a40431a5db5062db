/** The expression parser of MathParserLib.c: a cursor into the text, operator precedence, evaluation. */
module MathParser {
  import opened Digits

  datatype Op = Exp | Mul | Div | Add | Sub

  /** The tree; Missing is the null pointer doparse returns when it finds no expression. */
  datatype Node =
    | Missing
    | Num(value: real)
    | Var(name: string)
    | Func(name: string, right: Node)
    | Bin(op: Op, left: Node, right: Node)
    | Neg(right: Node)

  function Prec(op: Op): int {
    match op
    case Exp => 40
    case Mul => 20
    case Div => 20
    case Add => 10
    case Sub => 10
  }

  function Symbol(op: Op): char {
    match op
    case Exp => '^'
    case Mul => '*'
    case Div => '/'
    case Add => '+'
    case Sub => '-'
  }

  predicate IsOp(c: char) {
    c == '^' || c == '*' || c == '/' || c == '+' || c == '-'
  }

  function OpOf(c: char): Op
    requires IsOp(c)
  {
    if c == '^' then Exp else if c == '*' then Mul else if c == '/' then Div else if c == '+' then Add else Sub
  }

  /** Whether the loop takes this operator while parsing an operand at level prec. */
  predicate Binds(op: Op, prec: int) {
    Prec(op) > prec || (op == Exp && Prec(op) >= prec)
  }

  // ---- tokens ----

  predicate IsNumberStart(c: char) { IsDigit(c) || c == '.' }
  predicate IsNumberChar(c: char) { IsDigit(c) || c == '.' || c == 'e' || c == 'E' }
  predicate IsNameStart(c: char) { 'A' <= c <= 'Z' || 'a' <= c <= 'z' || c == '_' }
  predicate IsNameChar(c: char) { IsNameStart(c) || IsDigit(c) }

  function SkipNumber(s: string): (r: string)
    ensures |r| <= |s|
  {
    if s != "" && IsNumberChar(s[0]) then SkipNumber(s[1..]) else s
  }

  function TakeName(s: string): (r: string)
    ensures |r| <= |s|
  {
    if s != "" && IsNameChar(s[0]) then [s[0]] + TakeName(s[1..]) else ""
  }

  lemma TakeNameMore(s: string, name: string, x: nat)
    requires x < |s| && IsNameChar(s[x])
    ensures name + TakeName(s[x..]) == name + [s[x]] + TakeName(s[x + 1..])
  {
    assert s[x..][1..] == s[x + 1..];
  }

  lemma TakeNameEnds(s: string)
    requires s == "" || !IsNameChar(s[0])
    ensures TakeName(s) == ""
  {
  }

  /** What sscanf with %lf leaves in the value: digits, a fraction, an exponent; 0 when it converts nothing. */
  function ScanReal(s: string): real {
    var whole := TakeDigits(s);
    var s1 := s[|whole|..];
    var frac := if s1 != "" && s1[0] == '.' then TakeDigits(s1[1..]) else "";
    var s2 := if s1 != "" && s1[0] == '.' then s1[1 + |frac|..] else s1;
    if whole == "" && frac == "" then 0.0
    else DecimalValue(whole, frac) * ScanExponent(s2)
  }

  /** The factor of an exponent; an exponent mark without digits makes the whole conversion fail. */
  function ScanExponent(s: string): real {
    if s != "" && (s[0] == 'e' || s[0] == 'E') then
      var signed := |s| > 1 && (s[1] == '-' || s[1] == '+');
      var digits := TakeDigits(if signed then s[2..] else s[1..]);
      if digits == "" then 0.0
      else if signed && s[1] == '-' then 1.0 / Pow10(DigitsValue(digits))
      else Pow10(DigitsValue(digits))
    else 1.0
  }

  // ---- doparse ----

  /** What a call leaves: the tree, the rest of the text, and whether it raised the error flag. */
  datatype Parse = Parse(node: Node, rest: string, err: bool)

  function CloseParen(s: string): (r: string)
    ensures |r| <= |s|
  {
    var t := SkipBlanks(s);
    if t != "" && t[0] == ')' then t[1..] else t
  }

  /** The first operand, or no expression; t starts at a token. */
  function Operand(t: string): (r: (bool, Parse))
    ensures |r.1.rest| <= |t|
    decreases |t|, 0
  {
    if t == "" then (false, Parse(Missing, t, true))
    else if IsNumberStart(t[0]) then (true, Parse(Num(ScanReal(t)), SkipNumber(t), false))
    else if IsNameStart(t[0]) then
      var name := TakeName(t);
      var u := SkipBlanks(t[|name|..]);
      if u != "" && u[0] == '(' && |u| <= |t| then
        var arg := DoParse(u[1..], 0);
        (true, Parse(Func(name, arg.node), CloseParen(arg.rest), arg.err))
      else (true, Parse(Var(name), u, false))
    else if t[0] == '(' then
      var inner := DoParse(t[1..], 0);
      (true, Parse(inner.node, CloseParen(inner.rest), inner.err))
    else if t[0] == '-' then
      var arg := DoParse(t[1..], 30);
      (true, Parse(Neg(arg.node), arg.rest, arg.err))
    else (false, Parse(Missing, t, true))
  }

  function DoParse(s: string, prec: int): (r: Parse)
    ensures |r.rest| <= |s|
    decreases |s|, 1
  {
    var (found, first) := Operand(SkipBlanks(s));
    if !found then first
    else
      var all := Loop(first.node, first.rest, prec);
      Parse(all.node, all.rest, first.err || all.err)
  }

  function Loop(node: Node, s: string, prec: int): (r: Parse)
    ensures |r.rest| <= |s|
    decreases |s|, 0
  {
    var t := SkipBlanks(s);
    if t == "" || !IsOp(t[0]) || !Binds(OpOf(t[0]), prec) then Parse(node, t, false)
    else
      var right := DoParse(t[1..], Prec(OpOf(t[0])));
      var all := Loop(Bin(OpOf(t[0]), node, right.node), right.rest, prec);
      Parse(all.node, all.rest, right.err || all.err)
  }

  lemma SkipTwice(s: string)
    ensures SkipBlanks(SkipBlanks(s)) == SkipBlanks(s)
  {
  }

  /** Blanks in front of an operator do not matter. */
  lemma LoopSkips(node: Node, s: string, prec: int)
    ensures Loop(node, SkipBlanks(s), prec) == Loop(node, s, prec)
  {
    SkipTwice(s);
  }

  lemma LoopTakes(node: Node, s: string, prec: int)
    requires SkipBlanks(s) == s && s != "" && IsOp(s[0]) && Binds(OpOf(s[0]), prec)
    ensures var right := DoParse(s[1..], Prec(OpOf(s[0])));
            var all := Loop(Bin(OpOf(s[0]), node, right.node), right.rest, prec);
            Loop(node, s, prec) == Parse(all.node, all.rest, right.err || all.err)
  {
  }

  lemma LoopStops(node: Node, s: string, prec: int)
    requires var t := SkipBlanks(s); t == "" || !IsOp(t[0]) || !Binds(OpOf(t[0]), prec)
    ensures Loop(node, s, prec) == Parse(node, SkipBlanks(s), false)
  {
  }

  class Parser {
    var str: string
    var err: bool

    constructor ()
      ensures str == "" && !err
    {
      str, err := "", false;
    }

    method SkipSpace()
      modifies this`str
      ensures str == SkipBlanks(old(str))
    {
      while str != "" && IsBlank(str[0])
        invariant SkipBlanks(str) == SkipBlanks(old(str))
        decreases |str|
      {
        str := str[1..];
      }
    }

    method ReadNumber() returns (value: real)
      modifies this`str
      ensures value == ScanReal(old(str)) && str == SkipNumber(old(str))
    {
      value := ScanReal(str);
      while str != "" && IsNumberChar(str[0])
        invariant SkipNumber(str) == SkipNumber(old(str))
        decreases |str|
      {
        str := str[1..];
      }
    }

    method ReadName() returns (name: string)
      modifies this`str
      ensures name == TakeName(old(str)) && |name| <= |old(str)| && str == old(str)[|name|..]
    {
      hide TakeName;
      name := "";
      var x := 0;
      assert str[0..] == str;
      while x < |str| && IsNameChar(str[x])
        invariant str == old(str) && 0 <= x <= |str| && name == str[..x]
        invariant TakeName(str) == name + TakeName(str[x..])
      {
        TakeNameMore(str, name, x);
        name := name + [str[x]];
        x := x + 1;
      }
      TakeNameEnds(str[x..]);
      assert name + "" == name;
      str := str[x..];
    }

    method Close()
      modifies this`str
      ensures str == CloseParen(old(str))
    {
      SkipSpace();
      if str != "" && str[0] == ')' {
        str := str[1..];
      }
    }

    /** The branches on the first character; found is false where doparse returns null at once. */
    method ReadOperand() returns (found: bool, node: Node)
      modifies this
      ensures (found, Parse(node, str, err)) == (Operand(old(str)).0,
                                                 Operand(old(str)).1.(err := old(err) || Operand(old(str)).1.err))
      decreases |str|, 0
    {
      found := true;
      if str != "" && IsNumberStart(str[0]) {
        var value := ReadNumber();
        node := Num(value);
      } else if str != "" && IsNameStart(str[0]) {
        ghost var t := str;
        var name := ReadName();
        SkipSpace();
        if str != "" && str[0] == '(' {
          str := str[1..];
          var right := DoParseAt(0);
          node := Func(name, right);
          Close();
        } else {
          node := Var(name);
        }
      } else if str != "" && str[0] == '(' {
        str := str[1..];
        node := DoParseAt(0);
        Close();
      } else if str != "" && str[0] == '-' {
        str := str[1..];
        var right := DoParseAt(30);
        node := Neg(right);
      } else {
        err := true;
        found, node := false, Missing;
      }
    }

    method DoParseAt(prec: int) returns (node: Node)
      modifies this
      ensures Parse(node, str, err) == DoParse(old(str), prec).(err := old(err) || DoParse(old(str), prec).err)
      decreases |str|, 1
    {
      hide Loop, Operand, SkipBlanks, Binds;
      SkipSpace();
      var found;
      found, node := ReadOperand();
      if !found {
        return;
      }
      ghost var all, sofar := Loop(node, str, prec), err;
      LoopSkips(node, str, prec);
      SkipTwice(str);
      SkipSpace();
      while str != "" && IsOp(str[0]) && Binds(OpOf(str[0]), prec)
        invariant |str| <= |old(str)| && SkipBlanks(str) == str
        invariant var rest := Loop(node, str, prec);
                  rest.node == all.node && rest.rest == all.rest && (err || rest.err <==> sofar || all.err)
        decreases |str|
      {
        var op := OpOf(str[0]);
        LoopTakes(node, str, prec);
        str := str[1..];
        var right := DoParseAt(Prec(op));
        node := Bin(op, node, right);
        LoopSkips(node, str, prec);
        SkipTwice(str);
        SkipSpace();
      }
      LoopStops(node, str, prec);
    }

    method ParseText(s: string) returns (node: Node)
      modifies this
      ensures Parse(node, str, err) == DoParse(s, 0)
    {
      str, err := s, false;
      node := DoParseAt(0);
    }
  }
}

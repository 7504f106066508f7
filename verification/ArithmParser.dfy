/**
 * The arithmetic parser itself (parser/arithm.c), working on the shared character source: each
 * method moves the cursor and returns exactly as its level of the grammar says.
 */
module ArithmParser {
  import opened Chars
  import opened Parsers
  import opened ArithmGrammar

  /** A level returns the expression and the rest that it should, and sets an error if it should. */
  ghost predicate Gives(r: Parse, e: Option<Expr>, rest: string, before: Option<string>, after: Option<string>) {
    r.expr == e && r.rest == rest && after.Some? == (before.Some? || r.noted)
  }

  // -----------------------------------------------------------------------
  // Single characters and operators.

  /** `parse_char` */
  method ParseChar(p: Parser, c: char) returns (yes: bool)
    requires p.Valid() && c != NUL
    modifies p.Repr()
    ensures p.Valid() && fresh(p.Repr() - old(p.Repr())) && p.symbol == old(p.symbol) && p.error == old(p.error)
    ensures yes == StartsWithChar(old(p.rest), c)
    ensures p.rest == if yes then old(p.rest)[1..] else old(p.rest)
  {
    hide Parser.Valid, Parser.Buffered, PositionAfter;
    var d := p.PeekChar();
    if d != c {
      return false;
    }
    var _ := p.ReadChar();
    return true;
  }

  /** `expect_char`: the same, and an error if the character is not there. */
  method ExpectChar(p: Parser, c: char) returns (yes: bool)
    requires p.Valid() && c != NUL
    modifies p.Repr()
    ensures p.Valid() && fresh(p.Repr() - old(p.Repr())) && p.symbol == old(p.symbol)
    ensures yes == StartsWithChar(old(p.rest), c)
    ensures p.rest == if yes then old(p.rest)[1..] else old(p.rest)
    ensures p.error.Some? == (old(p.error).Some? || !yes) && (yes ==> p.error == old(p.error))
  {
    hide Parser.Valid, Parser.Buffered, PositionAfter;
    yes := ParseChar(p, c);
    if !yes {
      p.SetError("expected '" + [c] + "'");
    }
  }

  /** `consume_whitespace` */
  method ConsumeWhitespace(p: Parser)
    requires p.Valid()
    modifies p.Repr()
    ensures p.Valid() && fresh(p.Repr() - old(p.Repr())) && p.symbol == old(p.symbol) && p.error == old(p.error)
    ensures p.rest == SkipSpaces(old(p.rest))
  {
    hide Parser.Valid, Parser.Buffered, PositionAfter;
    while true
      invariant p.Valid() && fresh(p.Repr() - old(p.Repr())) && p.symbol == old(p.symbol) && p.error == old(p.error)
      invariant SkipSpaces(p.rest) == SkipSpaces(old(p.rest))
      decreases |p.rest|
    {
      var c := p.PeekChar();
      if !IsSpace(c) {
        break;
      }
      var _ := p.ReadChar();
    }
  }

  /** `parse_str` */
  method ParseStr(p: Parser, str: string) returns (yes: bool)
    requires p.Valid() && NulFree(str)
    modifies p.Repr()
    ensures p.Valid() && fresh(p.Repr() - old(p.Repr())) && p.symbol == old(p.symbol) && p.error == old(p.error)
    ensures yes == (str <= old(p.rest))
    ensures p.rest == if yes then old(p.rest)[|str|..] else old(p.rest)
  {
    hide Parser.Valid, Parser.Buffered, PositionAfter;
    yes := p.StartsWith(str);
    if yes {
      var _ := p.Read(|str|);
    }
  }

  /** `parse_binop`: one of `&`, `^`, `|`, `&&`, `||`, but never the first half of another. */
  method ParseBinopText(p: Parser, k: nat) returns (yes: bool)
    requires p.Valid() && k < 5
    modifies p.Repr()
    ensures p.Valid() && fresh(p.Repr() - old(p.Repr())) && p.symbol == old(p.symbol) && p.error == old(p.error)
    ensures yes == BinopAt(old(p.rest), k) && (yes ==> |BinopText(k)| <= |old(p.rest)|)
    ensures p.rest == if yes then old(p.rest)[|BinopText(k)|..] else old(p.rest)
  {
    hide Parser.Valid, Parser.Buffered, PositionAfter;
    var str := BinopText(k);
    yes := p.StartsWith(str);
    if !yes {
      return;
    }
    var c := p.PeekAt(|str|);
    if c == '|' || c == '&' {
      return false;
    }
    var _ := p.Read(|str|);
  }

  lemma AssignTextIsNulFree(op: AssignOp)
    ensures NulFree(AssignText(op))
  {
  }

  /** `peek_assign_op`, tried for each operator in turn. */
  method PeekAssignOp(p: Parser, offset: nat) returns (op: Option<AssignOp>)
    requires p.Valid() && offset <= |p.rest|
    modifies p.Repr()
    ensures p.Valid() && fresh(p.Repr() - old(p.Repr())) && p.symbol == old(p.symbol) && p.error == old(p.error) && p.rest == old(p.rest)
    ensures op == AssignOpAt(p.rest[offset..], 0)
  {
    hide Parser.Valid, Parser.Buffered, PositionAfter, AssignText, ASSIGN_OPS;
    for i := 0 to |ASSIGN_OPS|
      invariant p.Valid() && fresh(p.Repr() - old(p.Repr())) && p.symbol == old(p.symbol) && p.error == old(p.error) && p.rest == old(p.rest)
      invariant AssignOpAt(p.rest[offset..], i) == AssignOpAt(p.rest[offset..], 0)
    {
      AssignTextIsNulFree(ASSIGN_OPS[i]);
      var found := PeekText(p, offset, AssignText(ASSIGN_OPS[i]));
      if found {
        return Some(ASSIGN_OPS[i]);
      }
    }
    return None;
  }

  method PeekText(p: Parser, offset: nat, str: string) returns (yes: bool)
    requires p.Valid() && offset <= |p.rest| && NulFree(str)
    modifies p.Repr()
    ensures p.Valid() && fresh(p.Repr() - old(p.Repr())) && p.symbol == old(p.symbol) && p.error == old(p.error) && p.rest == old(p.rest)
    ensures yes == (str <= p.rest[offset..])
  {
    hide Parser.Valid, Parser.Buffered, PositionAfter;
    for i := 0 to |str|
      invariant p.Valid() && fresh(p.Repr() - old(p.Repr())) && p.symbol == old(p.symbol) && p.error == old(p.error) && p.rest == old(p.rest)
      invariant str[..i] <= p.rest[offset..]
    {
      var c := p.PeekAt(offset + i);
      assert str[i] in str;
      if c != str[i] {
        return false;
      }
      assert str[..i + 1] == str[..i] + [str[i]];
    }
    assert str[..|str|] == str;
    return true;
  }

  // -----------------------------------------------------------------------
  // Terms.

  /** `peek_literal` */
  method PeekLiteral(p: Parser) returns (n: nat)
    requires p.Valid()
    modifies p.Repr()
    ensures p.Valid() && fresh(p.Repr() - old(p.Repr())) && p.symbol == old(p.symbol) && p.error == old(p.error) && p.rest == old(p.rest)
    ensures n == DigitCount(p.rest)
  {
    hide Parser.Valid, Parser.Buffered, PositionAfter;
    n := 0;
    while true
      invariant p.Valid() && fresh(p.Repr() - old(p.Repr())) && p.symbol == old(p.symbol) && p.error == old(p.error) && p.rest == old(p.rest)
      invariant n <= |p.rest| && DigitCount(p.rest) == n + DigitCount(p.rest[n..])
      decreases |p.rest| - n
    {
      var c := p.PeekAt(n);
      if !IsDigit(c) {
        break;
      }
      assert p.rest[n..][1..] == p.rest[n + 1..];
      n := n + 1;
    }
  }

  method LiteralTerm(p: Parser) returns (e: Option<Expr>)
    requires p.Valid()
    modifies p.Repr()
    ensures p.Valid() && fresh(p.Repr() - old(p.Repr())) && p.symbol == old(p.symbol)
    ensures Gives(ParseLiteral(old(p.rest)), e, p.rest, old(p.error), p.error)
  {
    hide Parser.Valid, Parser.Buffered, PositionAfter, LiteralValue, DigitCount;
    var n := PeekLiteral(p);
    if n == 0 {
      return None;
    }
    var str := p.Read(n);
    var value := LiteralValue(str);
    if value.None? {
      p.SetError("failed to parse literal");
      return None;
    }
    return Some(Literal(value.value));
  }

  method VariableTerm(p: Parser) returns (e: Option<Expr>)
    requires p.Valid() && p.symbol.Some?
    modifies p.Repr()
    ensures p.Valid() && fresh(p.Repr() - old(p.Repr())) && p.symbol == old(p.symbol)
    ensures Gives(ParseVariable(old(p.rest), old(p.symbol) == Some(Token)), e, p.rest, old(p.error), p.error)
  {
    hide Parser.Valid, Parser.Buffered, PositionAfter, NameLength;
    var n := p.PeekName(false);
    if n == 0 {
      return None;
    }
    var name := p.Read(n);
    return Some(Variable(name));
  }

  /** The operator of `unop`. */
  method UnopOp(p: Parser) returns (op: Option<UnopType>)
    requires p.Valid()
    modifies p.Repr()
    ensures p.Valid() && fresh(p.Repr() - old(p.Repr())) && p.symbol == old(p.symbol) && p.error == old(p.error)
    ensures op == UnopAt(old(p.rest))
    ensures p.rest == if op.None? then old(p.rest) else old(p.rest)[1..]
  {
    hide Parser.Valid, Parser.Buffered, PositionAfter;
    var c := p.PeekChar();
    match c {
      case '+' => op := Some(Plus);
      case '-' => op := Some(Minus);
      case '~' => op := Some(Tilde);
      case '!' => op := Some(Bang);
      case _ => return None;
    }
    var _ := p.ReadChar();
  }

  lemma UnopFirst(s: string)
    ensures UnopAt(s).Some? ==> s != ""
  {
  }

  method UnopTerm(p: Parser) returns (e: Option<Expr>)
    requires p.Valid() && p.symbol.Some?
    modifies p.Repr()
    ensures p.Valid() && fresh(p.Repr() - old(p.Repr())) && p.symbol == old(p.symbol)
    ensures Gives(ParseUnop(old(p.rest), old(p.symbol) == Some(Token)), e, p.rest, old(p.error), p.error)
    decreases |p.rest|, 1
  {
    hide Parser.Valid, Parser.Buffered, PositionAfter, ParseExpr, UnopAt;
    UnopFirst(p.rest);
    var op := UnopOp(p);
    if op.None? {
      return None;
    }
    e := UnopBody(p, op.value);
  }

  /** The operand. */
  method UnopBody(p: Parser, op: UnopType) returns (e: Option<Expr>)
    requires p.Valid() && p.symbol.Some?
    modifies p.Repr()
    ensures p.Valid() && fresh(p.Repr() - old(p.Repr())) && p.symbol == old(p.symbol)
    ensures var b := ParseExpr(old(p.rest), old(p.symbol) == Some(Token));
      Gives(if b.expr.None? then Failure(b.rest) else Parse(Some(Unop(op, b.expr.value)), b.rest, b.noted),
            e, p.rest, old(p.error), p.error)
    decreases |p.rest|, 19
  {
    hide Parser.Valid, Parser.Buffered, PositionAfter, ParseExpr, NextSymbol;
    var body := ArithmExpr(p);
    if body.None? {
      p.SetError("expected an arithmetic expression after unary operator");
      return None;
    }
    return Some(Unop(op, body.value));
  }

  method Paren(p: Parser) returns (e: Option<Expr>)
    requires p.Valid() && p.symbol.Some?
    modifies p.Repr()
    ensures p.Valid() && fresh(p.Repr() - old(p.Repr())) && p.symbol == old(p.symbol)
    ensures Gives(ParseParen(old(p.rest), old(p.symbol) == Some(Token)), e, p.rest, old(p.error), p.error)
    decreases |p.rest|, 1
  {
    hide Parser.Valid, Parser.Buffered, PositionAfter, ParseExpr, SkipSpaces;
    var open := ParseChar(p, '(');
    if !open {
      return None;
    }
    ConsumeWhitespace(p);
    e := ArithmExpr(p);
    var close := ExpectChar(p, ')');
    if !close {
      return None;
    }
  }

  method Term(p: Parser) returns (e: Option<Expr>)
    requires p.Valid() && p.symbol.Some?
    modifies p.Repr()
    ensures p.Valid() && fresh(p.Repr() - old(p.Repr())) && p.symbol == old(p.symbol)
    ensures Gives(ParseTerm(old(p.rest), old(p.symbol) == Some(Token)), e, p.rest, old(p.error), p.error)
    decreases |p.rest|, 2
  {
    hide Parser.Valid, Parser.Buffered, PositionAfter, ParseParen, ParseUnop, ParseLiteral, ParseVariable;
    e := Paren(p);
    if e.Some? {
      return;
    }
    e := UnopTerm(p);
    if e.Some? {
      return;
    }
    e := LiteralTerm(p);
    if e.Some? {
      return;
    }
    e := VariableTerm(p);
  }

  // -----------------------------------------------------------------------
  // The levels that loop.

  /** What the loop still has to do gives the whole result. */
  ghost predicate Continues(all: Parse, loop: Parse, before: Option<string>, now: Option<string>) {
    loop.expr == all.expr && loop.rest == all.rest && (before.Some? || all.noted) == (now.Some? || loop.noted)
  }

  /** The operator of `factor`, if there is one. */
  method FactorOp(p: Parser) returns (op: Option<BinopType>)
    requires p.Valid()
    modifies p.Repr()
    ensures p.Valid() && fresh(p.Repr() - old(p.Repr())) && p.symbol == old(p.symbol) && p.error == old(p.error)
    ensures op == FactorOpAt(old(p.rest)) && (op.Some? ==> old(p.rest) != "")
    ensures p.rest == if op.None? then old(p.rest) else old(p.rest)[1..]
  {
    hide Parser.Valid, Parser.Buffered, PositionAfter;
    var yes := ParseChar(p, '*');
    if yes {
      return Some(Mul);
    }
    yes := ParseChar(p, '/');
    if yes {
      return Some(Div);
    }
    yes := ParseChar(p, '%');
    if yes {
      return Some(Mod);
    }
    return None;
  }

  lemma FactorLoopStep(left: Expr, s: string, tok: bool)
    ensures var s' := SkipSpaces(s);
      FactorOpAt(s').None? ==> FactorLoop(left, s, tok) == Parse(Some(left), s', false)
    ensures var s' := SkipSpaces(s);
      FactorOpAt(s').Some? && s' != "" ==>
        var right := ParseTerm(SkipSpaces(s'[1..]), tok);
        FactorLoop(left, s, tok) ==
          if right.expr.None? then Failure(right.rest)
          else After(right, FactorLoop(Binop(FactorOpAt(s').value, left, right.expr.value), right.rest, tok))
  {
    hide ParseTerm, SkipSpaces;
  }

  /** One round of the loop of `factor`: another operator and its right operand, or the end. */
  method FactorRound(p: Parser, left: Expr) returns (more: bool, e: Option<Expr>)
    requires p.Valid() && p.symbol.Some?
    modifies p.Repr()
    ensures p.Valid() && fresh(p.Repr() - old(p.Repr())) && p.symbol == old(p.symbol)
    ensures var r := FactorLoop(left, old(p.rest), old(p.symbol) == Some(Token));
      if more then e.Some? && |p.rest| < |old(p.rest)|
        && Continues(r, FactorLoop(e.value, p.rest, old(p.symbol) == Some(Token)), old(p.error), p.error)
      else Gives(r, e, p.rest, old(p.error), p.error)
    decreases |p.rest|, 3
  {
    hide Parser.Valid, Parser.Buffered, PositionAfter, ParseTerm, SkipSpaces, FactorOpAt, FactorLoop;
    FactorLoopStep(left, p.rest, p.symbol == Some(Token));
    ConsumeWhitespace(p);
    var op := FactorOp(p);
    if op.None? {
      return false, Some(left);
    }
    ConsumeWhitespace(p);
    var right := Term(p);
    if right.None? {
      p.SetError("expected a term after *, / or % operator");
      return false, None;
    }
    return true, Some(Binop(op.value, left, right.value));
  }

  method Factor(p: Parser) returns (e: Option<Expr>)
    requires p.Valid() && p.symbol.Some?
    modifies p.Repr()
    ensures p.Valid() && fresh(p.Repr() - old(p.Repr())) && p.symbol == old(p.symbol)
    ensures Gives(ParseFactor(old(p.rest), old(p.symbol) == Some(Token)), e, p.rest, old(p.error), p.error)
    decreases |p.rest|, 4
  {
    hide Parser.Valid, Parser.Buffered, PositionAfter, ParseTerm, FactorLoop;
    ghost var tok, all := p.symbol == Some(Token), ParseFactor(p.rest, p.symbol == Some(Token));
    e := Term(p);
    if e.None? {
      return;
    }
    var more := true;
    while more
      invariant p.Valid() && fresh(p.Repr() - old(p.Repr())) && p.symbol == old(p.symbol) && |p.rest| < |old(p.rest)|
      invariant if more then e.Some? && Continues(all, FactorLoop(e.value, p.rest, tok), old(p.error), p.error)
                else Gives(all, e, p.rest, old(p.error), p.error)
      decreases |p.rest|, more
    {
      more, e := FactorRound(p, e.value);
    }
  }

  /** The operator of `addend`. */
  method AddendOp(p: Parser) returns (op: Option<BinopType>)
    requires p.Valid()
    modifies p.Repr()
    ensures p.Valid() && fresh(p.Repr() - old(p.Repr())) && p.symbol == old(p.symbol) && p.error == old(p.error)
    ensures op == AddendOpAt(old(p.rest))
    ensures p.rest == if op.None? then old(p.rest) else old(p.rest)[1..]
  {
    hide Parser.Valid, Parser.Buffered, PositionAfter;
    var yes := ParseChar(p, '+');
    if yes {
      return Some(Add);
    }
    yes := ParseChar(p, '-');
    if yes {
      return Some(Sub);
    }
    return None;
  }

  lemma AddendLoopStep(left: Expr, s: string, tok: bool)
    ensures AddendOpAt(s).None? ==> AddendLoop(left, s, tok) == Parse(Some(left), s, false)
    ensures AddendOpAt(s).Some? ==> s != ""
    ensures AddendOpAt(s).Some? ==>
      var right := ParseFactor(SkipSpaces(s[1..]), tok);
      AddendLoop(left, s, tok) ==
        if right.expr.None? then Failure(right.rest)
        else After(right, AddendLoop(Binop(AddendOpAt(s).value, left, right.expr.value), right.rest, tok))
  {
    hide ParseFactor, SkipSpaces;
  }

  /** One round of the loop of `addend`. */
  method AddendRound(p: Parser, left: Expr) returns (more: bool, e: Option<Expr>)
    requires p.Valid() && p.symbol.Some?
    modifies p.Repr()
    ensures p.Valid() && fresh(p.Repr() - old(p.Repr())) && p.symbol == old(p.symbol)
    ensures var r := AddendLoop(left, old(p.rest), old(p.symbol) == Some(Token));
      if more then e.Some? && |p.rest| < |old(p.rest)|
        && Continues(r, AddendLoop(e.value, p.rest, old(p.symbol) == Some(Token)), old(p.error), p.error)
      else Gives(r, e, p.rest, old(p.error), p.error)
    decreases |p.rest|, 5
  {
    hide Parser.Valid, Parser.Buffered, PositionAfter, ParseFactor, SkipSpaces, AddendOpAt, AddendLoop;
    AddendLoopStep(left, p.rest, p.symbol == Some(Token));
    var op := AddendOp(p);
    if op.None? {
      return false, Some(left);
    }
    ConsumeWhitespace(p);
    var right := Factor(p);
    if right.None? {
      p.SetError("expected a factor after + or - operator");
      return false, None;
    }
    return true, Some(Binop(op.value, left, right.value));
  }

  method Addend(p: Parser) returns (e: Option<Expr>)
    requires p.Valid() && p.symbol.Some?
    modifies p.Repr()
    ensures p.Valid() && fresh(p.Repr() - old(p.Repr())) && p.symbol == old(p.symbol)
    ensures Gives(ParseAddend(old(p.rest), old(p.symbol) == Some(Token)), e, p.rest, old(p.error), p.error)
    decreases |p.rest|, 6
  {
    hide Parser.Valid, Parser.Buffered, PositionAfter, ParseFactor, AddendLoop;
    ghost var tok, all := p.symbol == Some(Token), ParseAddend(p.rest, p.symbol == Some(Token));
    e := Factor(p);
    if e.None? {
      return;
    }
    var more := true;
    while more
      invariant p.Valid() && fresh(p.Repr() - old(p.Repr())) && p.symbol == old(p.symbol) && |p.rest| < |old(p.rest)|
      invariant if more then e.Some? && Continues(all, AddendLoop(e.value, p.rest, tok), old(p.error), p.error)
                else Gives(all, e, p.rest, old(p.error), p.error)
      decreases |p.rest|, more
    {
      more, e := AddendRound(p, e.value);
    }
  }

  // -----------------------------------------------------------------------
  // The levels that call themselves.

  /** The operator of `shift`. */
  method ShiftOp(p: Parser) returns (op: Option<BinopType>)
    requires p.Valid()
    modifies p.Repr()
    ensures p.Valid() && fresh(p.Repr() - old(p.Repr())) && p.symbol == old(p.symbol) && p.error == old(p.error)
    ensures op == ShiftOpAt(old(p.rest))
    ensures p.rest == if op.None? then old(p.rest) else old(p.rest)[2..]
  {
    hide Parser.Valid, Parser.Buffered, PositionAfter;
    var yes := ParseStr(p, "<<");
    if yes {
      return Some(ShiftLeft);
    }
    yes := ParseStr(p, ">>");
    if yes {
      return Some(ShiftRight);
    }
    return None;
  }

  method Shift(p: Parser) returns (e: Option<Expr>)
    requires p.Valid() && p.symbol.Some?
    modifies p.Repr()
    ensures p.Valid() && fresh(p.Repr() - old(p.Repr())) && p.symbol == old(p.symbol)
    ensures Gives(ParseShift(old(p.rest), old(p.symbol) == Some(Token)), e, p.rest, old(p.error), p.error)
    decreases |p.rest|, 7
  {
    hide Parser.Valid, Parser.Buffered, PositionAfter, ParseAddend, SkipSpaces;
    var left := Addend(p);
    if left.None? {
      return None;
    }
    var op := ShiftOp(p);
    if op.None? {
      return left;
    }
    ConsumeWhitespace(p);
    var right := Shift(p);
    if right.None? {
      p.SetError("expected a term");
      return None;
    }
    return Some(Binop(op.value, left.value, right.value));
  }

  method CompOp(p: Parser) returns (op: Option<BinopType>)
    requires p.Valid()
    modifies p.Repr()
    ensures p.Valid() && fresh(p.Repr() - old(p.Repr())) && p.symbol == old(p.symbol) && p.error == old(p.error)
    ensures var found := CompOpAt(old(p.rest));
      if found.None? then op == None && p.rest == old(p.rest)
      else op == Some(found.value.0) && p.rest == old(p.rest)[found.value.1..]
  {
    hide Parser.Valid, Parser.Buffered, PositionAfter;
    var yes := ParseStr(p, "<=");
    if yes {
      return Some(LessEq);
    }
    yes := ParseChar(p, '<');
    if yes {
      return Some(Less);
    }
    yes := ParseStr(p, ">=");
    if yes {
      return Some(GreaterEq);
    }
    yes := ParseChar(p, '>');
    if yes {
      return Some(Greater);
    }
    return None;
  }

  method Comp(p: Parser) returns (e: Option<Expr>)
    requires p.Valid() && p.symbol.Some?
    modifies p.Repr()
    ensures p.Valid() && fresh(p.Repr() - old(p.Repr())) && p.symbol == old(p.symbol)
    ensures Gives(ParseComp(old(p.rest), old(p.symbol) == Some(Token)), e, p.rest, old(p.error), p.error)
    decreases |p.rest|, 8
  {
    hide Parser.Valid, Parser.Buffered, PositionAfter, ParseShift, SkipSpaces, CompOpAt;
    var left := Shift(p);
    if left.None? {
      return None;
    }
    var op := CompOp(p);
    if op.None? {
      return left;
    }
    ConsumeWhitespace(p);
    var right := Comp(p);
    if right.None? {
      p.SetError("expected a term");
      return None;
    }
    return Some(Binop(op.value, left.value, right.value));
  }

  /** The operator of `equal`. */
  method EqualOp(p: Parser) returns (op: Option<BinopType>)
    requires p.Valid()
    modifies p.Repr()
    ensures p.Valid() && fresh(p.Repr() - old(p.Repr())) && p.symbol == old(p.symbol) && p.error == old(p.error)
    ensures op == EqualOpAt(old(p.rest))
    ensures p.rest == if op.None? then old(p.rest) else old(p.rest)[2..]
  {
    hide Parser.Valid, Parser.Buffered, PositionAfter;
    var yes := ParseStr(p, "==");
    if yes {
      return Some(Equal);
    }
    yes := ParseStr(p, "!=");
    if yes {
      return Some(NotEqual);
    }
    return None;
  }

  method EqualLevel(p: Parser) returns (e: Option<Expr>)
    requires p.Valid() && p.symbol.Some?
    modifies p.Repr()
    ensures p.Valid() && fresh(p.Repr() - old(p.Repr())) && p.symbol == old(p.symbol)
    ensures Gives(ParseEqual(old(p.rest), old(p.symbol) == Some(Token)), e, p.rest, old(p.error), p.error)
    decreases |p.rest|, 9
  {
    hide Parser.Valid, Parser.Buffered, PositionAfter, ParseComp;
    var left := Comp(p);
    if left.None? {
      return None;
    }
    var op := EqualOp(p);
    if op.None? {
      return left;
    }
    var right := EqualLevel(p);
    if right.None? {
      p.SetError("expected a term");
      return None;
    }
    return Some(Binop(op.value, left.value, right.value));
  }

  /** `binop`; the level below is `equal` or another `binop`. */
  method BinopLevel(k: nat, p: Parser) returns (e: Option<Expr>)
    requires p.Valid() && p.symbol.Some? && k < 5
    modifies p.Repr()
    ensures p.Valid() && fresh(p.Repr() - old(p.Repr())) && p.symbol == old(p.symbol)
    ensures Gives(ParseBinop(k, old(p.rest), old(p.symbol) == Some(Token)), e, p.rest, old(p.error), p.error)
    decreases |p.rest|, 10 + k
  {
    hide Parser.Valid, Parser.Buffered, PositionAfter, ParseEqual, SkipSpaces, BinopAt, BinopText, BinopOf;
    var left;
    if k == 0 {
      left := EqualLevel(p);
    } else {
      left := BinopLevel(k - 1, p);
    }
    if left.None? {
      return None;
    }
    var yes := ParseBinopText(p, k);
    if !yes {
      return left;
    }
    ConsumeWhitespace(p);
    var right := BinopLevel(k, p);
    if right.None? {
      p.SetError("expected a term");
      return None;
    }
    return Some(Binop(BinopOf(k), left.value, right.value));
  }

  lemma TernarySteps(s: string, tok: bool)
    ensures var c := ParseBinop(4, s, tok);
      c.expr.None? || !StartsWithChar(c.rest, '?') ==> ParseTernary(s, tok) == c
    ensures var c := ParseBinop(4, s, tok);
      c.expr.Some? && StartsWithChar(c.rest, '?') ==>
        var t := ParseTernary(c.rest[1..], tok);
        ParseTernary(s, tok) ==
          if t.expr.None? || !StartsWithChar(t.rest, ':') then Failure(t.rest)
          else
            var e := ParseTernary(t.rest[1..], tok);
            if e.expr.None? then Failure(e.rest)
            else Parse(Some(Cond(c.expr.value, t.expr.value, e.expr.value)), e.rest, c.noted || t.noted || e.noted)
  {
    hide ParseBinop;
  }

  method Ternary(p: Parser) returns (e: Option<Expr>)
    requires p.Valid() && p.symbol.Some?
    modifies p.Repr()
    ensures p.Valid() && fresh(p.Repr() - old(p.Repr())) && p.symbol == old(p.symbol)
    ensures Gives(ParseTernary(old(p.rest), old(p.symbol) == Some(Token)), e, p.rest, old(p.error), p.error)
    decreases |p.rest|, 16
  {
    hide Parser.Valid, Parser.Buffered, PositionAfter, ParseBinop, ParseTernary;
    TernarySteps(p.rest, p.symbol == Some(Token));
    var condition := BinopLevel(4, p);
    if condition.None? {
      return None;
    }
    var question := ParseChar(p, '?');
    if !question {
      return condition;
    }
    var body := Ternary(p);
    if body.None? {
      p.SetError("expected a logical or term");
      return None;
    }
    var colon := ExpectChar(p, ':');
    if !colon {
      return None;
    }
    var elsePart := Ternary(p);
    if elsePart.None? {
      p.SetError("expected an or term");
      return None;
    }
    return Some(Cond(condition.value, body.value, elsePart.value));
  }

  // -----------------------------------------------------------------------
  // Assignments and whole expressions: the first to look at the token kind.

  method Assignment(p: Parser) returns (e: Option<Expr>)
    requires p.Valid()
    modifies p.Repr()
    ensures p.Valid() && fresh(p.Repr() - old(p.Repr()))
    ensures var (kind, s) := Settle(old(p.symbol), old(p.rest));
      p.symbol == Some(kind) && Gives(ParseAssignment(s, kind == Token), e, p.rest, old(p.error), p.error)
    decreases |p.rest|, 17
  {
    hide Parser.Valid, Parser.Buffered, PositionAfter, ParseExpr, NameLength, AssignOpAt, AssignText, NextSymbol;
    var n := p.PeekName(false);
    if n == 0 {
      return None;
    }
    var op := PeekAssignOp(p, n);
    if op.None? {
      return None;
    }
    e := AssignedValue(p, n, op.value);
  }

  /** The name, the operator and the value of an assignment. */
  method AssignedValue(p: Parser, n: nat, op: AssignOp) returns (e: Option<Expr>)
    requires p.Valid() && p.symbol.Some? && n <= |p.rest| && AssignText(op) <= p.rest[n..]
    modifies p.Repr()
    ensures p.Valid() && fresh(p.Repr() - old(p.Repr())) && p.symbol == old(p.symbol)
    ensures var v := ParseExpr(old(p.rest)[n..][|AssignText(op)|..], old(p.symbol) == Some(Token));
      Gives(if v.expr.None? then Failure(v.rest) else Parse(Some(Assign(op, old(p.rest)[..n], v.expr.value)), v.rest, v.noted),
            e, p.rest, old(p.error), p.error)
    decreases |p.rest|, 16
  {
    hide Parser.Valid, Parser.Buffered, PositionAfter, ParseExpr, AssignText, NextSymbol;
    var name := p.Read(n);
    var _ := p.Read(|AssignText(op)|);
    var value := ArithmExpr(p);
    if value.None? {
      p.SetError("expected an assignment value");
      return None;
    }
    return Some(Assign(op, name, value.value));
  }

  /** `arithm_expr` */
  method ArithmExpr(p: Parser) returns (e: Option<Expr>)
    requires p.Valid()
    modifies p.Repr()
    ensures p.Valid() && fresh(p.Repr() - old(p.Repr()))
    ensures var (kind, s) := Settle(old(p.symbol), old(p.rest));
      p.symbol == Some(kind) && Gives(ParseExpr(s, kind == Token), e, p.rest, old(p.error), p.error)
    decreases |p.rest|, 18
  {
    hide Parser.Valid, Parser.Buffered, PositionAfter, ParseAssignment, ParseTernary, NextSymbol;
    e := Assignment(p);
    if e.Some? {
      return;
    }
    e := Ternary(p);
  }

  /** `mrsh_parse_arithm_expr` */
  method ParseArithmExpr(p: Parser) returns (e: Option<Expr>)
    requires p.Valid()
    modifies p.Repr()
    ensures p.Valid() && fresh(p.Repr() - old(p.Repr()))
    ensures var r := ParseArithm(old(p.symbol), old(p.rest));
      e == r.expr && p.error.Some? == (old(p.error).Some? || r.noted)
    ensures e.Some? ==> p.rest == ""
  {
    hide Parser.Valid, Parser.Buffered, PositionAfter, ParseExpr, NextSymbol, SkipSpaces;
    ConsumeWhitespace(p);
    e := ArithmExpr(p);
    if e.None? {
      return None;
    }
    var c := p.PeekChar();
    if c != NUL {
      p.SetError("garbage at the end of the arithmetic expression");
      return None;
    }
  }
}

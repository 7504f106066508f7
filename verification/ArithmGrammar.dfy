/**
 * Arithmetic expressions (parser/arithm.c): the tree, and what each level of the
 * recursive-descent parser makes of its input.
 */
module ArithmGrammar {
  import opened Chars
  import opened Parsers

  const LONG_MAX := 0x7FFF_FFFF_FFFF_FFFF

  datatype UnopType = Plus | Minus | Tilde | Bang

  datatype BinopType =
    | Mul | Div | Mod
    | Add | Sub
    | ShiftLeft | ShiftRight
    | Less | LessEq | Greater | GreaterEq
    | Equal | NotEqual
    | BitAnd | BitXor | BitOr
    | And | Or

  datatype AssignOp =
    | Set | SetMul | SetDiv | SetMod | SetAdd | SetSub
    | SetShiftLeft | SetShiftRight | SetAnd | SetXor | SetOr

  datatype Expr =
    | Literal(value: int)
    | Variable(name: string)
    | Unop(uop: UnopType, body: Expr)
    | Binop(bop: BinopType, left: Expr, right: Expr)
    | Cond(condition: Expr, thenPart: Expr, elsePart: Expr)
    | Assign(aop: AssignOp, target: string, value_: Expr)

  /** The result of a level: an expression or none, the input that is left, and whether an error was set on the way. */
  datatype Parse = Parse(expr: Option<Expr>, rest: string, noted: bool)

  /** A result that comes after another one: the errors set before it stay on record. */
  function After(first: Parse, second: Parse): Parse {
    second.(noted := first.noted || second.noted)
  }

  /** A failure that sets an error. */
  function Failure(rest: string): Parse {
    Parse(None, rest, true)
  }

  /** A level never adds input, and takes at least one character when it succeeds. */
  ghost predicate Progress(s: string, r: Parse) {
    |r.rest| <= |s| && (r.expr.Some? ==> |r.rest| < |s|)
  }

  predicate StartsWithChar(s: string, c: char) {
    s != "" && s[0] == c
  }

  function SkipSpaces(s: string): (r: string)
    ensures |r| <= |s|
  {
    if s != "" && IsSpace(s[0]) then SkipSpaces(s[1..]) else s
  }

  // -----------------------------------------------------------------------
  // Literals and names.

  function DigitCount(s: string): (n: nat)
    ensures n <= |s|
  {
    if s == "" || !IsDigit(s[0]) then 0 else 1 + DigitCount(s[1..])
  }

  /** The value of digits in a base. */
  function DigitsValue(digits: string, base: nat): int {
    if digits == "" then 0
    else DigitsValue(digits[..|digits| - 1], base) * base + (digits[|digits| - 1] as int - '0' as int)
  }

  /** `strtol` in base 0 on digits: octal after a leading zero; None for a bad digit or a too large value. */
  function LiteralValue(digits: string): Option<int> {
    var octal := StartsWithChar(digits, '0');
    if octal && exists c <- digits :: c > '7' then None
    else
      var value := DigitsValue(digits, if octal then 8 else 10);
      if value > LONG_MAX then None else Some(value)
  }

  function ParseLiteral(s: string): (r: Parse)
    ensures Progress(s, r)
  {
    var n := DigitCount(s);
    if n == 0 then Parse(None, s, false)
    else
      var value := LiteralValue(s[..n]);
      if value.None? then Failure(s[n..]) else Parse(Some(Literal(value.value)), s[n..], false)
  }

  /** The length of the name at the front, if the parser takes names at all. */
  function Name(s: string, tok: bool): (n: nat)
    ensures n <= |s|
  {
    if tok then NameLength(s, false) else 0
  }

  function ParseVariable(s: string, tok: bool): (r: Parse)
    ensures Progress(s, r)
  {
    var n := Name(s, tok);
    if n == 0 then Parse(None, s, false) else Parse(Some(Variable(s[..n])), s[n..], false)
  }

  // -----------------------------------------------------------------------
  // Operators.

  function UnopAt(s: string): Option<UnopType> {
    if StartsWithChar(s, '+') then Some(Plus)
    else if StartsWithChar(s, '-') then Some(Minus)
    else if StartsWithChar(s, '~') then Some(Tilde)
    else if StartsWithChar(s, '!') then Some(Bang)
    else None
  }

  function FactorOpAt(s: string): Option<BinopType> {
    if StartsWithChar(s, '*') then Some(Mul)
    else if StartsWithChar(s, '/') then Some(Div)
    else if StartsWithChar(s, '%') then Some(Mod)
    else None
  }

  function AddendOpAt(s: string): Option<BinopType> {
    if StartsWithChar(s, '+') then Some(Add)
    else if StartsWithChar(s, '-') then Some(Sub)
    else None
  }

  function ShiftOpAt(s: string): Option<BinopType> {
    if "<<" <= s then Some(ShiftLeft)
    else if ">>" <= s then Some(ShiftRight)
    else None
  }

  function CompOpAt(s: string): (r: Option<(BinopType, nat)>)
    ensures r.Some? ==> 0 < r.value.1 <= |s|
  {
    if "<=" <= s then Some((LessEq, 2))
    else if StartsWithChar(s, '<') then Some((Less, 1))
    else if ">=" <= s then Some((GreaterEq, 2))
    else if StartsWithChar(s, '>') then Some((Greater, 1))
    else None
  }

  function EqualOpAt(s: string): Option<BinopType> {
    if "==" <= s then Some(Equal)
    else if "!=" <= s then Some(NotEqual)
    else None
  }

  /** The five levels of `binop`, from `&` to `||`. */
  function BinopText(k: nat): (t: string)
    requires k < 5
    ensures 1 <= |t| <= 2
  {
    match k case 0 => "&" case 1 => "^" case 2 => "|" case 3 => "&&" case _ => "||"
  }

  function BinopOf(k: nat): BinopType
    requires k < 5
  {
    match k case 0 => BitAnd case 1 => BitXor case 2 => BitOr case 3 => And case _ => Or
  }

  /** `parse_binop`: the operator, and neither `&` nor `|` after it. */
  predicate BinopAt(s: string, k: nat)
    requires k < 5
  {
    var t := BinopText(k);
    t <= s && !(|t| < |s| && (s[|t|] == '|' || s[|t|] == '&'))
  }

  function AssignText(op: AssignOp): (t: string)
    ensures 1 <= |t| <= 3
  {
    match op
    case Set => "=" case SetMul => "*=" case SetDiv => "/=" case SetMod => "%="
    case SetAdd => "+=" case SetSub => "-=" case SetShiftLeft => "<<=" case SetShiftRight => ">>="
    case SetAnd => "&=" case SetXor => "^=" case SetOr => "|="
  }

  const ASSIGN_OPS := [Set, SetMul, SetDiv, SetMod, SetAdd, SetSub, SetShiftLeft, SetShiftRight, SetAnd, SetXor, SetOr]

  /** The first assignment operator, from entry `k` on, that the text starts with. */
  function AssignOpAt(s: string, k: nat): (r: Option<AssignOp>)
    requires k <= |ASSIGN_OPS|
    ensures r.Some? ==> AssignText(r.value) <= s
    decreases |ASSIGN_OPS| - k
  {
    if k == |ASSIGN_OPS| then None
    else if AssignText(ASSIGN_OPS[k]) <= s then Some(ASSIGN_OPS[k])
    else AssignOpAt(s, k + 1)
  }

  // -----------------------------------------------------------------------
  // The levels. `tok` says whether the symbol found at the start of the input was a token: it is
  // looked for once and never again, and names are only taken after a token.

  function ParseParen(s: string, tok: bool): (r: Parse)
    ensures Progress(s, r)
    decreases |s|, 1
  {
    if !StartsWithChar(s, '(') then Parse(None, s, false)
    else
      var e := ParseExpr(SkipSpaces(s[1..]), tok);
      if StartsWithChar(e.rest, ')') then Parse(e.expr, e.rest[1..], e.noted) else Failure(e.rest)
  }

  function ParseUnop(s: string, tok: bool): (r: Parse)
    ensures Progress(s, r)
    decreases |s|, 1
  {
    var op := UnopAt(s);
    if op.None? then Parse(None, s, false)
    else
      var e := ParseExpr(s[1..], tok);
      if e.expr.None? then Failure(e.rest) else Parse(Some(Unop(op.value, e.expr.value)), e.rest, e.noted)
  }

  /** Each alternative goes on where the failed one before it stopped; an error set by that one stays on record. */
  function ParseTerm(s: string, tok: bool): (r: Parse)
    ensures Progress(s, r)
    decreases |s|, 2
  {
    var p := ParseParen(s, tok);
    if p.expr.Some? then p
    else
      var u := After(p, ParseUnop(p.rest, tok));
      if u.expr.Some? then u
      else
        var l := After(u, ParseLiteral(u.rest));
        if l.expr.Some? then l else After(l, ParseVariable(l.rest, tok))
  }

  function FactorLoop(left: Expr, s: string, tok: bool): (r: Parse)
    ensures |r.rest| <= |s|
    decreases |s|, 3
  {
    var s' := SkipSpaces(s);
    var op := FactorOpAt(s');
    if op.None? then Parse(Some(left), s', false)
    else
      var right := ParseTerm(SkipSpaces(s'[1..]), tok);
      if right.expr.None? then Failure(right.rest)
      else After(right, FactorLoop(Binop(op.value, left, right.expr.value), right.rest, tok))
  }

  function ParseFactor(s: string, tok: bool): (r: Parse)
    ensures Progress(s, r)
    decreases |s|, 4
  {
    var e := ParseTerm(s, tok);
    if e.expr.None? then e else After(e, FactorLoop(e.expr.value, e.rest, tok))
  }

  function AddendLoop(left: Expr, s: string, tok: bool): (r: Parse)
    ensures |r.rest| <= |s|
    decreases |s|, 5
  {
    var op := AddendOpAt(s);
    if op.None? then Parse(Some(left), s, false)
    else
      var right := ParseFactor(SkipSpaces(s[1..]), tok);
      if right.expr.None? then Failure(right.rest)
      else After(right, AddendLoop(Binop(op.value, left, right.expr.value), right.rest, tok))
  }

  function ParseAddend(s: string, tok: bool): (r: Parse)
    ensures Progress(s, r)
    decreases |s|, 6
  {
    var e := ParseFactor(s, tok);
    if e.expr.None? then e else After(e, AddendLoop(e.expr.value, e.rest, tok))
  }

  /** The right operand decides whether a right-recursive level succeeds after its left operand. */
  function Joined(op: BinopType, left: Parse, right: Parse): Parse
    requires left.expr.Some?
  {
    if right.expr.None? then Failure(right.rest)
    else Parse(Some(Binop(op, left.expr.value, right.expr.value)), right.rest, left.noted || right.noted)
  }

  function ParseShift(s: string, tok: bool): (r: Parse)
    ensures Progress(s, r)
    decreases |s|, 7
  {
    var e := ParseAddend(s, tok);
    if e.expr.None? then e
    else
      var op := ShiftOpAt(e.rest);
      if op.None? then e
      else Joined(op.value, e, ParseShift(SkipSpaces(e.rest[2..]), tok))
  }

  function ParseComp(s: string, tok: bool): (r: Parse)
    ensures Progress(s, r)
    decreases |s|, 8
  {
    var e := ParseShift(s, tok);
    if e.expr.None? then e
    else
      var op := CompOpAt(e.rest);
      if op.None? then e
      else Joined(op.value.0, e, ParseComp(SkipSpaces(e.rest[op.value.1..]), tok))
  }

  /** No space is skipped after `==` and `!=`. */
  function ParseEqual(s: string, tok: bool): (r: Parse)
    ensures Progress(s, r)
    decreases |s|, 9
  {
    var e := ParseComp(s, tok);
    if e.expr.None? then e
    else
      var op := EqualOpAt(e.rest);
      if op.None? then e
      else Joined(op.value, e, ParseEqual(e.rest[2..], tok))
  }

  function ParseBinop(k: nat, s: string, tok: bool): (r: Parse)
    requires k < 5
    ensures Progress(s, r)
    decreases |s|, 10 + k
  {
    var e := if k == 0 then ParseEqual(s, tok) else ParseBinop(k - 1, s, tok);
    if e.expr.None? then e
    else if !BinopAt(e.rest, k) then e
    else Joined(BinopOf(k), e, ParseBinop(k, SkipSpaces(e.rest[|BinopText(k)|..]), tok))
  }

  function ParseTernary(s: string, tok: bool): (r: Parse)
    ensures Progress(s, r)
    decreases |s|, 16
  {
    var c := ParseBinop(4, s, tok);
    if c.expr.None? || !StartsWithChar(c.rest, '?') then c
    else
      var t := ParseTernary(c.rest[1..], tok);
      if t.expr.None? || !StartsWithChar(t.rest, ':') then Failure(t.rest)
      else
        var e := ParseTernary(t.rest[1..], tok);
        if e.expr.None? then Failure(e.rest)
        else Parse(Some(Cond(c.expr.value, t.expr.value, e.expr.value)), e.rest, c.noted || t.noted || e.noted)
  }

  function ParseAssignment(s: string, tok: bool): (r: Parse)
    ensures Progress(s, r)
    decreases |s|, 17
  {
    var n := Name(s, tok);
    if n == 0 then Parse(None, s, false)
    else
      var op := AssignOpAt(s[n..], 0);
      if op.None? then Parse(None, s, false)
      else
        var v := ParseExpr(s[n..][|AssignText(op.value)|..], tok);
        if v.expr.None? then Failure(v.rest) else Parse(Some(Assign(op.value, s[..n], v.expr.value)), v.rest, v.noted)
  }

  function ParseExpr(s: string, tok: bool): (r: Parse)
    ensures Progress(s, r)
    decreases |s|, 18
  {
    var a := ParseAssignment(s, tok);
    if a.expr.Some? then a else After(a, ParseTernary(a.rest, tok))
  }

  /** What the whole parser returns, and whether an error is on record then. */
  datatype Outcome = Outcome(expr: Option<Expr>, noted: bool)

  /** `mrsh_parse_arithm_expr`: the whole input has to be an expression. */
  function ParseArithm(symbol: Option<Symbol>, s: string): Outcome {
    var (kind, s') := Settle(symbol, SkipSpaces(s));
    var e := ParseExpr(s', kind == Token);
    if e.expr.Some? && e.rest != "" then Outcome(None, true) else Outcome(e.expr, e.noted)
  }
}

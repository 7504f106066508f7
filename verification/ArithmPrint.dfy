/**
 * Arithmetic expressions as they are written, with their parentheses, white space and digits; a
 * printer; and where the levels of the parser stop.
 */
module ArithmPrint {
  import opened Chars
  import opened Parsers
  import opened ArithmGrammar
  import opened ArithmShape

  // -----------------------------------------------------------------------
  // Operators. Levels count from `arithm_expr` (0) down to `term` (12).

  function OpText(op: BinopType): (t: string)
    ensures 1 <= |t| <= 2
  {
    match op
    case Mul => "*" case Div => "/" case Mod => "%"
    case Add => "+" case Sub => "-"
    case ShiftLeft => "<<" case ShiftRight => ">>"
    case Less => "<" case LessEq => "<=" case Greater => ">" case GreaterEq => ">="
    case Equal => "==" case NotEqual => "!="
    case BitAnd => "&" case BitXor => "^" case BitOr => "|"
    case And => "&&" case Or => "||"
  }

  function OpLevel(op: BinopType): (k: nat)
    ensures 2 <= k <= 11
  {
    match op
    case Or => 2 case And => 3 case BitOr => 4 case BitXor => 5 case BitAnd => 6
    case Equal | NotEqual => 7
    case Less | LessEq | Greater | GreaterEq => 8
    case ShiftLeft | ShiftRight => 9
    case Add | Sub => 10
    case Mul | Div | Mod => 11
  }

  /** The levels made by a loop group to the left, the others to the right. */
  predicate GroupsLeft(op: BinopType) {
    OpLevel(op) >= 10
  }

  function UnopChar(op: UnopType): char {
    match op case Plus => '+' case Minus => '-' case Tilde => '~' case Bang => '!'
  }

  /** The binary operator that an assignment operator performs, if it does more than assign. */
  function AssignedOp(op: AssignOp): Option<BinopType> {
    match op
    case Set => None
    case SetMul => Some(Mul) case SetDiv => Some(Div) case SetMod => Some(Mod)
    case SetAdd => Some(Add) case SetSub => Some(Sub)
    case SetShiftLeft => Some(ShiftLeft) case SetShiftRight => Some(ShiftRight)
    case SetAnd => Some(BitAnd) case SetXor => Some(BitXor) case SetOr => Some(BitOr)
  }

  /** The text of an assignment operator: that of its binary operator, and an equality sign. */
  function AssignmentText(op: AssignOp): (t: string)
    ensures 1 <= |t| <= 3
  {
    var binop := AssignedOp(op);
    if binop.None? then "=" else OpText(binop.value) + "="
  }

  /** The parser looks for the same texts. */
  lemma AssignTexts(op: AssignOp)
    ensures AssignText(op) == AssignmentText(op)
  {
  }

  /** The lowest level that a left operand may have. */
  function LeftLevel(op: BinopType): nat {
    if GroupsLeft(op) then OpLevel(op) else OpLevel(op) + 1
  }

  function RightLevel(op: BinopType): nat {
    if GroupsLeft(op) then OpLevel(op) + 1 else OpLevel(op)
  }

  // -----------------------------------------------------------------------
  // White space.

  /** The white space of a string. */
  function Blanks(s: string): string {
    if s == "" then "" else (if IsSpace(s[0]) then [s[0]] else []) + Blanks(s[1..])
  }

  lemma {:induction false} BlanksAreSkipped(s: string, q: string)
    ensures SkipSpaces(Blanks(s) + q) == SkipSpaces(q)
    ensures Blanks(s) == "" || IsSpace(Blanks(s)[0])
  {
    if s == "" {
      assert Blanks(s) + q == q;
    } else {
      BlanksFirst(s);
      hide IsSpace, Blanks, SkipSpaces;
      BlanksAreSkipped(s[1..], q);
      var rest := Blanks(s[1..]);
      if IsSpace(s[0]) {
        assert [s[0]] + rest + q == [s[0]] + (rest + q);
        SkipOne(s[0], rest + q);
      }
    }
  }

  lemma BlanksFirst(s: string)
    requires s != ""
    ensures Blanks(s) == if IsSpace(s[0]) then [s[0]] + Blanks(s[1..]) else Blanks(s[1..])
  {
    hide IsSpace;
    assert [] + Blanks(s[1..]) == Blanks(s[1..]);
  }

  lemma SkipOne(c: char, s: string)
    requires IsSpace(c)
    ensures SkipSpaces([c] + s) == SkipSpaces(s)
  {
    assert ([c] + s)[1..] == s;
  }

  // -----------------------------------------------------------------------
  // Numbers.

  function Power(base: nat, n: nat): nat {
    if n == 0 then 1 else base * Power(base, n - 1)
  }

  /** The number that digits stand for, the most significant first. */
  function Number(digits: string, base: nat): int {
    if digits == "" then 0
    else (digits[0] as int - '0' as int) * Power(base, |digits| - 1) + Number(digits[1..], base)
  }

  /** Octal after a leading zero. */
  function Base(digits: string): nat
    requires digits != ""
  {
    if digits[0] == '0' then 8 else 10
  }

  /** Digits of the right base that stand for a `long`. */
  predicate IsLiteral(digits: string) {
    digits != "" && (forall c <- digits :: '0' <= c && c as int < '0' as int + Base(digits))
    && Number(digits, Base(digits)) <= 0x7FFF_FFFF_FFFF_FFFF
  }

  lemma {:induction false} NumberSnoc(digits: string, c: char, base: nat)
    ensures Number(digits + [c], base) == Number(digits, base) * base + (c as int - '0' as int)
  {
    var s, value := digits + [c], c as int - '0' as int;
    if digits == "" {
      assert s[1..] == "" && Power(base, 0) == 1;
    } else {
      var first, power := digits[0] as int - '0' as int, Power(base, |digits| - 1);
      NumberSnoc(digits[1..], c, base);
      assert s[1..] == digits[1..] + [c] && s[0] == digits[0];
      var rest := Number(digits[1..], base);
      assert Number(s, base) == first * (base * power) + (rest * base + value);
      Factor(first, base, power, rest);
    }
  }

  lemma Factor(a: int, b: int, p: int, r: int)
    ensures a * (b * p) + r * b == (a * p + r) * b
  {
  }

  lemma {:induction false} DigitsMean(digits: string, base: nat)
    ensures DigitsValue(digits, base) == Number(digits, base)
  {
    if digits != "" {
      var front, last := digits[..|digits| - 1], digits[|digits| - 1];
      DigitsMean(front, base);
      NumberSnoc(front, last, base);
      assert digits == front + [last];
    }
  }

  lemma {:induction false} AllAreDigits(s: string)
    ensures AllDigits(s) <==> forall c <- s :: IsDigit(c)
  {
    if s != "" {
      var front, last := s[..|s| - 1], s[|s| - 1];
      AllAreDigits(front);
      assert s == front + [last] && last in s;
      assert forall c <- s :: c == last || c in front;
    }
  }

  /** `strtol` in base 0 reads digits as what they stand for, and nothing else. */
  lemma LiteralIs(digits: string)
    requires digits != ""
    ensures AllDigits(digits) ==>
      LiteralValue(digits) == if IsLiteral(digits) then Some(Number(digits, Base(digits))) else None
    ensures IsLiteral(digits) ==> AllDigits(digits)
  {
    AllAreDigits(digits);
    DigitsMean(digits, Base(digits));
  }

  // -----------------------------------------------------------------------
  // Written expressions.

  /**
   * An expression as it stands in the text. `Hollow` is a term after empty pairs of parentheses,
   * one inside the other: the parser passes over them.
   */
  datatype Written =
    | Digits(digits: string)
    | Named(name: string)
    | Paren(start: string, inner: Written, end: string)
    | Hollow(pairs: seq<string>, core: Written)
    | Unary(uop: UnopType, body: Written)
    | Binary(bop: BinopType, left: Written, before: string, after: string, right: Written)
    | Conditional(condition: Written, before1: string, thenPart: Written, before2: string, elsePart: Written)
    | Assignment(aop: AssignOp, target: string, value: Written)

  function Level(w: Written): (k: nat)
    ensures k <= 12
  {
    match w
    case Binary(op, _, _, _, _) => OpLevel(op)
    case Conditional(_, _, _, _, _) => 1
    case Assignment(_, _, _) => 0
    case _ => 12
  }

  /** Empty pairs of parentheses, each with its white space. */
  function HollowText(pairs: seq<string>): string {
    if pairs == [] then "" else "(" + (Blanks(pairs[0]) + (HollowText(pairs[1..]) + ")"))
  }

  function Text(w: Written): string {
    match w
    case Digits(digits) => digits
    case Named(name) => name
    case Paren(start, inner, end) => "(" + (Blanks(start) + (Text(inner) + (Blanks(end) + ")")))
    case Hollow(pairs, core) => HollowText(pairs) + Text(core)
    case Unary(op, body) => [UnopChar(op)] + Text(body)
    case Binary(op, left, before, after, right) =>
      Text(left) + (Blanks(before) + (OpText(op) + (Blanks(after) + Text(right))))
    case Conditional(c, before1, t, before2, e) =>
      Text(c) + (Blanks(before1) + ("?" + (Text(t) + (Blanks(before2) + (":" + Text(e))))))
    case Assignment(op, target, value) => target + (AssignmentText(op) + Text(value))
  }

  /** The tree that is meant. */
  function Tree(w: Written): Expr {
    match w
    case Digits(digits) => Literal(if digits == "" then 0 else Number(digits, Base(digits)))
    case Named(name) => Variable(name)
    case Paren(_, inner, _) => Tree(inner)
    case Hollow(_, core) => Tree(core)
    case Unary(op, body) => Unop(op, Tree(body))
    case Binary(op, left, _, _, right) => Binop(op, Tree(left), Tree(right))
    case Conditional(c, _, t, _, e) => Cond(Tree(c), Tree(t), Tree(e))
    case Assignment(op, target, value) => Assign(op, target, Tree(value))
  }

  /** Does it start with a bare name directly before `==`, which would be taken for the target of an assignment? */
  predicate LooksAssigned(w: Written) {
    match w
    case Binary(op, left, before, _, _) => if left.Named? then op == Equal && Blanks(before) == "" else LooksAssigned(left)
    case Conditional(c, _, _, _, _) => LooksAssigned(c)
    case _ => false
  }

  /**
   * May it be written like this? `open` says that no operator follows: a unary operator takes
   * all that does, so it can only stand last.
   */
  predicate Legal(w: Written, open: bool) {
    match w
    case Digits(digits) => IsLiteral(digits)
    case Named(name) => IsName(name)
    case Paren(_, inner, _) => Legal(inner, true) && !LooksAssigned(inner)
    case Hollow(pairs, core) => pairs != [] && (core.Digits? || core.Named? || core.Unary?) && Legal(core, open)
    case Unary(_, body) => open && Legal(body, true) && !LooksAssigned(body)
    case Binary(op, left, _, after, right) =>
      Legal(left, false) && Level(left) >= LeftLevel(op) && Legal(right, open) && Level(right) >= RightLevel(op)
      && (op == Equal || op == NotEqual ==> Blanks(after) == "")
    case Conditional(c, _, t, _, e) =>
      Legal(c, false) && Level(c) >= 2 && Legal(t, true) && Level(t) >= 1 && Legal(e, open) && Level(e) >= 1
    case Assignment(_, target, value) => open && IsName(target) && Legal(value, true) && !LooksAssigned(value)
  }

  /** A whole expression: it may stand alone, in parentheses, and after a unary or an assignment operator. */
  predicate Whole(w: Written) {
    Legal(w, true) && !LooksAssigned(w)
  }

  // -----------------------------------------------------------------------
  // A printer: every well-formed tree can be written.

  function Decimal(n: nat): (d: string)
    ensures d != ""
  {
    var last := [('0' as int + n % 10) as char];
    if n < 10 then last else Decimal(n / 10) + last
  }

  function ExprLevel(e: Expr): (k: nat)
    ensures k <= 12
  {
    match e
    case Literal(_) => 12
    case Variable(_) => 12
    case Binop(op, _, _) => OpLevel(op)
    case Cond(_, _, _) => 1
    case Unop(_, _) => 0
    case Assign(_, _, _) => 0
  }

  /** The tree where one of level `k` or above is expected. */
  function PrintedAt(e: Expr, k: nat): Written
    requires WellFormed(e)
    decreases e, 1
  {
    if ExprLevel(e) >= k then Printed(e) else Paren("", Printed(e), "")
  }

  /** A name before `==` gets parentheses. */
  function PrintedLeft(op: BinopType, left: Expr): Written
    requires WellFormed(left)
    decreases left, 2
  {
    if op == Equal && left.Variable? then Paren("", Printed(left), "") else PrintedAt(left, LeftLevel(op))
  }

  function Printed(e: Expr): Written
    requires WellFormed(e)
    decreases e, 0
  {
    match e
    case Literal(value) => Digits(Decimal(value))
    case Variable(name) => Named(name)
    case Unop(op, body) => Unary(op, PrintedAt(body, 0))
    case Binop(op, left, right) => Binary(op, PrintedLeft(op, left), "", "", PrintedAt(right, RightLevel(op)))
    case Cond(c, t, f) => Conditional(PrintedAt(c, 2), "", PrintedAt(t, 1), "", PrintedAt(f, 1))
    case Assign(op, target, value) => Assignment(op, target, PrintedAt(value, 0))
  }

  // -----------------------------------------------------------------------
  // What the levels see at an operator.

  function ParseAt(k: nat, s: string): Parse
    requires k <= 12
  {
    if k == 0 then ParseExpr(s, true)
    else if k == 1 then ParseTernary(s, true)
    else if k <= 6 then ParseBinop(6 - k, s, true)
    else if k == 7 then ParseEqual(s, true)
    else if k == 8 then ParseComp(s, true)
    else if k == 9 then ParseShift(s, true)
    else if k == 10 then ParseAddend(s, true)
    else if k == 11 then ParseFactor(s, true)
    else ParseTerm(s, true)
  }

  /** Does level `k` go on at this text? */
  predicate GoesOn(k: nat, s: string)
    requires k < 12
  {
    if k == 0 then AssignOpAt(s, 0).Some?
    else if k == 1 then StartsWithChar(s, '?')
    else if k <= 6 then BinopAt(s, 6 - k)
    else if k == 7 then EqualOpAt(s).Some?
    else if k == 8 then CompOpAt(s).Some?
    else if k == 9 then ShiftOpAt(s).Some?
    else if k == 10 then AddendOpAt(s).Some?
    else FactorOpAt(s).Some?
  }

  /** Text at which level `k` and all below it stop. */
  predicate Stops(k: nat, s: string)
    requires k <= 12
    decreases 12 - k
  {
    if k == 12 then s == "" || (!IsSpace(s[0]) && !IsNameChar(s[0]))
    else !GoesOn(k, s) && Stops(k + 1, s)
  }

  lemma {:induction false} StopsBelow(k: nat, j: nat, s: string)
    requires k <= j <= 12 && Stops(k, s)
    ensures Stops(j, s)
    decreases j - k
  {
    if k < j {
      StopsBelow(k + 1, j, s);
    }
  }

  /** Success without an error. */
  function Done(e: Expr, rest: string): Parse {
    Parse(Some(e), rest, false)
  }

  /** The first character of an expression. */
  predicate Starter(s: string) {
    s != "" && (s[0] == '(' || s[0] == '+' || s[0] == '-' || s[0] == '~' || s[0] == '!' || IsNameChar(s[0]))
  }

  /** What comes after an operator: an expression, with white space first except after `==` and `!=`. */
  predicate Operand(op: BinopType, x: string) {
    Starter(SkipSpaces(x)) && (op == Equal || op == NotEqual ==> SkipSpaces(x) == x)
  }

  lemma OperandFirst(op: BinopType, x: string)
    requires Operand(op, x)
    ensures x != "" && (IsSpace(x[0]) || Starter(x))
  {
  }

  /** No operand starts like the rest of a longer operator. */
  lemma OperandIsNoOperator(op: BinopType, x: string)
    requires Operand(op, x)
    ensures x != "" && x[0] != '=' && x[0] != '<' && x[0] != '>' && x[0] != '&' && x[0] != '|' && x[0] != '?'
  {
    OperandFirst(op, x);
  }

  lemma {:induction false} StopsUp(k: nat, s: string)
    requires k <= 12 && Stops(12, s)
    requires forall j :: k <= j < 12 ==> !GoesOn(j, s)
    ensures Stops(k, s)
    decreases 12 - k
  {
    if k < 12 {
      StopsUp(k + 1, s);
    }
  }

  /** An assignment operator: none of them is the beginning of another operator's use. */
  lemma AssignOpShape(s: string)
    requires AssignOpAt(s, 0).Some?
    ensures var n := |AssignText(AssignOpAt(s, 0).value)|;
      n <= |s| && s[n - 1] == '='
      && (n == 2 ==> s[0] == '*' || s[0] == '/' || s[0] == '%' || s[0] == '+' || s[0] == '-'
                     || s[0] == '&' || s[0] == '^' || s[0] == '|')
      && (n == 3 ==> (s[0] == '<' || s[0] == '>') && s[1] == s[0])
  {
    hide AssignOpAt;
    var t := AssignText(AssignOpAt(s, 0).value);
    assert t == s[..|t|];
    assert t[0] == s[0] && t[|t| - 1] == s[|t| - 1];
    assert |t| == 3 ==> t[1] == s[1];
  }

  /** Every text that has to end an expression does. */
  lemma ClosingStops(s: string)
    requires s == "" || s[0] == ')' || s[0] == ':'
    ensures Stops(0, s)
  {
    hide AssignOpAt;
    if AssignOpAt(s, 0).Some? {
      AssignOpShape(s);
    }
    StopsUp(0, s);
  }

  lemma QuestionStops(s: string)
    requires s != "" && s[0] == '?'
    ensures Stops(2, s)
  {
    hide AssignOpAt;
    StopsUp(2, s);
  }

  lemma OperatorFirst(op: BinopType, s: string)
    requires s != "" && s[0] == OpText(op)[0]
    ensures Stops(12, s)
  {
  }

  /** After an operator's text comes an operand: the levels below the operator's stop there. */
  lemma OperatorStops(op: BinopType, x: string)
    requires Operand(op, x)
    ensures Stops(OpLevel(op) + 1, OpText(op) + x)
  {
    OperandIsNoOperator(op, x);
    hide AssignOpAt, SkipSpaces, Operand, Starter, Stops;
    var s := OpText(op) + x;
    assert s[|OpText(op)|] == x[0];
    assert s[0] == OpText(op)[0];
    assert |OpText(op)| == 2 ==> s[1] == OpText(op)[1];
    OperatorFirst(op, s);
    StopsUp(OpLevel(op) + 1, s);
  }

  /** An operator is not read as an assignment, unless it is `==`. */
  lemma OperatorIsNotAssigned(op: BinopType, x: string)
    requires Operand(op, x) && op != Equal
    ensures AssignOpAt(OpText(op) + x, 0).None?
  {
    OperandIsNoOperator(op, x);
    hide AssignOpAt, SkipSpaces, Operand, Starter;
    var s := OpText(op) + x;
    assert s[|OpText(op)|] == x[0];
    assert s[0] == OpText(op)[0];
    assert |OpText(op)| == 2 ==> s[1] == OpText(op)[1];
    if AssignOpAt(s, 0).Some? {
      AssignOpShape(s);
    }
  }

  // -----------------------------------------------------------------------
  // Names and numbers.

  lemma NameAppend(name: string, q: string)
    requires IsName(name) && (q == "" || !IsNameChar(q[0]))
    ensures Name(name + q, true) == |name| && (name + q)[..|name|] == name && (name + q)[|name|..] == q
  {
    NameCharsAppend(name, q);
  }

  lemma {:induction false} DigitCountAppend(d: string, q: string)
    requires AllDigits(d)
    ensures DigitCount(d + q) == |d| + DigitCount(q)
  {
    if d == "" {
      assert d + q == q;
    } else {
      var front, last := d[..|d| - 1], d[|d| - 1..];
      DigitCountAppend(front, last + q);
      assert front + (last + q) == d + q;
      assert (last + q)[1..] == q;
    }
  }

  lemma {:induction false} DecimalDigits(n: nat)
    ensures var d := Decimal(n); AllDigits(d) && DigitsValue(d, 10) == n && IsDigit(d[0]) && (n > 0 ==> d[0] != '0')
  {
    var d := Decimal(n);
    var last := [('0' as int + n % 10) as char];
    if n < 10 {
      assert d == last && d[..0] == "";
      assert AllDigits(d[..0]) && DigitsValue(d[..0], 10) == 0;
    } else {
      DecimalDigits(n / 10);
      assert d[..|d| - 1] == Decimal(n / 10);
    }
  }

  /** The digits of a `long` stand for it, and `strtol` reads it back. */
  lemma DecimalIsLiteral(n: nat)
    requires n <= LONG_MAX
    ensures var d := Decimal(n); IsLiteral(d) && Number(d, Base(d)) == n && LiteralValue(d) == Some(n)
  {
    DecimalDigits(n);
    if n == 0 {
      assert Decimal(0) == "0" && "0"[..0] == "";
      assert DigitsValue("0"[..0], 8) == 0;
    }
    LiteralIs(Decimal(n));
  }

  // -----------------------------------------------------------------------
  // The printer writes legally.

  lemma {:induction false} LevelsBelow(w: Written)
    requires LooksAssigned(w) && Legal(w, true)
    ensures Level(w) <= 7
  {
    match w
    case Binary(op, left, _, _, _) =>
      if !left.Named? {
        LegalOpen(left);
        LevelsBelow(left);
      }
    case Conditional(_, _, _, _, _) =>
  }

  /** What may be written where an operator follows may also be written where none does. */
  lemma {:induction false} LegalOpen(w: Written)
    requires Legal(w, false)
    ensures Legal(w, true)
  {
    match w
    case Hollow(_, core) => LegalOpen(core);
    case Binary(_, _, _, _, right) => LegalOpen(right);
    case Conditional(_, _, _, _, e) => LegalOpen(e);
    case _ =>
  }

  /** `w` writes `e`, also before an operator unless its level is 0. */
  ghost predicate Writes(w: Written, e: Expr) {
    Whole(w) && Tree(w) == e && Level(w) >= ExprLevel(e) && (ExprLevel(e) > 0 ==> Legal(w, false))
  }

  lemma LeafWrites(e: Expr)
    requires e.Literal? || e.Variable?
    requires WellFormed(e)
    ensures Writes(Printed(e), e)
  {
    hide IsLiteral, Number, Base, Decimal;
    if e.Literal? {
      DecimalIsLiteral(e.value);
    }
  }

  lemma PrefixWrites(w: Written, e: Expr)
    requires (w.Unary? && Whole(w.body)) || (w.Assignment? && IsName(w.target) && Whole(w.value))
    requires e == if w.Unary? then Unop(w.uop, Tree(w.body)) else Assign(w.aop, w.target, Tree(w.value))
    ensures Writes(w, e)
  {
  }

  lemma BinaryWrites(op: BinopType, left: Written, right: Written)
    requires Whole(left) && Legal(left, false) && Level(left) >= LeftLevel(op) && (left.Named? ==> op != Equal)
    requires Legal(right, false) && Level(right) >= RightLevel(op)
    ensures Writes(Binary(op, left, "", "", right), Binop(op, Tree(left), Tree(right)))
  {
    LegalOpen(Binary(op, left, "", "", right));
  }

  lemma ConditionalWrites(c: Written, t: Written, e: Written)
    requires Whole(c) && Legal(c, false) && Level(c) >= 2
    requires Legal(t, true) && Level(t) >= 1 && Legal(e, false) && Level(e) >= 1
    ensures Writes(Conditional(c, "", t, "", e), Cond(Tree(c), Tree(t), Tree(e)))
  {
    LegalOpen(Conditional(c, "", t, "", e));
  }

  lemma {:induction false} PrintedIsLegal(e: Expr)
    requires WellFormed(e)
    ensures Writes(Printed(e), e)
    decreases e, 0
  {
    hide Writes, Legal, Tree, Level, LooksAssigned, LeftLevel, RightLevel, PrintedLeft, PrintedAt;
    match e
    case Literal(_) => LeafWrites(e);
    case Variable(_) => LeafWrites(e);
    case Unop(_, body) =>
      PrintedAtIsLegal(body, 0);
      PrefixWrites(Printed(e), e);
    case Binop(op, left, right) =>
      RightIsPositive(op);
      PrintedAtIsLegal(right, RightLevel(op));
      PrintedLeftIsLegal(op, left);
      BinaryWrites(op, PrintedLeft(op, left), PrintedAt(right, RightLevel(op)));
    case Cond(c, t, f) =>
      PrintedAtIsLegal(c, 2);
      PrintedAtIsLegal(t, 1);
      PrintedAtIsLegal(f, 1);
      ConditionalWrites(PrintedAt(c, 2), PrintedAt(t, 1), PrintedAt(f, 1));
    case Assign(_, _, value) =>
      PrintedAtIsLegal(value, 0);
      PrefixWrites(Printed(e), e);
  }

  lemma RightIsPositive(op: BinopType)
    ensures 0 < RightLevel(op) <= 12
  {
  }

  lemma {:induction false} PrintedAtIsLegal(e: Expr, k: nat)
    requires WellFormed(e) && k <= 12
    ensures var w := PrintedAt(e, k); Whole(w) && Tree(w) == e && Level(w) >= k && (k > 0 ==> Legal(w, false))
    decreases e, 1
  {
    PrintedIsLegal(e);
  }

  lemma {:induction false} PrintedLeftIsLegal(op: BinopType, left: Expr)
    requires WellFormed(left)
    ensures var w := PrintedLeft(op, left);
      Whole(w) && Tree(w) == left && Level(w) >= LeftLevel(op) && Legal(w, false) && (w.Named? ==> op != Equal)
    decreases left, 2
  {
    PrintedAtIsLegal(left, LeftLevel(op));
    PrintedIsLegal(left);
  }
}

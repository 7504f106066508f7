/** The arithmetic parser reads back every written expression. */
module ArithmRoundTrip {
  import opened Chars
  import opened Parsers
  import opened ArithmGrammar
  import opened ArithmShape
  import opened ArithmPrint

  // -----------------------------------------------------------------------
  // First characters.

  lemma StarterIsNotSpace(s: string)
    requires Starter(s)
    ensures SkipSpaces(s) == s
  {
  }

  lemma SpacesEnd(s: string)
    requires s == "" || !IsSpace(s[0])
    ensures SkipSpaces(s) == s
  {
  }

  lemma {:induction false} TextStarts(w: Written, open: bool)
    requires Legal(w, open)
    ensures Starter(Text(w))
  {
    match w
    case Digits(digits) => LiteralStarts(digits);
    case Named(_) =>
    case Paren(_, _, _) =>
    case Hollow(pairs, core) => HollowStarts(pairs, Text(core));
    case Unary(_, _) =>
    case Assignment(_, target, _) => assert Text(w)[0] == target[0];
    case Binary(_, left, _, _, _) =>
      TextStarts(left, false);
      assert Text(w)[0] == Text(left)[0];
    case Conditional(condition, _, _, _, _) =>
      TextStarts(condition, false);
      assert Text(w)[0] == Text(condition)[0];
  }

  lemma {:induction false} DigitsStart(digits: string)
    requires digits != "" && AllDigits(digits)
    ensures IsDigit(digits[0])
  {
    if |digits| > 1 {
      DigitsStart(digits[..|digits| - 1]);
    }
  }

  lemma LiteralStarts(digits: string)
    requires IsLiteral(digits)
    ensures digits != "" && AllDigits(digits) && IsDigit(digits[0])
  {
    LiteralIs(digits);
    DigitsStart(digits);
  }

  lemma HollowStarts(pairs: seq<string>, q: string)
    requires pairs != []
    ensures HollowText(pairs) + q != "" && (HollowText(pairs) + q)[0] == '('
  {
  }

  lemma StartsWhole(w: Written, open: bool, q: string)
    requires Legal(w, open)
    ensures Starter(Text(w) + q) && SkipSpaces(Text(w) + q) == Text(w) + q
  {
    TextStarts(w, open);
    StarterIsNotSpace(Text(w) + q);
  }

  /** Text in which `assignment` finds no assignment. */
  predicate NotAssignment(s: string) {
    var n := Name(s, true);
    n == 0 || AssignOpAt(s[n..], 0).None?
  }

  lemma NameFirst(s: string)
    requires s != "" && (IsDigit(s[0]) || !IsNameChar(s[0]))
    ensures NotAssignment(s)
  {
  }

  /** Text after a name that does not make it the target of an assignment. */
  predicate EndsName(q: string) {
    (q == "" || !IsNameChar(q[0])) && AssignOpAt(q, 0).None?
  }

  lemma SpaceEndsName(blanks: string, q: string)
    requires Blanks(blanks) != "" || EndsName(q)
    ensures EndsName(Blanks(blanks) + q)
  {
    hide AssignOpAt;
    BlanksAreSkipped(blanks, q);
    var s := Blanks(blanks) + q;
    if Blanks(blanks) == "" {
      assert s == q;
    } else {
      assert s[0] == Blanks(blanks)[0];
      if AssignOpAt(s, 0).Some? {
        AssignOpShape(s);
      }
    }
  }

  /** What follows the left operand of an operator. */
  function AfterLeft(op: BinopType, before: string, after: string, right: Written, q: string): string {
    Blanks(before) + (OpText(op) + AfterOperator(after, right, q))
  }

  function AfterOperator(after: string, right: Written, q: string): string {
    Blanks(after) + (Text(right) + q)
  }

  lemma BinaryText(w: Written, q: string)
    requires w.Binary?
    ensures Text(w) + q == Text(w.left) + AfterLeft(w.bop, w.before, w.after, w.right, q)
  {
    hide Text, OpText, Blanks;
    var l, b, o, g, r := Text(w.left), Blanks(w.before), OpText(w.bop), Blanks(w.after), Text(w.right);
    BinaryParts(w);
    assert l + (b + (o + (g + r))) + q == l + (b + (o + (g + (r + q))));
  }

  lemma BinaryParts(w: Written)
    requires w.Binary?
    ensures Text(w) == Text(w.left) + (Blanks(w.before) + (OpText(w.bop) + (Blanks(w.after) + Text(w.right))))
  {
  }

  /** The white space after an operator: the grammar takes none after `==` and `!=`. */
  predicate GapFits(op: BinopType, after: string) {
    op == Equal || op == NotEqual ==> Blanks(after) == ""
  }

  lemma OperandAfter(op: BinopType, after: string, right: Written, open: bool, q: string)
    requires Legal(right, open) && GapFits(op, after)
    ensures var x := AfterOperator(after, right, q);
      Operand(op, x) && SkipSpaces(x) == Text(right) + q
  {
    hide Text, Legal, SkipSpaces, Starter;
    var text := Text(right) + q;
    StartsWhole(right, open, q);
    BlanksAreSkipped(after, text);
    assert "" + text == text;
  }

  /** Text at which level `k` stops once it has taken the white space in front. */
  predicate Ends(k: nat, post: string)
    requires k <= 12
  {
    Stops(k, SkipSpaces(post))
  }

  lemma EndsBelow(k: nat, j: nat, post: string)
    requires k <= j <= 12 && Ends(k, post)
    ensures Ends(j, post) && SkipSpaces(SkipSpaces(post)) == SkipSpaces(post)
    ensures post == "" || !IsNameChar(post[0])
  {
    StopsBelow(k, j, SkipSpaces(post));
    StopsBelow(k, 12, SkipSpaces(post));
    hide Stops;
    assert Stops(12, SkipSpaces(post));
  }

  lemma OperatorIsNoSpace(op: BinopType, x: string)
    ensures !IsSpace((OpText(op) + x)[0])
  {
    assert (OpText(op) + x)[0] == OpText(op)[0];
  }

  lemma OperatorFollows(op: BinopType, before: string, after: string, right: Written, open: bool, q: string)
    requires Legal(right, open) && GapFits(op, after)
    ensures var rest, x := AfterLeft(op, before, after, right, q), AfterOperator(after, right, q);
      SkipSpaces(rest) == OpText(op) + x && Ends(OpLevel(op) + 1, rest)
  {
    hide Text, Legal, Stops, Operand, Blanks, SkipSpaces, OpText, OpLevel, AfterOperator;
    var x := AfterOperator(after, right, q);
    OperandAfter(op, after, right, open, q);
    OperatorStops(op, x);
    BlanksAreSkipped(before, OpText(op) + x);
    OperatorIsNoSpace(op, x);
    SpacesEnd(OpText(op) + x);
  }

  lemma OperatorIsNoName(op: BinopType, x: string)
    ensures !IsNameChar((OpText(op) + x)[0])
  {
    assert (OpText(op) + x)[0] == OpText(op)[0];
  }

  lemma OperatorEndsName(op: BinopType, before: string, after: string, right: Written, open: bool, q: string)
    requires Legal(right, open) && GapFits(op, after) && (op != Equal || Blanks(before) != "")
    ensures EndsName(AfterLeft(op, before, after, right, q))
  {
    hide Text, Legal, Stops, Operand, AssignOpAt, Blanks, AfterOperator, OpText;
    var x := AfterOperator(after, right, q);
    OperandAfter(op, after, right, open, q);
    if Blanks(before) == "" {
      OperatorIsNotAssigned(op, x);
      OperatorIsNoName(op, x);
    }
    SpaceEndsName(before, OpText(op) + x);
  }

  lemma QuestionEndsName(q: string)
    requires q != "" && (q[0] == '?' || q[0] == ')')
    ensures EndsName(q)
  {
    hide AssignOpAt;
    if AssignOpAt(q, 0).Some? {
      AssignOpShape(q);
    }
  }

  lemma VariableIsNotAssignment(name: string, q: string)
    requires IsName(name) && EndsName(q)
    ensures NotAssignment(name + q)
  {
    NameAppend(name, q);
  }

  lemma ConditionalText(w: Written, q: string)
    requires w.Conditional?
    ensures Text(w) + q == Text(w.condition) + (Blanks(w.before1) + ("?" + (Text(w.thenPart)
      + (Blanks(w.before2) + (":" + (Text(w.elsePart) + q))))))
  {
    hide Text, Blanks;
    var a, b, d, e, g := Text(w.condition), Blanks(w.before1), Text(w.thenPart), Blanks(w.before2), Text(w.elsePart);
    ConditionalParts(w);
    assert a + (b + ("?" + (d + (e + (":" + g))))) + q == a + (b + ("?" + (d + (e + (":" + (g + q))))));
  }

  lemma ConditionalParts(w: Written)
    requires w.Conditional?
    ensures Text(w) == Text(w.condition) + (Blanks(w.before1) + ("?" + (Text(w.thenPart)
      + (Blanks(w.before2) + (":" + Text(w.elsePart))))))
  {
  }

  /** Where no assignment is written, `assignment` finds none. */
  lemma {:induction false} WrittenIsNotAssignment(w: Written, open: bool, q: string)
    requires Legal(w, open) && !w.Assignment? && !LooksAssigned(w) && (w.Named? ==> EndsName(q))
    ensures NotAssignment(Text(w) + q)
  {
    hide AssignOpAt, EndsName, NotAssignment, AfterLeft;
    var s := Text(w) + q;
    match w
    case Digits(digits) => LiteralStarts(digits); NameFirst(s);
    case Named(name) => VariableIsNotAssignment(name, q);
    case Paren(_, _, _) => NameFirst(s);
    case Hollow(pairs, core) => HollowStarts(pairs, Text(core)); NameFirst(s);
    case Unary(_, _) => NameFirst(s);
    case Binary(op, left, before, after, right) =>
      BinaryText(w, q);
      if left.Named? {
        OperatorEndsName(op, before, after, right, open, q);
      }
      WrittenIsNotAssignment(left, false, AfterLeft(op, before, after, right, q));
    case Conditional(c, before1, t, before2, e) =>
      ConditionalText(w, q);
      var rest := "?" + (Text(t) + (Blanks(before2) + (":" + (Text(e) + q))));
      QuestionEndsName(rest);
      SpaceEndsName(before1, rest);
      WrittenIsNotAssignment(c, false, Blanks(before1) + rest);
  }

  // -----------------------------------------------------------------------
  // From one level up to the levels above it.

  lemma OneUp(k: nat, s: string, e: Expr, post: string, noted: bool)
    requires 0 < k <= 11 && ParseAt(k, s) == Parse(Some(e), post, noted)
    requires Stops(k - 1, post) && (k == 1 ==> NotAssignment(s))
    ensures ParseAt(k - 1, s) == Parse(Some(e), post, noted)
  {
    assert !GoesOn(k - 1, post);
    hide Stops, GoesOn, ParseAt, NotAssignment;
    if k == 1 {
      UpFromTernary(s, e, post, noted);
    } else if k <= 7 {
      UpToBinop(k, s, e, post, noted);
    } else {
      UpFromBelow(k, s, e, post, noted);
    }
  }

  lemma UpFromTernary(s: string, e: Expr, post: string, noted: bool)
    requires ParseAt(1, s) == Parse(Some(e), post, noted) && NotAssignment(s)
    ensures ParseAt(0, s) == Parse(Some(e), post, noted)
  {
    hide ParseTernary, AssignOpAt, AssignText, NameLength;
    assert ParseAssignment(s, true) == Parse(None, s, false);
  }

  lemma UpToBinop(k: nat, s: string, e: Expr, post: string, noted: bool)
    requires 2 <= k <= 7 && ParseAt(k, s) == Parse(Some(e), post, noted) && !GoesOn(k - 1, post)
    ensures ParseAt(k - 1, s) == Parse(Some(e), post, noted)
  {
    hide ParseEqual, ParseExpr, SkipSpaces, BinopAt;
    if k == 2 {
      assert ParseTernary(s, true) == Parse(Some(e), post, noted);
    } else {
      var b: nat := 7 - k;
      assert ParseBinop(b, s, true) == Parse(Some(e), post, noted);
    }
  }

  lemma UpFromBelow(k: nat, s: string, e: Expr, post: string, noted: bool)
    requires 8 <= k <= 11 && ParseAt(k, s) == Parse(Some(e), post, noted) && !GoesOn(k - 1, post)
    ensures ParseAt(k - 1, s) == Parse(Some(e), post, noted)
  {
    hide ParseTerm, SkipSpaces, FactorLoop, CompOpAt, EqualOpAt, ShiftOpAt;
    if k == 11 {
      assert AddendLoop(e, post, true) == Done(e, post);
    }
  }

  lemma {:induction false} Climb(j: nat, k: nat, s: string, e: Expr, post: string, noted: bool)
    requires j <= k <= 11 && ParseAt(k, s) == Parse(Some(e), post, noted)
    requires Stops(j, post) && (j == 0 ==> k == 0 || NotAssignment(s))
    ensures ParseAt(j, s) == Parse(Some(e), post, noted)
    decreases k - j
  {
    hide ParseAt, NotAssignment;
    if j < k {
      StopsBelow(j, k - 1, post);
      OneUp(k, s, e, post, noted);
      Climb(j, k - 1, s, e, post, noted);
    }
  }

  /** From a term, whose white space `factor` takes, up to any level. */
  lemma TermClimb(j: nat, s: string, e: Expr, post: string, noted: bool)
    requires j <= 11 && ParseTerm(s, true) == Parse(Some(e), post, noted)
    requires Ends(j, post) && (j == 0 ==> NotAssignment(s))
    ensures ParseAt(j, s) == Parse(Some(e), SkipSpaces(post), noted)
  {
    EndsBelow(j, 11, post);
    assert !GoesOn(11, SkipSpaces(post));
    hide Stops, ParseTerm, SkipSpaces, NotAssignment;
    assert FactorLoop(e, post, true) == Done(e, SkipSpaces(post));
    Climb(j, 11, s, e, SkipSpaces(post), noted);
  }

  // -----------------------------------------------------------------------
  // One production at a time.

  lemma LiteralParses(digits: string, post: string)
    requires IsLiteral(digits) && (post == "" || !IsNameChar(post[0]))
    ensures ParseTerm(digits + post, true) == Done(Literal(Number(digits, Base(digits))), post)
  {
    LiteralStarts(digits);
    LiteralIs(digits);
    hide IsLiteral, LiteralValue, Number;
    DigitCountAppend(digits, post);
    var s := digits + post;
    assert s[0] == digits[0];
    assert DigitCount(post) == 0;
    assert s[..|digits|] == digits && s[|digits|..] == post;
    DigitsTerm(s, |digits|);
  }

  lemma DigitsTerm(s: string, n: nat)
    requires s != "" && IsDigit(s[0]) && DigitCount(s) == n > 0 && LiteralValue(s[..n]).Some?
    ensures ParseTerm(s, true) == Done(Literal(LiteralValue(s[..n]).value), s[n..])
  {
    hide LiteralValue, DigitCount, ParseExpr;
  }

  lemma VariableParses(name: string, post: string)
    requires IsName(name) && (post == "" || !IsNameChar(post[0]))
    ensures ParseTerm(name + post, true) == Done(Variable(name), post)
  {
    NameAppend(name, post);
    var s := name + post;
    assert s[0] == name[0];
    hide NameLength, ParseExpr;
    assert !IsDigit(name[0]) by { assert NameLength(name, false) > 0; }
  }

  lemma UnopParses(op: UnopType, x: string, body: Expr, post: string)
    requires ParseExpr(x, true) == Done(body, post)
    ensures ParseTerm([UnopChar(op)] + x, true) == Done(Unop(op, body), post)
  {
    hide ParseExpr, ParseLiteral, ParseVariable;
    assert ([UnopChar(op)] + x)[1..] == x;
  }

  lemma ParenParses(x: string, e: Expr, post: string)
    requires ParseExpr(SkipSpaces(x), true) == Done(e, ")" + post)
    ensures ParseTerm("(" + x, true) == Done(e, post)
  {
    hide ParseExpr, ParseUnop, ParseLiteral, ParseVariable, SkipSpaces;
    assert ("(" + x)[1..] == x && (")" + post)[1..] == post;
  }

  function AssignIndex(op: AssignOp): (k: nat)
    ensures k < |ASSIGN_OPS| && ASSIGN_OPS[k] == op
  {
    match op
    case Set => 0 case SetMul => 1 case SetDiv => 2 case SetMod => 3 case SetAdd => 4 case SetSub => 5
    case SetShiftLeft => 6 case SetShiftRight => 7 case SetAnd => 8 case SetXor => 9 case SetOr => 10
  }

  lemma {:induction false} SomeAssignOp(s: string, k: nat, j: nat)
    requires k <= j < |ASSIGN_OPS| && AssignText(ASSIGN_OPS[j]) <= s
    ensures AssignOpAt(s, k).Some?
    decreases j - k
  {
    hide AssignText;
    if k < j {
      SomeAssignOp(s, k + 1, j);
    }
  }

  /** Different assignment operators differ in their first character. */
  lemma AssignOpFound(op: AssignOp, x: string)
    ensures AssignOpAt(AssignmentText(op) + x, 0) == Some(op)
  {
    AssignTexts(op);
    hide AssignOpAt, ASSIGN_OPS, AssignmentText;
    var s := AssignText(op) + x;
    SomeAssignOp(s, 0, AssignIndex(op));
    var found := AssignOpAt(s, 0).value;
    assert s[0] == AssignText(op)[0] && s[0] == AssignText(found)[0];
  }

  lemma AssignOpEndsName(op: AssignOp, x: string)
    ensures !IsNameChar((AssignmentText(op) + x)[0])
  {
    var t := AssignmentText(op);
    assert (t + x)[0] == t[0];
    assert t[0] == '=' || t[0] == '*' || t[0] == '/' || t[0] == '%' || t[0] == '+' || t[0] == '-'
      || t[0] == '<' || t[0] == '>' || t[0] == '&' || t[0] == '^' || t[0] == '|';
  }

  /** A name and an assignment operator: the value decides. */
  lemma AssignmentIs(op: AssignOp, target: string, x: string)
    requires IsName(target)
    ensures ParseAssignment(target + (AssignmentText(op) + x), true)
      == var v := ParseExpr(x, true); if v.expr.None? then Failure(v.rest) else Parse(Some(Assign(op, target, v.expr.value)), v.rest, v.noted)
  {
    assert target != "";
    hide ParseExpr, AssignOpAt, AssignmentText, AssignText, NameLength, IsName, IsNameChar;
    var q := AssignmentText(op) + x;
    AssignTexts(op);
    AssignOpFound(op, x);
    AssignOpEndsName(op, x);
    NameAppend(target, q);
    var s, n := target + q, |target|;
    assert s[..n] == target && s[n..] == q && q[|AssignmentText(op)|..] == x;
  }

  lemma OnlyAssignment(s: string)
    requires ParseAssignment(s, true).expr.Some?
    ensures ParseExpr(s, true) == ParseAssignment(s, true)
  {
    hide ParseAssignment, ParseTernary;
  }

  lemma AssignParses(op: AssignOp, target: string, x: string, v: Expr, post: string)
    requires IsName(target) && ParseExpr(x, true) == Done(v, post)
    ensures ParseExpr(target + (AssignmentText(op) + x), true) == Done(Assign(op, target, v), post)
  {
    hide ParseTernary, ParseAssignment, AssignmentText, NameLength;
    AssignmentIs(op, target, x);
    OnlyAssignment(target + (AssignmentText(op) + x));
  }

  lemma CondParses(s: string, c: Expr, x: string, t: Expr, y: string, e: Expr, post: string)
    requires ParseBinop(4, s, true) == Done(c, "?" + x)
    requires ParseTernary(x, true) == Done(t, ":" + y)
    requires ParseTernary(y, true) == Done(e, post)
    ensures ParseTernary(s, true) == Done(Cond(c, t, e), post)
  {
    hide ParseBinop;
    assert ("?" + x)[1..] == x && (":" + y)[1..] == y;
  }

  lemma OperatorText(op: BinopType, x: string)
    requires Operand(op, x)
    ensures var q, n := OpText(op) + x, |OpText(op)|;
      q[n..] == x && q[0] == OpText(op)[0] && q[n] == x[0] && (n == 2 ==> q[1] == OpText(op)[1])
      && (IsSpace(x[0]) || Starter(x)) && !IsSpace(q[0])
  {
    OperandFirst(op, x);
  }

  lemma ShiftParses(op: BinopType, s: string, left: Expr, x: string, right: Expr, post: string)
    requires OpLevel(op) == 9 && Operand(op, x)
    requires ParseAddend(s, true) == Done(left, OpText(op) + x)
    requires ParseShift(SkipSpaces(x), true) == Done(right, post)
    ensures ParseShift(s, true) == Done(Binop(op, left, right), post)
  {
    OperatorText(op, x);
    hide ParseAddend, SkipSpaces;
  }

  lemma CompJoins(s: string, op: BinopType, left: Expr, q: string, x: string, right: Expr, post: string)
    requires ParseShift(s, true) == Done(left, q)
    requires CompOpAt(q).Some? && CompOpAt(q).value.0 == op && SkipSpaces(q[CompOpAt(q).value.1..]) == x
    requires ParseComp(x, true) == Done(right, post)
    ensures ParseComp(s, true) == Done(Binop(op, left, right), post)
  {
    hide ParseShift, SkipSpaces, CompOpAt;
  }

  lemma CompFound(op: BinopType, x: string)
    requires OpLevel(op) == 8 && Operand(op, x)
    ensures CompOpAt(OpText(op) + x) == Some((op, |OpText(op)|))
  {
    OperatorText(op, x);
    hide SkipSpaces, Operand;
  }

  lemma CompParses(op: BinopType, s: string, left: Expr, x: string, right: Expr, post: string)
    requires OpLevel(op) == 8 && Operand(op, x)
    requires ParseShift(s, true) == Done(left, OpText(op) + x)
    requires ParseComp(SkipSpaces(x), true) == Done(right, post)
    ensures ParseComp(s, true) == Done(Binop(op, left, right), post)
  {
    OperatorText(op, x);
    CompFound(op, x);
    hide ParseShift, ParseComp, SkipSpaces, CompOpAt, OpText, Operand;
    CompJoins(s, op, left, OpText(op) + x, SkipSpaces(x), right, post);
  }

  lemma EqualParses(op: BinopType, s: string, left: Expr, x: string, right: Expr, post: string)
    requires OpLevel(op) == 7 && Operand(op, x)
    requires ParseComp(s, true) == Done(left, OpText(op) + x)
    requires ParseEqual(SkipSpaces(x), true) == Done(right, post)
    ensures ParseEqual(s, true) == Done(Binop(op, left, right), post)
  {
    OperatorText(op, x);
    hide ParseComp, SkipSpaces;
  }

  lemma BinopFound(op: BinopType, x: string)
    requires OpLevel(op) <= 6 && Operand(op, x)
    ensures var k := 6 - OpLevel(op); BinopText(k) == OpText(op) && BinopOf(k) == op && BinopAt(OpText(op) + x, k)
  {
    OperatorText(op, x);
  }

  lemma BinopParses(op: BinopType, s: string, left: Expr, x: string, right: Expr, post: string)
    requires OpLevel(op) <= 6 && Operand(op, x)
    requires ParseAt(OpLevel(op) + 1, s) == Done(left, OpText(op) + x)
    requires ParseAt(OpLevel(op), SkipSpaces(x)) == Done(right, post)
    ensures ParseAt(OpLevel(op), s) == Done(Binop(op, left, right), post)
  {
    BinopFound(op, x);
    assert (OpText(op) + x)[|OpText(op)|..] == x;
    hide ParseExpr, ParseTernary, ParseEqual, SkipSpaces, BinopText, BinopOf, BinopAt, OpText, Operand;
    var k := 6 - OpLevel(op);
    assert ParseAt(OpLevel(op) + 1, s) == if k == 0 then ParseEqual(s, true) else ParseBinop(k - 1, s, true);
    assert ParseBinop(k, SkipSpaces(x), true) == Done(right, post);
    assert ParseBinop(k, s, true) == Done(Binop(op, left, right), post);
  }

  /** A right-recursive level: the operator, then the same level again. */
  lemma RightParses(op: BinopType, s: string, left: Expr, x: string, right: Expr, post: string)
    requires !GroupsLeft(op) && Operand(op, x)
    requires ParseAt(OpLevel(op) + 1, s) == Done(left, OpText(op) + x)
    requires ParseAt(OpLevel(op), SkipSpaces(x)) == Done(right, post)
    ensures ParseAt(OpLevel(op), s) == Done(Binop(op, left, right), post)
  {
    hide ParseAddend, ParseShift, ParseComp, ParseEqual, ParseBinop, OpText, Operand, SkipSpaces;
    if OpLevel(op) == 9 {
      ShiftParses(op, s, left, x, right, post);
    } else if OpLevel(op) == 8 {
      CompParses(op, s, left, x, right, post);
    } else if OpLevel(op) == 7 {
      EqualParses(op, s, left, x, right, post);
    } else {
      BinopParses(op, s, left, x, right, post);
    }
  }

  lemma FactorStep(op: BinopType, left: Expr, x: string, right: Expr, q: string)
    requires OpLevel(op) == 11 && Operand(op, x) && ParseTerm(SkipSpaces(x), true) == Done(right, q)
    ensures FactorLoop(left, OpText(op) + x, true) == FactorLoop(Binop(op, left, right), q, true)
  {
    OperatorText(op, x);
    hide ParseTerm, SkipSpaces;
    SpacesEnd(OpText(op) + x);
    var s := OpText(op) + x;
    assert s[1..] == x;
  }

  lemma AddendStep(op: BinopType, left: Expr, x: string, right: Expr, q: string)
    requires OpLevel(op) == 10 && Operand(op, x) && ParseFactor(SkipSpaces(x), true) == Done(right, q)
    ensures AddendLoop(left, OpText(op) + x, true) == AddendLoop(Binop(op, left, right), q, true)
  {
    OperatorText(op, x);
    hide ParseFactor, SkipSpaces;
    var s := OpText(op) + x;
    assert s[1..] == x;
  }

  // -----------------------------------------------------------------------
  // Parentheses and prefixes.

  lemma ParenText(w: Written, post: string)
    requires w.Paren? && Legal(w, true)
    ensures var q := Blanks(w.end) + (")" + post);
      Text(w) + post == "(" + (Blanks(w.start) + (Text(w.inner) + q))
      && SkipSpaces(Blanks(w.start) + (Text(w.inner) + q)) == Text(w.inner) + q
      && SkipSpaces(q) == ")" + post
  {
    var a, b, c := Blanks(w.start), Text(w.inner), Blanks(w.end);
    assert Text(w) == "(" + (a + (b + (c + ")")));
    hide Text, SkipSpaces, Blanks;
    assert "(" + (a + (b + (c + ")"))) + post == "(" + (a + (b + (c + (")" + post))));
    StartsWhole(w.inner, true, c + (")" + post));
    BlanksAreSkipped(w.start, b + (c + (")" + post)));
    BlanksAreSkipped(w.end, ")" + post);
    SpacesEnd(")" + post);
  }

  /** An expression in parentheses is a term. */
  lemma {:induction false} ParenthesesParse(w: Written, post: string)
    requires w.Paren? && Legal(w, true)
    ensures ParseTerm(Text(w) + post, true) == Done(Tree(w), post)
    decreases w, 0
  {
    hide Text, Legal, ParseExpr, ParseTerm, Stops, NotAssignment, SkipSpaces, EndsName;
    var q := Blanks(w.end) + (")" + post);
    ParenText(w, post);
    ClosingStops(")" + post);
    InnerIsWhole(w);
    TextParses(w.inner, 0, true, q);
    ParenParses(Blanks(w.start) + (Text(w.inner) + q), Tree(w.inner), post);
  }

  lemma InnerIsWhole(w: Written)
    requires w.Paren? && Legal(w, true)
    ensures Whole(w.inner)
  {
  }

  lemma UnaryParses(w: Written, post: string)
    requires w.Unary? && Legal(w, true) && Ends(0, post)
    ensures ParseTerm(Text(w) + post, true) == Done(Tree(w), SkipSpaces(post))
    decreases w, 0
  {
    hide ParseTerm, ParseExpr, Stops, SkipSpaces;
    var x := Text(w.body) + post;
    assert Text(w) + post == [UnopChar(w.uop)] + x;
    TextParses(w.body, 0, true, post);
    UnopParses(w.uop, x, Tree(w.body), SkipSpaces(post));
  }

  /** Nothing starts here: at an empty text, a closing parenthesis and the like no term is found. */
  lemma NoTerm(s: string)
    requires !Starter(s)
    ensures ParseTerm(s, true) == Parse(None, s, false) && NameLength(s, false) == 0
  {
    hide ParseExpr;
  }

  /** A level that fails without an error makes all levels above it fail so, with the same input left. */
  lemma {:induction false} FailsUp(j: nat, k: nat, s: string, rest: string, noted: bool)
    requires 1 <= j <= k <= 12 && ParseAt(k, s) == Parse(None, rest, noted)
    ensures ParseAt(j, s) == Parse(None, rest, noted)
    decreases k - j
  {
    if j < k {
      OneFailsUp(k, s, rest, noted);
      hide ParseAt;
      FailsUp(j, k - 1, s, rest, noted);
    }
  }

  lemma OneFailsUp(k: nat, s: string, rest: string, noted: bool)
    requires 2 <= k <= 12 && ParseAt(k, s) == Parse(None, rest, noted)
    ensures ParseAt(k - 1, s) == Parse(None, rest, noted)
  {
    hide ParseExpr, SkipSpaces, BinopAt, CompOpAt, EqualOpAt, ShiftOpAt, FactorLoop, AddendLoop;
    if 3 <= k <= 6 {
      var b: nat := 7 - k;
      assert ParseBinop(b, s, true) == Parse(None, rest, noted);
    }
  }

  lemma TermFails(s: string, rest: string)
    requires s != "" && (IsDigit(s[0]) || !IsNameChar(s[0])) && ParseTerm(s, true) == Parse(None, rest, false)
    ensures ParseExpr(s, true) == Parse(None, rest, false)
  {
    NameFirst(s);
    assert ParseAt(12, s) == Parse(None, rest, false);
    FailsUp(1, 12, s, rest, false);
    assert ParseTernary(s, true) == Parse(None, rest, false);
    hide ParseTernary, ParseTerm, NameLength, AssignOpAt;
    assert ParseAssignment(s, true) == Parse(None, s, false);
  }

  /** Empty pairs of parentheses, passed over without an error. */
  lemma {:induction false} HollowFails(pairs: seq<string>, q: string)
    requires pairs != []
    ensures ParseParen(HollowText(pairs) + q, true) == Parse(None, q, false)
  {
    hide ParseExpr, SkipSpaces, HollowText;
    var x := HollowText(pairs[1..]) + (")" + q);
    HollowParts(pairs, q);
    if pairs[1..] == [] {
      assert HollowText(pairs[1..]) == "" by { assert pairs[1..] == []; EmptyHollow(); }
      assert x == ")" + q;
      NoTerm(x);
    } else {
      HollowFails(pairs[1..], ")" + q);
      HollowStarts(pairs[1..], ")" + q);
      ParenFails(x, ")" + q);
    }
    TermFails(x, ")" + q);
    assert (")" + q)[1..] == q;
  }

  lemma EmptyHollow()
    ensures HollowText([]) == ""
  {
  }

  lemma ParenFails(s: string, rest: string)
    requires ParseParen(s, true) == Parse(None, rest, false) && rest != "" && rest[0] == ')'
    ensures ParseTerm(s, true) == Parse(None, rest, false)
  {
    hide ParseParen, ParseExpr;
  }

  lemma HollowParts(pairs: seq<string>, q: string)
    requires pairs != []
    ensures var x, s := HollowText(pairs[1..]) + (")" + q), HollowText(pairs) + q;
      s != "" && s[0] == '(' && SkipSpaces(s[1..]) == x && x != "" && (x[0] == '(' || x[0] == ')')
  {
    var h, b := HollowText(pairs[1..]), Blanks(pairs[0]);
    var x := h + (")" + q);
    assert HollowText(pairs) + q == "(" + (b + x);
    assert ("(" + (b + x))[1..] == b + x;
    BlanksAreSkipped(pairs[0], x);
    assert x[0] == '(' || x[0] == ')';
    SpacesEnd(x);
  }

  /** What is left after a term: a unary operator's body takes the white space too. */
  function TermRest(w: Written, post: string): string {
    if w.Unary? || (w.Hollow? && w.core.Unary?) then SkipSpaces(post) else post
  }

  lemma {:induction false} HollowParses(w: Written, open: bool, post: string)
    requires w.Hollow? && Legal(w, open) && Ends(12, post) && (open ==> Ends(0, post))
    ensures ParseTerm(Text(w) + post, true) == Done(Tree(w), TermRest(w, post))
    decreases w, 0
  {
    hide ParseTerm, Stops, SkipSpaces, HollowText;
    var x := Text(w.core) + post;
    assert Text(w) + post == HollowText(w.pairs) + x;
    HollowFails(w.pairs, x);
    TermParses(w.core, open, post);
    StartsWhole(w.core, open, post);
    CoreStarts(w, open, post);
    CoreParses(HollowText(w.pairs) + x, x);
  }

  lemma CoreStarts(w: Written, open: bool, post: string)
    requires w.Hollow? && Legal(w, open)
    ensures !StartsWithChar(Text(w.core) + post, '(')
  {
    TextStarts(w.core, open);
    assert (Text(w.core) + post)[0] == Text(w.core)[0];
    if w.core.Digits? {
      LiteralStarts(w.core.digits);
    }
  }

  /** After a failed parenthesis the other alternatives of `term` go on. */
  lemma CoreParses(s: string, x: string)
    requires ParseParen(s, true) == Parse(None, x, false) && !StartsWithChar(x, '(')
    ensures ParseTerm(s, true) == ParseTerm(x, true)
  {
    assert ParseParen(x, true) == Parse(None, x, false);
    hide ParseParen, ParseUnop, ParseLiteral, ParseVariable;
  }

  // -----------------------------------------------------------------------
  // The round trip.

  /** At the level of terms the white space is left. */
  lemma {:induction false} TermParses(w: Written, open: bool, post: string)
    requires Legal(w, open) && Level(w) == 12 && Ends(12, post) && (open ==> Ends(0, post))
    ensures ParseTerm(Text(w) + post, true) == Done(Tree(w), TermRest(w, post))
    decreases w, 1
  {
    hide ParseTerm, Stops, SkipSpaces, IsName, IsLiteral, Number;
    EndsBelow(12, 12, post);
    match w
    case Digits(digits) => LiteralParses(digits, post);
    case Named(name) => VariableParses(name, post);
    case Paren(_, _, _) => ParenthesesParse(w, post);
    case Hollow(_, _) => HollowParses(w, open, post);
    case Unary(_, _) => UnaryParses(w, post);
  }

  lemma EndsAtZero(post: string)
    requires Ends(0, post)
    ensures EndsName(post)
  {
    EndsBelow(0, 12, post);
    hide AssignOpAt;
    assert !GoesOn(0, SkipSpaces(post));
    if AssignOpAt(post, 0).Some? {
      AssignOpShape(post);
      SpacesEnd(post);
    }
  }

  /** The text of an expression, up to where its level has to stop. */
  lemma {:induction false} TextParses(w: Written, k: nat, open: bool, post: string)
    requires Legal(w, open) && k <= Level(w) && k <= 11 && Ends(k, post)
    requires (open ==> Ends(0, post)) && (k == 0 ==> open && !LooksAssigned(w))
    ensures ParseAt(k, Text(w) + post) == Done(Tree(w), SkipSpaces(post))
    decreases w, 3
  {
    hide Text, Legal, ParseAt, Stops, NotAssignment, SkipSpaces, EndsName;
    var s := Text(w) + post;
    EndsBelow(k, k, post);
    EndsBelow(k, Level(w), post);
    if k == 0 && Level(w) > 0 {
      EndsAtZero(post);
      WrittenIsNotAssignment(w, open, post);
    }
    if Level(w) == 12 {
      TermParses(w, open, post);
      TermClimb(k, s, Tree(w), TermRest(w, post), false);
    } else {
      OwnLevelParses(w, open, post);
      Climb(k, Level(w), s, Tree(w), SkipSpaces(post), false);
    }
  }

  /** An expression at its own level. */
  lemma {:induction false} OwnLevelParses(w: Written, open: bool, post: string)
    requires Legal(w, open) && Level(w) <= 11 && Ends(Level(w), post) && (open ==> Ends(0, post))
    ensures ParseAt(Level(w), Text(w) + post) == Done(Tree(w), SkipSpaces(post))
    decreases w, 2
  {
    hide Text, ParseAt, Legal, Stops, SkipSpaces;
    match w
    case Binary(op, _, _, _, _) =>
      if GroupsLeft(op) {
        LeftParses(w, open, post);
      } else {
        RightOperandParses(w, open, post);
      }
    case Conditional(_, _, _, _, _) => ConditionalParses(w, open, post);
    case Assignment(_, _, _) => AssignmentLevelParses(w, open, post);
  }

  lemma LoopSkips(e: Expr, q: string)
    ensures FactorLoop(e, q, true) == FactorLoop(e, SkipSpaces(q), true)
  {
    SkipTwice(q);
    hide ParseTerm, SkipSpaces;
  }

  lemma {:induction false} SkipTwice(q: string)
    ensures SkipSpaces(SkipSpaces(q)) == SkipSpaces(q)
  {
    if q != "" && IsSpace(q[0]) {
      SkipTwice(q[1..]);
    }
  }

  lemma BinaryLegal(w: Written, open: bool)
    requires w.Binary? && Legal(w, open)
    ensures Legal(w.left, false) && Level(w.left) >= LeftLevel(w.bop) && Legal(w.right, open) && Level(w.right) >= RightLevel(w.bop)
    ensures GapFits(w.bop, w.after)
  {
  }

  /** The loop of `factor` after the text of its left operand. */
  lemma {:induction false} FactorChain(w: Written, q: string)
    requires Legal(w, false) && Level(w) >= 11 && Ends(12, q)
    ensures ParseFactor(Text(w) + q, true) == FactorLoop(Tree(w), q, true)
    decreases w, 4
  {
    hide FactorLoop, ParseTerm, Ends, Text, OpText, Operand, AfterLeft, AfterOperator, SkipSpaces, Legal;
    if Level(w) == 11 {
      var rest, x := AfterLeft(w.bop, w.before, w.after, w.right, q), AfterOperator(w.after, w.right, q);
      BinaryLegal(w, false);
      BinaryText(w, q);
      OperatorFollows(w.bop, w.before, w.after, w.right, false, q);
      OperandAfter(w.bop, w.after, w.right, false, q);
      FactorChain(w.left, rest);
      LoopSkips(Tree(w.left), rest);
      TermParses(w.right, false, q);
      ClosedRest(w.right, q);
      FactorStep(w.bop, Tree(w.left), x, Tree(w.right), q);
    } else {
      TermParses(w, false, q);
      ClosedRest(w, q);
    }
  }

  lemma ClosedRest(w: Written, q: string)
    requires Legal(w, false)
    ensures TermRest(w, q) == q
  {
  }

  /** The loop of `addend` after the text of its left operand. */
  lemma {:induction false} AddendChain(w: Written, q: string)
    requires Legal(w, false) && Level(w) >= 10 && Ends(11, q)
    ensures ParseAddend(Text(w) + q, true) == AddendLoop(Tree(w), SkipSpaces(q), true)
    decreases w, 4
  {
    hide AddendLoop, ParseFactor, Ends, Text, OpText, Operand, AfterLeft, AfterOperator, SkipSpaces, Legal;
    if Level(w) == 10 {
      var rest, x := AfterLeft(w.bop, w.before, w.after, w.right, q), AfterOperator(w.after, w.right, q);
      BinaryLegal(w, false);
      BinaryText(w, q);
      OperatorFollows(w.bop, w.before, w.after, w.right, false, q);
      OperandAfter(w.bop, w.after, w.right, false, q);
      AddendChain(w.left, rest);
      TextParses(w.right, 11, false, q);
      AddendStep(w.bop, Tree(w.left), x, Tree(w.right), SkipSpaces(q));
    } else {
      TextParses(w, 11, false, q);
    }
  }

  lemma LoopsEnd(e: Expr, k: nat, post: string)
    requires 10 <= k <= 11 && Ends(k, post)
    ensures k == 11 ==> FactorLoop(e, post, true) == Done(e, SkipSpaces(post))
    ensures k == 10 ==> AddendLoop(e, SkipSpaces(post), true) == Done(e, SkipSpaces(post))
  {
    assert !GoesOn(k, SkipSpaces(post));
    hide ParseTerm, ParseFactor, SkipSpaces, Stops;
  }

  lemma RestEnds(w: Written, k: nat, post: string)
    requires k <= 12 && Ends(k, post)
    ensures Ends(k, TermRest(w, post)) && SkipSpaces(TermRest(w, post)) == SkipSpaces(post)
  {
    hide Stops, SkipSpaces;
    SkipTwice(post);
  }

  /** The levels that loop. */
  lemma {:induction false} LeftParses(w: Written, open: bool, post: string)
    requires w.Binary? && Legal(w, open) && GroupsLeft(w.bop) && Ends(OpLevel(w.bop), post) && (open ==> Ends(0, post))
    ensures ParseAt(OpLevel(w.bop), Text(w) + post) == Done(Tree(w), SkipSpaces(post))
    decreases w, 0
  {
    hide FactorLoop, AddendLoop, ParseTerm, ParseExpr, Ends, OpText, Operand, Text, AfterLeft, AfterOperator, SkipSpaces, Legal;
    var op, k := w.bop, OpLevel(w.bop);
    var rest, x := AfterLeft(op, w.before, w.after, w.right, post), AfterOperator(w.after, w.right, post);
    BinaryLegal(w, open);
    BinaryText(w, post);
    OperatorFollows(op, w.before, w.after, w.right, open, post);
    OperandAfter(op, w.after, w.right, open, post);
    EndsBelow(k, k + 1, post);
    if k == 11 {
      FactorChain(w.left, rest);
      LoopSkips(Tree(w.left), rest);
      TermParses(w.right, open, post);
      FactorStep(op, Tree(w.left), x, Tree(w.right), TermRest(w.right, post));
      RestEnds(w.right, 11, post);
      LoopsEnd(Tree(w), 11, TermRest(w.right, post));
    } else {
      AddendChain(w.left, rest);
      TextParses(w.right, 11, open, post);
      AddendStep(op, Tree(w.left), x, Tree(w.right), SkipSpaces(post));
      LoopsEnd(Tree(w), 10, post);
    }
  }

  /** The levels that call themselves. */
  lemma {:induction false} RightOperandParses(w: Written, open: bool, post: string)
    requires w.Binary? && Legal(w, open) && !GroupsLeft(w.bop) && Ends(OpLevel(w.bop), post) && (open ==> Ends(0, post))
    ensures ParseAt(OpLevel(w.bop), Text(w) + post) == Done(Tree(w), SkipSpaces(post))
    decreases w, 0
  {
    hide ParseAt, Ends, OpText, Operand, Text, AfterLeft, AfterOperator, SkipSpaces, Legal;
    var op, k := w.bop, OpLevel(w.bop);
    var rest, x := AfterLeft(op, w.before, w.after, w.right, post), AfterOperator(w.after, w.right, post);
    BinaryLegal(w, open);
    BinaryText(w, post);
    OperatorFollows(op, w.before, w.after, w.right, open, post);
    OperandAfter(op, w.after, w.right, open, post);
    TextParses(w.left, k + 1, false, rest);
    TextParses(w.right, k, open, post);
    RightParses(op, Text(w) + post, Tree(w.left), x, Tree(w.right), SkipSpaces(post));
  }

  lemma ConditionalTree(w: Written)
    requires w.Conditional?
    ensures Tree(w) == Cond(Tree(w.condition), Tree(w.thenPart), Tree(w.elsePart))
  {
  }

  lemma {:induction false} ConditionalParses(w: Written, open: bool, post: string)
    requires w.Conditional? && Legal(w, open) && Ends(1, post) && (open ==> Ends(0, post))
    ensures ParseAt(1, Text(w) + post) == Done(Tree(w), SkipSpaces(post))
    decreases w, 0
  {
    var c, t, e := w.condition, w.thenPart, w.elsePart;
    assert Legal(c, false) && Legal(t, true) && Legal(e, open) && Level(c) >= 2 && Level(t) >= 1 && Level(e) >= 1;
    hide ParseTernary, ParseBinop, Stops, Text, Legal, Tree, SkipSpaces, Blanks;
    var z := Text(e) + post;
    var y := Text(t) + (Blanks(w.before2) + (":" + z));
    ConditionalText(w, post);
    BlanksAreSkipped(w.before1, "?" + y);
    BlanksAreSkipped(w.before2, ":" + z);
    SpacesEnd("?" + y);
    SpacesEnd(":" + z);
    QuestionStops("?" + y);
    ClosingStops(":" + z);
    StopsBelow(0, 1, ":" + z);
    TextParses(c, 2, false, Blanks(w.before1) + ("?" + y));
    TextParses(t, 1, true, Blanks(w.before2) + (":" + z));
    TextParses(e, 1, open, post);
    ConditionalTree(w);
    CondParses(Text(w) + post, Tree(c), y, Tree(t), z, Tree(e), SkipSpaces(post));
  }

  lemma {:induction false} AssignmentLevelParses(w: Written, open: bool, post: string)
    requires w.Assignment? && Legal(w, open) && (open ==> Ends(0, post))
    ensures ParseAt(0, Text(w) + post) == Done(Tree(w), SkipSpaces(post))
    decreases w, 0
  {
    hide ParseExpr, Ends, AssignmentText, IsName, SkipSpaces;
    var t, x := AssignmentText(w.aop), Text(w.value) + post;
    assert Text(w) + post == w.target + (t + x) by {
      assert t + Text(w.value) + post == t + x;
    }
    TextParses(w.value, 0, true, post);
    AssignParses(w.aop, w.target, x, Tree(w.value), SkipSpaces(post));
  }
}

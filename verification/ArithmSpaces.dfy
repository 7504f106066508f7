/** Where the arithmetic parser finds nothing: exactly where white space makes it fail, and `==` after a name. */
module ArithmSpaces {
  import opened Chars
  import opened Parsers
  import opened ArithmGrammar
  import opened ArithmShape
  import opened ArithmPrint
  import opened ArithmRoundTrip
  import opened ArithmLaws

  // -----------------------------------------------------------------------
  // Failure.

  /** What the whole parser returns when it fails with an error on record. */
  const FAILED := Outcome(None, true)

  /** A text that does not start like an expression is left as it is by every level from `term` to `ternary`. */
  lemma NothingAt(k: nat, s: string)
    requires 1 <= k <= 12 && !Starter(s)
    ensures ParseAt(k, s) == Parse(None, s, false)
  {
    NoTerm(s);
    FailsUp(k, 12, s, s, false);
  }

  /** And by `arithm_expr`. */
  lemma NothingAtAll(s: string)
    requires !Starter(s)
    ensures ParseExpr(s, true) == Parse(None, s, false)
  {
    NoTerm(s);
    NothingAt(1, s);
    hide ParseTernary, NameLength;
  }

  /** A failure of the ternary level, where no assignment is found, is one of the whole. */
  lemma FailsWhole(s: string, rest: string)
    requires Starter(s) && NotAssignment(s) && ParseTernary(s, true) == Failure(rest)
    ensures ParseArithm(None, s) == FAILED
  {
    hide ParseTernary, ParseArithm, Starter, NotAssignment;
    TernaryIsExpr(s, rest);
    ExprFails(s, rest);
  }

  lemma TernaryIsExpr(s: string, rest: string)
    requires NotAssignment(s) && ParseTernary(s, true) == Failure(rest)
    ensures ParseExpr(s, true) == Failure(rest)
  {
    hide ParseTernary, NameLength, AssignOpAt;
  }

  lemma ExprFails(s: string, rest: string)
    requires Starter(s) && ParseExpr(s, true) == Failure(rest)
    ensures ParseArithm(None, s) == FAILED
  {
    StarterIsToken("", s);
    NoBlanks(s);
    hide ParseExpr, NextSymbol, SkipSpaces, Starter;
  }

  lemma SpaceFirst(blanks: string, s: string)
    requires Blanks(blanks) != ""
    ensures var r := Blanks(blanks) + s; r != "" && IsSpace(r[0]) && !Starter(r)
  {
    BlanksAreSkipped(blanks, s);
    assert (Blanks(blanks) + s)[0] == Blanks(blanks)[0];
  }

  lemma WholeParses(w: Written)
    requires Whole(w)
    ensures ParseArithm(None, Text(w)) == Outcome(Some(Tree(w)), false)
  {
    hide ParseArithm, Text, Legal, Blanks;
    WrittenParses(w, "", "");
    NoBlanks(Text(w));
  }

  // -----------------------------------------------------------------------
  // White space after an operator.

  /** White space after a binary operator is taken, except after `==` and `!=`, where it makes the whole fail. */
  lemma SpaceAfterBinaryIff(w: Written)
    requires w.Binary? && !LooksAssigned(w) && Legal(w.left, false) && Level(w.left) >= LeftLevel(w.bop)
    requires Legal(w.right, true) && Level(w.right) >= RightLevel(w.bop)
    ensures ParseArithm(None, Text(w)) == Outcome(Some(Tree(w)), false)
      <==> Blanks(w.after) == "" || (w.bop != Equal && w.bop != NotEqual)
    ensures Blanks(w.after) != "" && (w.bop == Equal || w.bop == NotEqual) ==> ParseArithm(None, Text(w)) == FAILED
  {
    if GapFits(w.bop, w.after) {
      assert Legal(w, true);
      WholeParses(w);
    } else {
      var x := Blanks(w.after) + Text(w.right);
      BinaryParts(w);
      assert LooksAssigned(w) == if w.left.Named? then w.bop == Equal && Blanks(w.before) == "" else LooksAssigned(w.left);
      hide Text, Legal, ParseArithm, Tree, LooksAssigned;
      SpaceFirst(w.after, Text(w.right));
      EqualFails(w.bop, w.left, w.before, x);
      ExprFails(Text(w), x);
    }
  }

  lemma EqualFails(op: BinopType, left: Written, before: string, x: string)
    requires Legal(left, false) && Level(left) >= 8 && (op == Equal || op == NotEqual) && !Starter(x)
    requires if left.Named? then op == NotEqual || Blanks(before) != "" else !LooksAssigned(left)
    ensures var s := Text(left) + (Blanks(before) + (OpText(op) + x));
      ParseExpr(s, true) == Failure(x) && Starter(s)
  {
    hide Text, Legal, ParseExpr, ParseComp, Ends, NotAssignment, EndsName, SkipSpaces, Starter, Blanks;
    var rest := Blanks(before) + (OpText(op) + x);
    var s := Text(left) + rest;
    EqualityStops(op, before, x);
    TextParses(left, 8, false, rest);
    LeftIsNotAssigned(left, rest);
    EqualityFails(op, s, Tree(left), x);
    FailsUp(1, 7, s, x, true);
    StartsWhole(left, false, rest);
    TernaryIsExpr(s, x);
  }

  lemma LeftIsNotAssigned(left: Written, rest: string)
    requires Legal(left, false) && !LooksAssigned(left) && (left.Named? ==> EndsName(rest))
    ensures NotAssignment(Text(left) + rest)
  {
    assert !left.Assignment?;
    hide Text, NotAssignment, EndsName;
    WrittenIsNotAssignment(left, false, rest);
  }

  lemma EqualityTextStops(op: BinopType, x: string)
    requires op == Equal || op == NotEqual
    ensures Stops(8, OpText(op) + x) && (op == NotEqual ==> AssignOpAt(OpText(op) + x, 0).None?)
  {
    hide AssignOpAt, SkipSpaces, BinopAt;
    var q := OpText(op) + x;
    assert q[0] == OpText(op)[0] && q[1] == '=';
    StopsUp(8, q);
    if op == NotEqual && AssignOpAt(q, 0).Some? {
      AssignOpShape(q);
    }
  }

  lemma EqualityStops(op: BinopType, before: string, x: string)
    requires op == Equal || op == NotEqual
    ensures var rest := Blanks(before) + (OpText(op) + x);
      SkipSpaces(rest) == OpText(op) + x && Ends(8, rest)
      && (op == NotEqual || Blanks(before) != "" ==> EndsName(rest))
  {
    hide SkipSpaces, Blanks, AssignOpAt, Stops;
    var q := OpText(op) + x;
    assert q[0] == OpText(op)[0];
    EqualityTextStops(op, x);
    BlanksAreSkipped(before, q);
    SpacesEnd(q);
    if op == NotEqual || Blanks(before) != "" {
      SpaceEndsName(before, q);
    }
  }

  lemma EqualityFails(op: BinopType, s: string, left: Expr, x: string)
    requires (op == Equal || op == NotEqual) && ParseComp(s, true) == Done(left, OpText(op) + x) && !Starter(x)
    ensures ParseEqual(s, true) == Failure(x)
  {
    NothingAt(7, x);
    var q := OpText(op) + x;
    assert q[2..] == x && q[0] == OpText(op)[0] && q[1] == '=';
    hide ParseComp, Starter;
  }

  /** No white space may follow a unary operator. */
  lemma SpaceAfterUnaryIff(op: UnopType, body: Written, gap: string)
    requires Whole(body)
    ensures var r := ParseArithm(None, [UnopChar(op)] + (Blanks(gap) + Text(body)));
      (r == Outcome(Some(Unop(op, Tree(body))), false) <==> Blanks(gap) == "") && (Blanks(gap) != "" ==> r == FAILED)
  {
    hide Text, Legal, Tree, LooksAssigned, ParseArithm, Starter, NotAssignment, Blanks, ParseAt;
    var x := Blanks(gap) + Text(body);
    var s := [UnopChar(op)] + x;
    if Blanks(gap) == "" {
      assert x == Text(body);
      UnaryIsWhole(op, body);
      WholeParses(Unary(op, body));
    } else {
      SpaceFirst(gap, Text(body));
      UnaryFails(op, x);
      UnaryFirst(op, x);
      TernaryFails(s, x);
      FailsWhole(s, x);
    }
  }

  lemma UnaryIsWhole(op: UnopType, body: Written)
    requires Whole(body)
    ensures var w := Unary(op, body); Whole(w) && Tree(w) == Unop(op, Tree(body)) && Text(w) == [UnopChar(op)] + Text(body)
  {
  }

  lemma UnaryFirst(op: UnopType, x: string)
    ensures Starter([UnopChar(op)] + x) && NotAssignment([UnopChar(op)] + x)
  {
    NameFirst([UnopChar(op)] + x);
  }

  lemma UnaryFails(op: UnopType, x: string)
    requires !Starter(x)
    ensures ParseTerm([UnopChar(op)] + x, true) == Failure(x)
  {
    NothingAtAll(x);
    NoTerm(x);
    assert ([UnopChar(op)] + x)[1..] == x;
    hide ParseExpr, NameLength;
  }

  lemma TernaryFails(s: string, rest: string)
    requires ParseTerm(s, true) == Failure(rest)
    ensures ParseTernary(s, true) == Failure(rest)
  {
    FailsUp(1, 12, s, rest, true);
  }

  /** Nor may it follow an assignment operator. */
  lemma SpaceAfterAssignmentIff(op: AssignOp, target: string, value: Written, gap: string)
    requires IsName(target) && Whole(value)
    ensures var r := ParseArithm(None, target + (AssignmentText(op) + (Blanks(gap) + Text(value))));
      (r == Outcome(Some(Assign(op, target, Tree(value))), false) <==> Blanks(gap) == "") && (Blanks(gap) != "" ==> r == FAILED)
  {
    hide Text, Legal, Tree, LooksAssigned, ParseArithm, Blanks, ParseExpr, AssignmentText, IsName, Starter;
    var x := Blanks(gap) + Text(value);
    if Blanks(gap) == "" {
      assert x == Text(value);
      AssignmentIsWhole(op, target, value);
      WholeParses(Assignment(op, target, value));
    } else {
      SpaceFirst(gap, Text(value));
      AssignmentFails(op, target, x);
      NameStarts(target, AssignmentText(op) + x);
      ExprFails(target + (AssignmentText(op) + x), x);
    }
  }

  lemma AssignmentIsWhole(op: AssignOp, target: string, value: Written)
    requires IsName(target) && Whole(value)
    ensures var w := Assignment(op, target, value);
      Whole(w) && Tree(w) == Assign(op, target, Tree(value)) && Text(w) == target + (AssignmentText(op) + Text(value))
  {
  }

  lemma NameStarts(name: string, q: string)
    requires IsName(name)
    ensures Starter(name + q)
  {
    assert (name + q)[0] == name[0];
  }

  lemma AssignmentFails(op: AssignOp, target: string, x: string)
    requires IsName(target) && !Starter(x)
    ensures ParseExpr(target + (AssignmentText(op) + x), true) == Failure(x)
  {
    NothingAtAll(x);
    NothingAt(1, x);
    hide ParseExpr, ParseAssignment, ParseTernary, AssignmentText, IsName, Starter;
    AssignmentIs(op, target, x);
    OnlyParts(target + (AssignmentText(op) + x), x);
  }

  lemma OnlyParts(s: string, rest: string)
    requires ParseAssignment(s, true) == Failure(rest)
    ensures ParseExpr(s, true) == After(Failure(rest), ParseTernary(rest, true))
  {
    hide ParseAssignment, ParseTernary;
  }

  /** The text of a conditional expression with white space after its `?` and its `:`. */
  function Spaced(w: Written, gap1: string, gap2: string): string
    requires w.Conditional?
  {
    Text(w.condition) + (Blanks(w.before1) + ("?" + (Blanks(gap1) + (Text(w.thenPart)
      + (Blanks(w.before2) + (":" + (Blanks(gap2) + Text(w.elsePart))))))))
  }

  /** Nor may it follow `?` or `:`. */
  lemma SpaceInConditionIff(w: Written, gap1: string, gap2: string)
    requires w.Conditional? && Whole(w)
    ensures ParseArithm(None, Spaced(w, gap1, gap2)) == Outcome(Some(Tree(w)), false) <==> Blanks(gap1) == "" && Blanks(gap2) == ""
    ensures Blanks(gap1) != "" || Blanks(gap2) != "" ==> ParseArithm(None, Spaced(w, gap1, gap2)) == FAILED
  {
    hide Spaced, Text, Tree, Legal, LooksAssigned, ParseArithm, Starter, Blanks;
    if Blanks(gap1) != "" {
      FirstGap(w, gap1, gap2);
    } else if Blanks(gap2) != "" {
      SecondGap(w, gap1, gap2);
    } else {
      NoGap(w, gap1, gap2);
      WholeParses(w);
    }
  }

  lemma NoGap(w: Written, gap1: string, gap2: string)
    requires w.Conditional? && Blanks(gap1) == "" && Blanks(gap2) == ""
    ensures Spaced(w, gap1, gap2) == Text(w)
  {
    ConditionalParts(w);
    hide Text;
    assert "" + Text(w.elsePart) == Text(w.elsePart);
    var y := Text(w.thenPart) + (Blanks(w.before2) + (":" + Text(w.elsePart)));
    assert "" + y == y;
  }

  lemma FirstGap(w: Written, gap1: string, gap2: string)
    requires w.Conditional? && Whole(w) && Blanks(gap1) != ""
    ensures ParseArithm(None, Spaced(w, gap1, gap2)) == FAILED
  {
    ConditionalLegal(w);
    hide Text, Legal, LooksAssigned, ParseArithm, Starter, Blanks;
    var y := Text(w.thenPart) + (Blanks(w.before2) + (":" + (Blanks(gap2) + Text(w.elsePart))));
    SpaceFirst(gap1, y);
    SpaceAfterQuestion(w.condition, w.before1, Blanks(gap1) + y);
  }

  lemma SecondGap(w: Written, gap1: string, gap2: string)
    requires w.Conditional? && Whole(w) && Blanks(gap1) == "" && Blanks(gap2) != ""
    ensures ParseArithm(None, Spaced(w, gap1, gap2)) == FAILED
  {
    ConditionalLegal(w);
    hide Text, Legal, LooksAssigned, ParseArithm, Starter, Blanks;
    var z := Blanks(gap2) + Text(w.elsePart);
    var y := Text(w.thenPart) + (Blanks(w.before2) + (":" + z));
    SpaceFirst(gap2, Text(w.elsePart));
    assert "" + y == y;
    SpaceAfterColon(w.condition, w.before1, w.thenPart, w.before2, z);
  }

  lemma SpaceAfterQuestion(c: Written, before: string, x: string)
    requires Legal(c, false) && Level(c) >= 2 && !LooksAssigned(c) && !Starter(x)
    ensures ParseArithm(None, Text(c) + (Blanks(before) + ("?" + x))) == FAILED
  {
    hide Text, Tree, Starter, Legal, LooksAssigned, ParseArithm, ParseTernary, ParseBinop, NotAssignment, Blanks;
    ConditionFirst(c, before, x);
    var s := Text(c) + (Blanks(before) + ("?" + x));
    QuestionFails(s, Tree(c), x);
    FailsWhole(s, x);
  }

  lemma SpaceAfterColon(c: Written, before1: string, t: Written, before2: string, z: string)
    requires Legal(c, false) && Level(c) >= 2 && !LooksAssigned(c) && Legal(t, true) && Level(t) >= 1 && !Starter(z)
    ensures ParseArithm(None, Text(c) + (Blanks(before1) + ("?" + (Text(t) + (Blanks(before2) + (":" + z)))))) == FAILED
  {
    hide Text, Tree, Starter, Legal, LooksAssigned, ParseArithm, ParseTernary, ParseBinop, NotAssignment, Blanks;
    var x := Text(t) + (Blanks(before2) + (":" + z));
    ConditionFirst(c, before1, x);
    BranchFirst(t, before2, z);
    var s := Text(c) + (Blanks(before1) + ("?" + x));
    ColonFails(s, Tree(c), x, Tree(t), z);
    FailsWhole(s, z);
  }

  lemma ConditionalLegal(w: Written)
    requires w.Conditional? && Whole(w)
    ensures Legal(w.condition, false) && Level(w.condition) >= 2 && !LooksAssigned(w.condition)
    ensures Legal(w.thenPart, true) && Level(w.thenPart) >= 1
  {
  }

  lemma ConditionFirst(c: Written, before: string, x: string)
    requires Legal(c, false) && Level(c) >= 2 && !LooksAssigned(c)
    ensures var s := Text(c) + (Blanks(before) + ("?" + x));
      Starter(s) && NotAssignment(s) && ParseBinop(4, s, true) == Done(Tree(c), "?" + x)
  {
    hide Text, Legal, Blanks, NotAssignment, EndsName, ParseBinop, SkipSpaces, Stops, Starter;
    var rest := Blanks(before) + ("?" + x);
    StartsWhole(c, false, rest);
    QuestionEndsName("?" + x);
    SpaceEndsName(before, "?" + x);
    LeftIsNotAssigned(c, rest);
    BlanksAreSkipped(before, "?" + x);
    SpacesEnd("?" + x);
    QuestionStops("?" + x);
    TextParses(c, 2, false, rest);
  }

  lemma BranchFirst(t: Written, before: string, z: string)
    requires Legal(t, true) && Level(t) >= 1
    ensures ParseTernary(Text(t) + (Blanks(before) + (":" + z)), true) == Done(Tree(t), ":" + z)
  {
    hide Text, Legal, Blanks, ParseTernary, SkipSpaces, Stops;
    BlanksAreSkipped(before, ":" + z);
    SpacesEnd(":" + z);
    ClosingStops(":" + z);
    StopsBelow(0, 1, ":" + z);
    TextParses(t, 1, true, Blanks(before) + (":" + z));
  }

  lemma QuestionFails(s: string, c: Expr, x: string)
    requires ParseBinop(4, s, true) == Done(c, "?" + x) && !Starter(x)
    ensures ParseTernary(s, true) == Failure(x)
  {
    NothingAt(1, x);
    hide ParseBinop, Starter;
    assert ("?" + x)[1..] == x;
  }

  lemma ColonFails(s: string, c: Expr, x: string, t: Expr, z: string)
    requires ParseBinop(4, s, true) == Done(c, "?" + x) && ParseTernary(x, true) == Done(t, ":" + z) && !Starter(z)
    ensures ParseTernary(s, true) == Failure(z)
  {
    NothingAt(1, z);
    var r := ParseTernary(z, true);
    assert r.expr == None && r.rest == z;
    assert ("?" + x)[1..] == x && (":" + z)[1..] == z;
    TernaryStep(s, c, x, t, z);
  }

  lemma TernaryStep(s: string, c: Expr, x: string, t: Expr, z: string)
    requires ParseBinop(4, s, true) == Done(c, "?" + x) && ParseTernary(x, true) == Done(t, ":" + z)
    requires ("?" + x)[1..] == x && (":" + z)[1..] == z && ParseTernary(z, true).expr == None
    ensures ParseTernary(s, true) == Failure(ParseTernary(z, true).rest)
  {
    hide ParseBinop;
  }

  // -----------------------------------------------------------------------
  // A name before `==`.

  /** A bare name directly before `==` makes the parser look for an assignment, and fail. */
  lemma NameBeforeEqualFails(name: string, x: string)
    requires IsName(name)
    ensures ParseArithm(None, name + ("==" + x)) == FAILED
  {
    assert "==" + x == AssignmentText(Set) + ("=" + x);
    AssignmentFails(Set, name, "=" + x);
    NameStarts(name, "==" + x);
    ExprFails(name + ("==" + x), "=" + x);
  }

  lemma {:induction false} LooksAssignedText(w: Written, open: bool) returns (name: string, x: string)
    requires Legal(w, open) && LooksAssigned(w)
    ensures IsName(name) && Text(w) == name + ("==" + x)
  {
    hide Text, IsName, Blanks, OpText;
    match w
    case Binary(op, left, before, after, right) =>
      var q := Blanks(before) + (OpText(op) + (Blanks(after) + Text(right)));
      BinaryParts(w);
      if left.Named? {
        name, x := BareName(w);
      } else {
        name, x := LooksAssignedText(left, false);
        x := Extend(name, x, q);
      }
    case Conditional(c, before1, t, before2, e) =>
      ConditionalParts(w);
      name, x := LooksAssignedText(c, false);
      x := Extend(name, x, Blanks(before1) + ("?" + (Text(t) + (Blanks(before2) + (":" + Text(e))))));
  }

  lemma BareName(w: Written) returns (name: string, x: string)
    requires w.Binary? && w.left.Named? && LooksAssigned(w)
    ensures name == w.left.name && Text(w) == name + ("==" + x)
  {
    name, x := w.left.name, Blanks(w.after) + Text(w.right);
  }

  lemma Extend(name: string, x: string, q: string) returns (y: string)
    ensures name + ("==" + x) + q == name + ("==" + y)
  {
    y := x + q;
  }

  /** What is written legally but for a bare name before `==` at its start is read back if and only if there is none. */
  lemma WrittenExactlyWhen(w: Written)
    requires Legal(w, true)
    ensures ParseArithm(None, Text(w)) == Outcome(Some(Tree(w)), false) <==> !LooksAssigned(w)
    ensures LooksAssigned(w) ==> ParseArithm(None, Text(w)) == FAILED
  {
    if LooksAssigned(w) {
      var name, x := LooksAssignedText(w, true);
      NameBeforeEqualFails(name, x);
    } else {
      WholeParses(w);
    }
  }

  /** A chain of comparisons for equality is read as its right fold unless it starts with a bare name directly before `==`. */
  lemma EqualChainExactlyWhen(first: Written, rest: seq<Operation>)
    requires Level(first) >= 8 && Legal(first, rest == []) && IsChain(7, rest, true)
    ensures ParseArithm(None, ChainText(first, rest)) == Outcome(Some(RightFold(Tree(first), rest)), false)
      <==> !(first.Named? && rest != [] && rest[0].op == Equal && Blanks(rest[0].before) == "")
  {
    hide Text, Legal, ParseArithm, ChainText, RightFold, LeftFold, IsChain;
    var w := ChainIsWritten(7, first, rest);
    WrittenExactlyWhen(w);
    if LooksAssigned(first) {
      LegalAnyway(first, rest == []);
      LevelsBelow(first);
    }
  }

  lemma LegalAnyway(w: Written, open: bool)
    requires Legal(w, open)
    ensures Legal(w, true)
  {
    if !open {
      LegalOpen(w);
    }
  }
}

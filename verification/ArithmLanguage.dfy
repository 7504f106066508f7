/**
 * The language of the arithmetic parser: what it accepts without an error is exactly what can be
 * written, and what it accepts with an error on record is what is left when a prefix that failed
 * is dropped.
 */
module ArithmLanguage {
  import opened Chars
  import opened Parsers
  import opened ArithmGrammar
  import opened ArithmShape
  import opened ArithmPrint
  import opened ArithmRoundTrip
  import opened ArithmLaws
  import opened ArithmSpaces

  // -----------------------------------------------------------------------
  // White space in front.

  function Spaces(s: string): string {
    if s != "" && IsSpace(s[0]) then [s[0]] + Spaces(s[1..]) else ""
  }

  lemma {:induction false} SpacesAndRest(s: string)
    ensures s == Blanks(Spaces(s)) + SkipSpaces(s)
  {
    if s != "" && IsSpace(s[0]) {
      SpacesAndRest(s[1..]);
      var t := [s[0]] + Spaces(s[1..]);
      assert t[1..] == Spaces(s[1..]);
      assert [s[0]] + Blanks(Spaces(s[1..])) + SkipSpaces(s) == [s[0]] + (Blanks(Spaces(s[1..])) + SkipSpaces(s));
    }
  }

  lemma {:induction false} BlanksConcat(a: string, b: string)
    ensures Blanks(a + b) == Blanks(a) + Blanks(b)
  {
    if a == "" {
      assert a + b == b && "" + Blanks(b) == Blanks(b);
    } else {
      BlanksConcat(a[1..], b);
      assert (a + b)[1..] == a[1..] + b;
      var c := if IsSpace(a[0]) then [a[0]] else [];
      assert c + (Blanks(a[1..]) + Blanks(b)) == c + Blanks(a[1..]) + Blanks(b);
    }
  }

  lemma MoreBlanks(gap: string, s: string)
    ensures Blanks(gap) + s == Blanks(gap + Spaces(s)) + SkipSpaces(s)
  {
    SpacesAndRest(s);
    BlanksConcat(gap, Spaces(s));
    assert Blanks(gap) + (Blanks(Spaces(s)) + SkipSpaces(s)) == Blanks(gap) + Blanks(Spaces(s)) + SkipSpaces(s);
  }

  // -----------------------------------------------------------------------
  // Failure without an error.

  predicate Succeeds(r: Parse) {
    r.expr.Some? && !r.noted
  }

  predicate FailsSilently(r: Parse) {
    r.expr.None? && !r.noted
  }

  lemma {:induction false} FactorLoopFails(left: Expr, s: string)
    requires FactorLoop(left, s, true).expr.None?
    ensures FactorLoop(left, s, true).noted
    decreases |s|
  {
    hide ParseTerm, SkipSpaces;
    var s' := SkipSpaces(s);
    if FactorOpAt(s').Some? {
      var right := ParseTerm(SkipSpaces(s'[1..]), true);
      if right.expr.Some? {
        FactorLoopFails(Binop(FactorOpAt(s').value, left, right.expr.value), right.rest);
      }
    }
  }

  lemma {:induction false} AddendLoopFails(left: Expr, s: string)
    requires AddendLoop(left, s, true).expr.None?
    ensures AddendLoop(left, s, true).noted
    decreases |s|
  {
    hide ParseFactor, SkipSpaces;
    if AddendOpAt(s).Some? {
      var right := ParseFactor(SkipSpaces(s[1..]), true);
      if right.expr.Some? {
        AddendLoopFails(Binop(AddendOpAt(s).value, left, right.expr.value), right.rest);
      }
    }
  }

  /** Only `term` fails without an error: a missing right operand sets one. */
  lemma OneDown(k: nat, s: string)
    requires 1 <= k <= 11 && FailsSilently(ParseAt(k, s))
    ensures ParseAt(k + 1, s) == ParseAt(k, s)
  {
    hide ParseTerm, ParseExpr, FactorLoop, AddendLoop, SkipSpaces, BinopAt, CompOpAt, EqualOpAt, ShiftOpAt;
    if k == 11 {
      var e := ParseTerm(s, true);
      if e.expr.Some? && FactorLoop(e.expr.value, e.rest, true).expr.None? {
        FactorLoopFails(e.expr.value, e.rest);
      }
    } else if k == 10 {
      var e := ParseFactor(s, true);
      if e.expr.Some? && AddendLoop(e.expr.value, e.rest, true).expr.None? {
        AddendLoopFails(e.expr.value, e.rest);
      }
    } else if k <= 6 {
      BinopDown(k, s);
    }
  }

  lemma BinopDown(k: nat, s: string)
    requires 1 <= k <= 6 && FailsSilently(ParseAt(k, s))
    ensures ParseAt(k + 1, s) == ParseAt(k, s)
  {
    hide ParseEqual, ParseExpr, SkipSpaces, BinopAt;
    if k == 1 {
      assert ParseBinop(4, s, true) == ParseTernary(s, true);
    } else {
      var b: nat := 6 - k;
      var e := if b == 0 then ParseEqual(s, true) else ParseBinop(b - 1, s, true);
      assert ParseBinop(b, s, true) == e;
    }
  }

  lemma {:induction false} SilentDown(k: nat, s: string)
    requires 1 <= k <= 12 && FailsSilently(ParseAt(k, s))
    ensures ParseTerm(s, true) == ParseAt(k, s)
    decreases 12 - k
  {
    if k < 12 {
      OneDown(k, s);
      hide ParseAt;
      SilentDown(k + 1, s);
    }
    assert k == 12 ==> ParseAt(k, s) == ParseTerm(s, true);
  }

  /** The alternatives of `term` after parentheses. */
  function ParseCore(s: string): Parse {
    var u := ParseUnop(s, true);
    if u.expr.Some? then u
    else
      var l := After(u, ParseLiteral(u.rest));
      if l.expr.Some? then l else After(l, ParseVariable(l.rest, true))
  }

  lemma TermIsCore(s: string)
    requires ParseParen(s, true).expr.None?
    ensures ParseTerm(s, true) == After(ParseParen(s, true), ParseCore(ParseParen(s, true).rest))
  {
    hide ParseParen, ParseUnop, ParseLiteral, ParseVariable;
  }

  lemma CoreSilent(s: string)
    requires FailsSilently(ParseCore(s))
    ensures ParseCore(s).rest == s
  {
    hide ParseExpr, LiteralValue, DigitCount, NameLength;
  }

  lemma {:induction false} ParenSilent(s: string) returns (pairs: seq<string>)
    requires FailsSilently(ParseParen(s, true))
    ensures s == HollowText(pairs) + ParseParen(s, true).rest && (pairs == [] <==> !StartsWithChar(s, '('))
    decreases |s|, 1
  {
    hide ParseExpr, SkipSpaces, Blanks, Spaces;
    var rest := ParseParen(s, true).rest;
    if !StartsWithChar(s, '(') {
      pairs := [];
      assert s == "" + s;
    } else {
      var x := SkipSpaces(s[1..]);
      var inner := ExprSilent(x);
      SpacesAndRest(s[1..]);
      pairs := [Spaces(s[1..])] + inner;
      assert pairs[1..] == inner;
      var h, b := HollowText(inner), Blanks(Spaces(s[1..]));
      assert s == "(" + s[1..];
      assert x == h + (")" + rest);
      assert "(" + (b + (h + (")" + rest))) == "(" + (b + (h + ")")) + rest;
    }
  }

  lemma {:induction false} ExprSilent(s: string) returns (pairs: seq<string>)
    requires FailsSilently(ParseExpr(s, true))
    ensures s == HollowText(pairs) + ParseExpr(s, true).rest
    decreases |s|, 3
  {
    ExprIsTernary(s);
    hide ParseExpr, ParseTernary, ParseTerm, ParseParen, ParseCore, HollowText;
    SilentDown(1, s);
    pairs := TermSilent(s);
  }

  lemma {:induction false} TermSilent(s: string) returns (pairs: seq<string>)
    requires FailsSilently(ParseTerm(s, true))
    ensures s == HollowText(pairs) + ParseTerm(s, true).rest
    decreases |s|, 2
  {
    var p := ParseParen(s, true);
    assert p.expr.None? by { hide ParseParen, ParseUnop, ParseLiteral, ParseVariable; }
    TermIsCore(s);
    hide ParseTerm, ParseParen, ParseCore, HollowText;
    CoreSilent(p.rest);
    pairs := ParenSilent(s);
  }

  /** An assignment that is not there, or found without an error. */
  lemma ExprIsTernary(s: string)
    requires !ParseExpr(s, true).noted && (ParseAssignment(s, true).expr.None? || ParseExpr(s, true).expr.None?)
    ensures NotAssignment(s) && ParseExpr(s, true) == ParseTernary(s, true)
  {
    hide ParseTernary, NameLength, AssignOpAt, AssignmentText;
    var a := ParseAssignment(s, true);
    assert a.expr.None?;
    assert NotAssignment(s) && a == Parse(None, s, false) by { hide ParseTernary; }
  }

  // -----------------------------------------------------------------------
  // Where the levels have stopped.

  /** Text at which level `k` and all below it have stopped: the white space is taken and no operator follows. */
  predicate Halts(k: nat, s: string)
    requires k <= 12
    decreases 12 - k
  {
    if k == 12 then SkipSpaces(s) == s else !GoesOn(k, s) && Halts(k + 1, s)
  }

  lemma {:induction false} HaltsBelow(k: nat, j: nat, s: string)
    requires k <= j <= 12 && Halts(k, s)
    ensures Halts(j, s) && (j < 12 ==> !GoesOn(j, s))
    decreases j - k
  {
    if k < j {
      hide GoesOn;
      HaltsBelow(k + 1, j, s);
    }
  }

  /** `w`, and white space after it, is what the parse has taken. */
  ghost predicate Reading(w: Written, gap: string, k: nat, s: string, r: Parse) {
    Legal(w, true) && Level(w) >= k && r.expr == Some(Tree(w)) && s == Text(w) + (Blanks(gap) + r.rest)
    && (Legal(w, false) || Halts(1, r.rest))
  }

  /** What an operator follows does not end in a unary operator. */
  lemma OperatorCloses(w: Written, gap: string, k: nat, s: string, r: Parse, j: nat)
    requires Reading(w, gap, k, s, r) && 1 <= j < 12 && GoesOn(j, r.rest)
    ensures Legal(w, false)
  {
    hide GoesOn, Legal, Text, Tree;
    if Halts(1, r.rest) {
      HaltsBelow(1, j, r.rest);
    }
  }

  // -----------------------------------------------------------------------
  // Terms.

  lemma {:induction false} ParenReads(s: string) returns (w: Written, gap: string)
    requires Succeeds(ParseParen(s, true))
    ensures Reading(w, gap, 12, s, ParseParen(s, true))
    decreases |s|, 1
  {
    hide ParseExpr, SkipSpaces, Blanks, Spaces, Halts, Legal, Text, Tree;
    var x := SkipSpaces(s[1..]);
    var e := ParseExpr(x, true);
    var inner, end := ExprReads(x);
    SpacesAndRest(s[1..]);
    w, gap := Paren(Spaces(s[1..]), inner, end), "";
    ParenIsLegal(w);
    var rest := e.rest[1..];
    assert e.rest == ")" + rest && s == "(" + s[1..];
    var a, b, c := Blanks(Spaces(s[1..])), Text(inner), Blanks(end);
    assert "(" + (a + (b + (c + (")" + rest)))) == "(" + (a + (b + (c + ")"))) + rest;
    EmptyBlanks();
    assert "" + rest == rest;
  }

  lemma EmptyBlanks()
    ensures Blanks("") == ""
  {
  }

  lemma ParenIsLegal(w: Written)
    requires w.Paren? && Whole(w.inner)
    ensures Legal(w, true) && Legal(w, false) && Tree(w) == Tree(w.inner)
    ensures Text(w) == "(" + (Blanks(w.start) + (Text(w.inner) + (Blanks(w.end) + ")")))
  {
  }

  lemma {:induction false} UnaryReads(s: string) returns (w: Written, gap: string)
    requires Succeeds(ParseUnop(s, true))
    ensures w.Unary? && Reading(w, gap, 12, s, ParseUnop(s, true))
    decreases |s|, 1
  {
    hide ParseExpr, Blanks, Halts, Legal, Text, Tree, UnopAt;
    var body, end := ExprReads(s[1..]);
    w, gap := Unary(UnopAt(s).value, body), end;
    UnaryIsLegal(w);
    assert s == [UnopChar(w.uop)] + s[1..] by { UnopFirst(s); }
    assert [UnopChar(w.uop)] + (Text(body) + (Blanks(gap) + ParseExpr(s[1..], true).rest))
      == [UnopChar(w.uop)] + Text(body) + (Blanks(gap) + ParseExpr(s[1..], true).rest);
  }

  lemma UnopFirst(s: string)
    requires UnopAt(s).Some?
    ensures s != "" && s[0] == UnopChar(UnopAt(s).value)
  {
  }

  lemma UnaryIsLegal(w: Written)
    requires w.Unary? && Whole(w.body)
    ensures Legal(w, true) && Tree(w) == Unop(w.uop, Tree(w.body)) && Text(w) == [UnopChar(w.uop)] + Text(w.body)
  {
  }

  lemma LiteralReads(s: string) returns (w: Written)
    requires Succeeds(ParseLiteral(s))
    ensures w.Digits? && Reading(w, "", 12, s, ParseLiteral(s))
  {
    var n := DigitCount(s);
    DigitsAreDigits(s);
    LiteralIs(s[..n]);
    w := Digits(s[..n]);
    EmptyBlanks();
    assert s == s[..n] + ("" + s[n..]);
    hide DigitCount, LiteralValue, IsLiteral, Number, AllDigits, Halts;
  }

  lemma VariableReads(s: string) returns (w: Written)
    requires Succeeds(ParseVariable(s, true))
    ensures w.Named? && Reading(w, "", 12, s, ParseVariable(s, true))
  {
    var n := Name(s, true);
    NameIsName(s);
    w := Named(s[..n]);
    EmptyBlanks();
    assert s == s[..n] + ("" + s[n..]);
    hide NameLength, IsName, Halts;
  }

  lemma {:induction false} CoreReads(s: string) returns (w: Written, gap: string)
    requires Succeeds(ParseCore(s))
    ensures (w.Digits? || w.Named? || w.Unary?) && Reading(w, gap, 12, s, ParseCore(s))
    decreases |s|, 2
  {
    hide ParseUnop, ParseLiteral, ParseVariable, Reading;
    var u := ParseUnop(s, true);
    if u.expr.Some? {
      w, gap := UnaryReads(s);
    } else {
      UnopSilent(s);
      gap := "";
      var l := ParseLiteral(s);
      if l.expr.Some? {
        w := LiteralReads(s);
      } else {
        LiteralSilent(s);
        w := VariableReads(s);
      }
    }
  }

  lemma UnopSilent(s: string)
    requires FailsSilently(ParseUnop(s, true))
    ensures ParseUnop(s, true).rest == s
  {
    hide ParseExpr;
  }

  lemma LiteralSilent(s: string)
    requires FailsSilently(ParseLiteral(s))
    ensures ParseLiteral(s).rest == s
  {
    hide DigitCount, LiteralValue;
  }

  lemma {:induction false} TermReads(s: string) returns (w: Written, gap: string)
    requires Succeeds(ParseTerm(s, true))
    ensures Reading(w, gap, 12, s, ParseTerm(s, true))
    decreases |s|, 3
  {
    var p := ParseParen(s, true);
    if p.expr.Some? {
      assert ParseTerm(s, true) == p by { hide ParseParen; }
      hide ParseTerm, ParseParen, Reading;
      w, gap := ParenReads(s);
    } else {
      TermIsCore(s);
      hide ParseTerm, ParseParen, ParseCore, Reading, HollowText;
      var pairs := ParenSilent(s);
      w, gap := CoreReads(p.rest);
      if pairs != [] {
        w := HollowReads(pairs, w, gap, p.rest, ParseCore(p.rest));
      } else {
        EmptyHollow();
        assert s == p.rest;
      }
    }
  }

  lemma HollowReads(pairs: seq<string>, core: Written, gap: string, s: string, r: Parse) returns (w: Written)
    requires pairs != [] && (core.Digits? || core.Named? || core.Unary?) && Reading(core, gap, 12, s, r)
    ensures Reading(w, gap, 12, HollowText(pairs) + s, r)
  {
    w := Hollow(pairs, core);
    hide HollowText, Halts, Blanks;
    assert HollowText(pairs) + (Text(core) + (Blanks(gap) + r.rest)) == HollowText(pairs) + Text(core) + (Blanks(gap) + r.rest);
  }

  // -----------------------------------------------------------------------
  // Binary operators.

  /** A left operand, an operator and a right operand make a written expression. */
  lemma BinaryReads(op: BinopType, left: Written, before: string, x: string, right: Written, gap: string, r: Parse) returns (w: Written)
    requires Legal(left, false) && Level(left) >= LeftLevel(op)
    requires Reading(right, gap, RightLevel(op), SkipSpaces(x), r) && (op == Equal || op == NotEqual ==> SkipSpaces(x) == x)
    ensures Level(w) == OpLevel(op) && Legal(w, true) && Tree(w) == Binop(op, Tree(left), Tree(right))
    ensures Text(left) + (Blanks(before) + (OpText(op) + x)) == Text(w) + (Blanks(gap) + r.rest)
    ensures Legal(w, false) || Halts(1, r.rest)
  {
    hide Text, Halts, Blanks, OpText, SkipSpaces, Spaces, Legal, Tree;
    w := Binary(op, left, before, Spaces(x), right);
    SpacesAndRest(x);
    if op == Equal || op == NotEqual {
      NoSpaces(x);
    }
    BinaryIsLegal(w);
    BinaryTakes(w, x, Blanks(gap) + r.rest);
  }

  lemma BinaryTakes(w: Written, x: string, q: string)
    requires w.Binary? && x == Blanks(w.after) + SkipSpaces(x) && SkipSpaces(x) == Text(w.right) + q
    ensures Text(w.left) + (Blanks(w.before) + (OpText(w.bop) + x)) == Text(w) + q
  {
    BinaryParts(w);
    hide Text, Blanks, OpText, SkipSpaces;
    var l, b, o, g := Text(w.left), Blanks(w.before), OpText(w.bop), Blanks(w.after);
    assert l + (b + (o + (g + (Text(w.right) + q)))) == l + (b + (o + (g + Text(w.right)))) + q;
  }

  lemma NoSpaces(x: string)
    requires SkipSpaces(x) == x
    ensures Blanks(Spaces(x)) == ""
  {
    SpacesAndRest(x);
    assert |x| == |Blanks(Spaces(x))| + |SkipSpaces(x)|;
  }

  lemma BinaryIsLegal(w: Written)
    requires w.Binary? && Legal(w.left, false) && Level(w.left) >= LeftLevel(w.bop)
    requires Legal(w.right, true) && Level(w.right) >= RightLevel(w.bop) && GapFits(w.bop, w.after)
    ensures Legal(w, true) && (Legal(w.right, false) ==> Legal(w, false)) && Tree(w) == Binop(w.bop, Tree(w.left), Tree(w.right))
  {
  }

  // -----------------------------------------------------------------------
  // The levels that loop.

  /** The loop goes on from a left operand that stands in front of `s`. */
  lemma {:induction false} FactorLoopReads(left: Written, gap: string, s: string, l: Parse, whole: string) returns (w: Written, gap': string)
    requires Reading(left, gap, 11, whole, l) && l.rest == s && Succeeds(FactorLoop(Tree(left), s, true))
    ensures Reading(w, gap', 11, whole, FactorLoop(Tree(left), s, true)) && Halts(11, FactorLoop(Tree(left), s, true).rest)
    decreases |s|, 4
  {
    var s' := SkipSpaces(s);
    SkipTwice(s);
    MoreBlanks(gap, s);
    hide ParseTerm, SkipSpaces, Blanks, Spaces, Legal, Text, Tree, FactorOpAt;
    if FactorOpAt(s').None? {
      w, gap' := left, gap + Spaces(s);
      StoppedStays(s);
      NoFactorOp(s');
    } else {
      var op := FactorOpAt(s').value;
      FactorOpFirst(s');
      var x := s'[1..];
      LeftIsClosed(left, gap, s, l, whole);
      var right := ParseTerm(SkipSpaces(x), true);
      var wr, gr := TermReads(SkipSpaces(x));
      var w' := BinaryReads(op, left, gap + Spaces(s), x, wr, gr, right);
      FactorLoopGoesOn(Tree(left), s);
      assert whole == Text(w') + (Blanks(gr) + right.rest);
      var l' := Parse(Some(Tree(w')), right.rest, false);
      w, gap' := FactorLoopReads(w', gr, right.rest, l', whole);
    }
  }

  lemma StoppedStays(s: string)
    ensures Halts(1, s) ==> SkipSpaces(s) == s
  {
    if Halts(1, s) {
      HaltsBelow(1, 12, s);
    }
  }

  lemma NoFactorOp(s: string)
    requires FactorOpAt(s).None? && SkipSpaces(s) == s
    ensures Halts(11, s)
  {
    hide SkipSpaces;
    assert Halts(12, s);
  }

  lemma FactorOpFirst(s: string)
    requires FactorOpAt(s).Some?
    ensures s != "" && OpLevel(FactorOpAt(s).value) == 11 && s == OpText(FactorOpAt(s).value) + s[1..]
  {
    assert s == [s[0]] + s[1..];
  }

  lemma LeftIsClosed(left: Written, gap: string, s: string, l: Parse, whole: string)
    requires Reading(left, gap, 11, whole, l) && l.rest == s && FactorOpAt(SkipSpaces(s)).Some?
    ensures Legal(left, false)
  {
    hide Legal, Text, Tree, Blanks, FactorOpAt, SkipSpaces;
    if Halts(1, s) {
      StoppedStays(s);
      HaltsBelow(1, 11, s);
    }
  }

  lemma FactorLoopGoesOn(left: Expr, s: string)
    requires FactorOpAt(SkipSpaces(s)).Some? && Succeeds(FactorLoop(left, s, true))
    ensures var s' := SkipSpaces(s);
      var right := ParseTerm(SkipSpaces(s'[1..]), true);
      Succeeds(right) && |right.rest| < |s|
      && FactorLoop(left, s, true) == FactorLoop(Binop(FactorOpAt(s').value, left, right.expr.value), right.rest, true)
  {
    hide ParseTerm, SkipSpaces;
  }

  lemma {:induction false} FactorReads(s: string) returns (w: Written, gap: string)
    requires Succeeds(ParseFactor(s, true))
    ensures Reading(w, gap, 11, s, ParseFactor(s, true)) && Halts(11, ParseFactor(s, true).rest)
    decreases |s|, 5
  {
    var e := ParseTerm(s, true);
    hide ParseTerm, FactorLoop, Text, Blanks, Legal, Halts;
    var left, g := TermReads(s);
    w, gap := FactorLoopReads(left, g, e.rest, e, s);
  }

  lemma {:induction false} AddendLoopReads(left: Written, gap: string, s: string, l: Parse, whole: string) returns (w: Written, gap': string)
    requires Reading(left, gap, 10, whole, l) && l.rest == s && Halts(11, s) && Succeeds(AddendLoop(Tree(left), s, true))
    ensures Reading(w, gap', 10, whole, AddendLoop(Tree(left), s, true)) && Halts(10, AddendLoop(Tree(left), s, true).rest)
    decreases |s|, 6
  {
    hide ParseFactor, SkipSpaces, Blanks, Spaces, Legal, Text, Tree, AddendOpAt, AddendLoop, Halts;
    if AddendOpAt(s).None? {
      w, gap' := left, gap;
      AddendLoopEnds(Tree(left), s);
    } else {
      var op := AddendOpAt(s).value;
      AddendOpFirst(s);
      var x := s[1..];
      OperatorCloses(left, gap, 10, whole, l, 10);
      var right := ParseFactor(SkipSpaces(x), true);
      AddendLoopGoesOn(Tree(left), s);
      var wr, gr := FactorReads(SkipSpaces(x));
      var w' := BinaryReads(op, left, gap, x, wr, gr, right);
      assert whole == Text(w') + (Blanks(gr) + right.rest);
      var l' := Parse(Some(Tree(w')), right.rest, false);
      w, gap' := AddendLoopReads(w', gr, right.rest, l', whole);
    }
  }

  lemma AddendLoopEnds(left: Expr, s: string)
    requires AddendOpAt(s).None? && Halts(11, s)
    ensures AddendLoop(left, s, true) == Done(left, s) && Halts(10, s)
  {
  }

  lemma AddendOpFirst(s: string)
    requires AddendOpAt(s).Some?
    ensures s != "" && OpLevel(AddendOpAt(s).value) == 10 && s == OpText(AddendOpAt(s).value) + s[1..] && GoesOn(10, s)
  {
    assert s == [s[0]] + s[1..];
  }

  lemma AddendLoopGoesOn(left: Expr, s: string)
    requires AddendOpAt(s).Some? && Succeeds(AddendLoop(left, s, true))
    ensures var right := ParseFactor(SkipSpaces(s[1..]), true);
      Succeeds(right) && |right.rest| < |s|
      && AddendLoop(left, s, true) == AddendLoop(Binop(AddendOpAt(s).value, left, right.expr.value), right.rest, true)
  {
    hide ParseFactor, SkipSpaces;
  }

  lemma {:induction false} AddendReads(s: string) returns (w: Written, gap: string)
    requires Succeeds(ParseAddend(s, true))
    ensures Reading(w, gap, 10, s, ParseAddend(s, true)) && Halts(10, ParseAddend(s, true).rest)
    decreases |s|, 7
  {
    var e := ParseFactor(s, true);
    hide ParseFactor, AddendLoop, Text, Blanks, Legal, Halts;
    var left, g := FactorReads(s);
    w, gap := AddendLoopReads(left, g, e.rest, e, s);
  }

  // -----------------------------------------------------------------------
  // The levels that call themselves.

  /** One of them: the level below, its operator, and the same level again. */
  lemma RightReads(op: BinopType, s: string, l: Parse, left: Written, before: string, x: string, r: Parse, right: Written, gap: string)
    returns (w: Written)
    requires !GroupsLeft(op) && Reading(left, before, OpLevel(op) + 1, s, l) && l.rest == OpText(op) + x && GoesOn(OpLevel(op), l.rest)
    requires Reading(right, gap, OpLevel(op), SkipSpaces(x), r) && (op == Equal || op == NotEqual ==> SkipSpaces(x) == x)
    ensures Reading(w, gap, OpLevel(op), s, Parse(Some(Binop(op, l.expr.value, r.expr.value)), r.rest, false))
  {
    OperatorCloses(left, before, OpLevel(op) + 1, s, l, OpLevel(op));
    w := BinaryReads(op, left, before, x, right, gap, r);
    hide Text, Tree, Legal, Halts, Blanks, SkipSpaces, GoesOn, OpText;
  }

  /** Without an operator the level below has read it all. */
  lemma StopsHere(k: nat, w: Written, gap: string, s: string, r: Parse)
    requires k < 12 && Reading(w, gap, k + 1, s, r) && Halts(k + 1, r.rest) && !GoesOn(k, r.rest)
    ensures Reading(w, gap, k, s, r) && Halts(k, r.rest)
  {
    hide Text, Tree, Legal, Blanks, GoesOn;
  }

  lemma {:induction false} ShiftReads(s: string) returns (w: Written, gap: string)
    requires Succeeds(ParseShift(s, true))
    ensures Reading(w, gap, 9, s, ParseShift(s, true)) && Halts(9, ParseShift(s, true).rest)
    decreases |s|, 8
  {
    hide ParseAddend, SkipSpaces, Halts, Reading;
    var l := ParseAddend(s, true);
    var left, before := AddendReads(s);
    if ShiftOpAt(l.rest).None? {
      w, gap := left, before;
      StopsHere(9, w, gap, s, l);
    } else {
      var op, x := ShiftOpAt(l.rest).value, l.rest[2..];
      assert l.rest == OpText(op) + x;
      var right;
      right, gap := ShiftReads(SkipSpaces(x));
      w := RightReads(op, s, l, left, before, x, ParseShift(SkipSpaces(x), true), right, gap);
    }
  }

  lemma CompOpFirst(s: string)
    requires CompOpAt(s).Some?
    ensures var (op, n) := CompOpAt(s).value;
      n <= |s| && OpLevel(op) == 8 && s == OpText(op) + s[n..] && GoesOn(8, s)
  {
    var (op, n) := CompOpAt(s).value;
    assert OpText(op) == s[..n];
    assert s == s[..n] + s[n..];
  }

  lemma {:induction false} CompReads(s: string) returns (w: Written, gap: string)
    requires Succeeds(ParseComp(s, true))
    ensures Reading(w, gap, 8, s, ParseComp(s, true)) && Halts(8, ParseComp(s, true).rest)
    decreases |s|, 9
  {
    hide ParseShift, SkipSpaces, Halts, Reading, CompOpAt, OpText;
    var l := ParseShift(s, true);
    var left, before := ShiftReads(s);
    if CompOpAt(l.rest).None? {
      w, gap := left, before;
      StopsHere(8, w, gap, s, l);
    } else {
      var (op, n) := CompOpAt(l.rest).value;
      var x := l.rest[n..];
      CompOpFirst(l.rest);
      var right;
      right, gap := CompReads(SkipSpaces(x));
      w := RightReads(op, s, l, left, before, x, ParseComp(SkipSpaces(x), true), right, gap);
    }
  }

  /** What is read starts where it is read: no white space comes before it. */
  lemma ReadingStarts(w: Written, gap: string, k: nat, s: string, r: Parse)
    requires Reading(w, gap, k, s, r)
    ensures SkipSpaces(s) == s && Starter(s)
  {
    hide Legal, Text, Tree, Halts, Blanks, SkipSpaces;
    StartsWhole(w, true, Blanks(gap) + r.rest);
  }

  lemma {:induction false} EqualReads(s: string) returns (w: Written, gap: string)
    requires Succeeds(ParseEqual(s, true))
    ensures Reading(w, gap, 7, s, ParseEqual(s, true)) && Halts(7, ParseEqual(s, true).rest)
    decreases |s|, 10
  {
    hide ParseComp, SkipSpaces, Halts, Reading;
    var l := ParseComp(s, true);
    var left, before := CompReads(s);
    if EqualOpAt(l.rest).None? {
      w, gap := left, before;
      StopsHere(7, w, gap, s, l);
    } else {
      var op, x := EqualOpAt(l.rest).value, l.rest[2..];
      assert l.rest == OpText(op) + x;
      var right;
      right, gap := EqualReads(x);
      ReadingStarts(right, gap, 7, x, ParseEqual(x, true));
      w := RightReads(op, s, l, left, before, x, ParseEqual(x, true), right, gap);
    }
  }

  lemma BinopFirst(k: nat, s: string)
    requires k < 5 && BinopAt(s, k)
    ensures OpLevel(BinopOf(k)) == 6 - k && |BinopText(k)| <= |s| && s == OpText(BinopOf(k)) + s[|BinopText(k)|..]
  {
    var n := |BinopText(k)|;
    assert OpText(BinopOf(k)) == BinopText(k) == s[..n];
    assert s == s[..n] + s[n..];
  }

  lemma {:induction false} BinopReads(k: nat, s: string) returns (w: Written, gap: string)
    requires k < 5 && Succeeds(ParseBinop(k, s, true))
    ensures Reading(w, gap, 6 - k, s, ParseBinop(k, s, true)) && Halts(6 - k, ParseBinop(k, s, true).rest)
    decreases |s|, 11 + k
  {
    hide ParseEqual, SkipSpaces, Halts, Reading, BinopAt, BinopOf, BinopText, OpText;
    var l := if k == 0 then ParseEqual(s, true) else ParseBinop(k - 1, s, true);
    var left, before;
    if k == 0 {
      left, before := EqualReads(s);
    } else {
      left, before := BinopReads(k - 1, s);
    }
    if !BinopAt(l.rest, k) {
      w, gap := left, before;
      StopsHere(6 - k, w, gap, s, l);
    } else {
      BinopFirst(k, l.rest);
      var op, x := BinopOf(k), l.rest[|BinopText(k)|..];
      var right;
      right, gap := BinopReads(k, SkipSpaces(x));
      w := RightReads(op, s, l, left, before, x, ParseBinop(k, SkipSpaces(x), true), right, gap);
    }
  }

  lemma {:induction false} TernaryReads(s: string) returns (w: Written, gap: string)
    requires Succeeds(ParseTernary(s, true))
    ensures Reading(w, gap, 1, s, ParseTernary(s, true)) && Halts(1, ParseTernary(s, true).rest)
    decreases |s|, 17
  {
    hide ParseBinop, Halts, Reading;
    var c := ParseBinop(4, s, true);
    var wc, g1 := BinopReads(4, s);
    if !StartsWithChar(c.rest, '?') {
      w, gap := wc, g1;
      StopsHere(1, w, gap, s, c);
    } else {
      var x := c.rest[1..];
      var t := ParseTernary(x, true);
      var wt, g2 := TernaryReads(x);
      var y := t.rest[1..];
      var e := ParseTernary(y, true);
      var we;
      we, gap := TernaryReads(y);
      assert c.rest == "?" + x && t.rest == ":" + y;
      w := ConditionalReads(s, c, wc, g1, x, t, wt, g2, y, e, we, gap);
    }
  }

  lemma ConditionalReads(s: string, c: Parse, wc: Written, g1: string, x: string, t: Parse, wt: Written, g2: string,
                         y: string, e: Parse, we: Written, g3: string) returns (w: Written)
    requires Reading(wc, g1, 2, s, c) && c.rest == "?" + x && Reading(wt, g2, 1, x, t) && t.rest == ":" + y && Reading(we, g3, 1, y, e)
    ensures Reading(w, g3, 1, s, Parse(Some(Cond(c.expr.value, t.expr.value, e.expr.value)), e.rest, false))
  {
    assert GoesOn(1, c.rest);
    OperatorCloses(wc, g1, 2, s, c, 1);
    w := Conditional(wc, g1, wt, g2, we);
    ConditionalIsLegal(w);
    hide Text, Tree, Legal, Halts, Blanks, GoesOn;
    ConditionalText(w, Blanks(g3) + e.rest);
  }

  lemma ConditionalIsLegal(w: Written)
    requires w.Conditional? && Legal(w.condition, false) && Level(w.condition) >= 2
    requires Legal(w.thenPart, true) && Level(w.thenPart) >= 1 && Legal(w.elsePart, true) && Level(w.elsePart) >= 1
    ensures Legal(w, true) && (Legal(w.elsePart, false) ==> Legal(w, false))
    ensures Tree(w) == Cond(Tree(w.condition), Tree(w.thenPart), Tree(w.elsePart))
  {
  }

  // -----------------------------------------------------------------------
  // Whole expressions.

  /** Where `assignment` finds none, none seems to start. */
  lemma NotLooksAssigned(w: Written, q: string)
    requires Legal(w, true) && NotAssignment(Text(w) + q)
    ensures !LooksAssigned(w)
  {
    hide Text, Legal, LooksAssigned, NotAssignment;
    if LooksAssigned(w) {
      var name, x := LooksAssignedText(w, true);
      assert name + ("==" + x) + q == name + ("==" + (x + q));
      NameBeforeEqual(name, x + q);
    }
  }

  lemma NameBeforeEqual(name: string, x: string)
    requires IsName(name)
    ensures !NotAssignment(name + ("==" + x))
  {
    hide AssignOpAt;
    assert "==" + x == AssignmentText(Set) + ("=" + x);
    AssignOpFound(Set, "=" + x);
    NameAppend(name, "==" + x);
  }

  lemma AssignmentParts(s: string) returns (op: AssignOp, target: string, x: string)
    requires ParseAssignment(s, true).expr.Some?
    ensures IsName(target) && s == target + (AssignmentText(op) + x) && |x| < |s|
  {
    hide ParseExpr, NameLength, AssignOpAt, AssignText, AssignmentText, IsName;
    var n := Name(s, true);
    op := AssignOpAt(s[n..], 0).value;
    AssignTexts(op);
    target, x := s[..n], s[n..][|AssignmentText(op)|..];
    NameIsName(s);
    assert s == target + s[n..] && s[n..] == AssignmentText(op) + x;
  }

  lemma {:induction false} AssignmentReads(s: string) returns (w: Written, gap: string)
    requires Succeeds(ParseAssignment(s, true))
    ensures Reading(w, gap, 0, s, ParseAssignment(s, true)) && Whole(w) && Halts(1, ParseAssignment(s, true).rest)
    decreases |s|, 18
  {
    hide ParseExpr, ParseAssignment, AssignmentText, Text, Tree, Legal, Halts, Blanks, IsName;
    var op, target, x := AssignmentParts(s);
    AssignmentIs(op, target, x);
    var value;
    value, gap := ExprReads(x);
    w := Assignment(op, target, value);
    AssignmentIsLegal(w);
    var q := Blanks(gap) + ParseExpr(x, true).rest;
    assert target + (AssignmentText(op) + (Text(value) + q)) == target + (AssignmentText(op) + Text(value)) + q;
  }

  lemma AssignmentIsLegal(w: Written)
    requires w.Assignment? && IsName(w.target) && Whole(w.value)
    ensures Whole(w) && Tree(w) == Assign(w.aop, w.target, Tree(w.value)) && Text(w) == w.target + (AssignmentText(w.aop) + Text(w.value))
  {
  }

  /** What `arithm_expr` takes without an error is written so. */
  lemma {:induction false} ExprReads(s: string) returns (w: Written, gap: string)
    requires Succeeds(ParseExpr(s, true))
    ensures Reading(w, gap, 0, s, ParseExpr(s, true)) && Whole(w) && Halts(1, ParseExpr(s, true).rest)
    decreases |s|, 19
  {
    if ParseAssignment(s, true).expr.Some? {
      assert ParseExpr(s, true) == ParseAssignment(s, true) by { hide ParseAssignment; }
      hide ParseExpr, ParseAssignment, Reading, Legal, Halts;
      w, gap := AssignmentReads(s);
    } else {
      ExprIsTernary(s);
      hide ParseExpr, ParseAssignment, ParseTernary, Legal, Halts, Text, Tree, Blanks, NotAssignment, LooksAssigned;
      w, gap := TernaryReads(s);
      NotLooksAssigned(w, Blanks(gap) + ParseTernary(s, true).rest);
    }
  }

  /** The text is `w`, with white space before and after it, and `w` means `e`. */
  ghost predicate IsWritten(s: string, e: Expr, lead: string, w: Written, trail: string) {
    Whole(w) && Tree(w) == e && s == Blanks(lead) + (Text(w) + Blanks(trail))
  }

  /** Where the next symbol is no token there is no expression. */
  lemma NoToken(s: string)
    requires SkipSpaces(s) == s
    ensures var (kind, s') := NextSymbol(s);
      if kind == Token then s' == s else ParseExpr(s', false).expr.None?
  {
    if s != "" && s[0] == '#' {
      CommentEnds(s[1..]);
      NothingWithoutToken(SkipComment(s[1..]));
    } else if s == "" || IsOperatorStart(s[0]) {
      NothingWithoutToken(s);
    }
  }

  lemma {:induction false} CommentEnds(s: string)
    ensures var r := SkipComment(s); r == "" || r[0] == '\n'
  {
    if s != "" && s[0] != '\n' {
      CommentEnds(s[1..]);
    }
  }

  lemma NothingWithoutToken(s: string)
    requires s == "" || s[0] == '\n' || IsOperatorStart(s[0])
    ensures ParseExpr(s, false).expr.None?
  {
    assert ParseTerm(s, false).expr.None? by { hide ParseExpr; }
    hide ParseTerm, SkipSpaces, FactorLoop, AddendLoop, NameLength;
    assert ParseFactor(s, false).expr.None?;
    assert ParseAddend(s, false).expr.None?;
    assert ParseShift(s, false).expr.None?;
    assert ParseComp(s, false).expr.None?;
    assert ParseEqual(s, false).expr.None?;
    assert ParseBinop(0, s, false).expr.None?;
    assert ParseBinop(1, s, false).expr.None?;
    assert ParseBinop(2, s, false).expr.None?;
    assert ParseBinop(3, s, false).expr.None?;
    assert ParseBinop(4, s, false).expr.None?;
    assert ParseTernary(s, false).expr.None?;
    assert ParseAssignment(s, false) == Parse(None, s, false);
  }

  lemma AcceptedIsWritten(s: string, e: Expr) returns (lead: string, w: Written, trail: string)
    requires ParseArithm(None, s) == Outcome(Some(e), false)
    ensures IsWritten(s, e, lead, w, trail)
  {
    var s' := SkipSpaces(s);
    SkipTwice(s);
    SpacesAndRest(s);
    NoToken(s');
    hide ParseExpr, NextSymbol, SkipSpaces, Spaces, Blanks, Text, Tree, Legal, Halts;
    assert ParseExpr(s', true) == Done(e, "");
    w, trail := ExprReads(s');
    lead := Spaces(s);
    assert Blanks(trail) + "" == Blanks(trail);
  }

  /** The texts accepted without an error are exactly those that can be written, and give the trees that are meant. */
  lemma AcceptedIff(s: string, e: Expr)
    ensures ParseArithm(None, s) == Outcome(Some(e), false) <==> exists lead, w, trail :: IsWritten(s, e, lead, w, trail)
  {
    hide ParseArithm, Text, Tree, Legal, Blanks;
    if ParseArithm(None, s) == Outcome(Some(e), false) {
      var lead, w, trail := AcceptedIsWritten(s, e);
    }
    forall lead, w, trail | IsWritten(s, e, lead, w, trail)
      ensures ParseArithm(None, s) == Outcome(Some(e), false)
    {
      WrittenParses(w, lead, trail);
    }
  }

  // -----------------------------------------------------------------------
  // Prefixes that fail and are dropped: an error is on record, but the rest is read in their place.

  /** The same expression and the same rest, whatever errors were set. */
  predicate SameResult(r: Parse, r': Parse) {
    r.expr == r'.expr && r.rest == r'.rest
  }

  /** The text after a parenthesis that holds no expression, or is not closed after one. */
  function AfterFailedParen(x: string): string {
    var e := ParseExpr(SkipSpaces(x), true);
    if StartsWithChar(e.rest, ')') then e.rest[1..] else e.rest
  }

  lemma FailedParenRest(x: string)
    requires var e := ParseExpr(SkipSpaces(x), true); e.expr.None? || !StartsWithChar(e.rest, ')')
    ensures ParseParen("(" + x, true).expr == None && ParseParen("(" + x, true).rest == AfterFailedParen(x)
  {
    assert ("(" + x)[1..] == x;
    hide ParseExpr, SkipSpaces;
  }

  lemma NoParen(s: string)
    requires !StartsWithChar(s, '(')
    ensures ParseTerm(s, true) == ParseCore(s)
  {
    assert ParseParen(s, true) == Parse(None, s, false);
    hide ParseParen, ParseCore;
    TermIsCore(s);
  }

  /** A parenthesis that fails is dropped, closed or not, unless another one follows. */
  lemma FailedParenIsDropped(x: string)
    requires var e := ParseExpr(SkipSpaces(x), true); e.expr.None? || !StartsWithChar(e.rest, ')')
    ensures var r := AfterFailedParen(x);
      if StartsWithChar(r, '(') then ParseTerm("(" + x, true).expr == None else SameResult(ParseTerm("(" + x, true), ParseTerm(r, true))
  {
    FailedParenRest(x);
    hide ParseTerm, ParseParen, ParseCore, AfterFailedParen;
    TermIsCore("(" + x);
    if StartsWithChar(AfterFailedParen(x), '(') {
      CoreAtParen(AfterFailedParen(x));
    } else {
      NoParen(AfterFailedParen(x));
    }
  }

  lemma CoreAtParen(s: string)
    requires StartsWithChar(s, '(')
    ensures ParseCore(s) == Parse(None, s, false)
  {
    hide ParseExpr;
  }

  /** A whole text: a failed parenthesis and a term after it. The term alone is read, and only an error tells. */
  lemma FailedParenBefore(x: string, w: Written)
    requires var e := ParseExpr(SkipSpaces(x), true); e.expr.None? || !StartsWithChar(e.rest, ')')
    requires AfterFailedParen(x) == Text(w) && Legal(w, true) && (w.Digits? || w.Named? || w.Unary?)
    ensures ParseArithm(None, "(" + x) == Outcome(Some(Tree(w)), ParseParen("(" + x, true).noted)
  {
    var s := "(" + x;
    assert Text(w) + "" == Text(w);
    EmptyEnds();
    CoreFirst(w);
    hide ParseExpr, ParseTerm, ParseParen, ParseCore, Text, Tree, Legal, SkipSpaces, ParseArithm, AfterFailedParen, Stops, Starter;
    FailedParenRest(x);
    TermIsCore(s);
    TermParses(w, true, "");
    NoParen(Text(w));
    assert ParseTerm(s, true) == Parse(Some(Tree(w)), "", ParseParen(s, true).noted);
    NameFirst(s);
    assert Starter(s) by { ParenStarts(x); }
    TermClimb(0, s, Tree(w), "", ParseParen(s, true).noted);
    ParsesWhole("", s, Tree(w), ParseParen(s, true).noted);
    NoBlanks(s);
  }

  lemma ParenStarts(x: string)
    ensures Starter("(" + x)
  {
  }

  lemma CoreFirst(w: Written)
    requires Legal(w, true) && (w.Digits? || w.Named? || w.Unary?)
    ensures !StartsWithChar(Text(w), '(')
  {
    if w.Digits? {
      LiteralStarts(w.digits);
    }
  }

  lemma EmptyEnds()
    ensures Ends(0, "") && Ends(12, "") && SkipSpaces("") == ""
  {
    ClosingStops("");
    StopsBelow(0, 12, "");
  }

  /** A number that is no literal is dropped before a name. */
  lemma BadLiteralIsDropped(digits: string, q: string)
    requires digits != "" && AllDigits(digits) && !IsLiteral(digits) && (q == "" || !IsDigit(q[0]))
    ensures SameResult(ParseTerm(digits + q, true), ParseVariable(q, true)) && ParseTerm(digits + q, true).noted
  {
    DigitsStart(digits);
    LiteralIs(digits);
    hide IsLiteral, LiteralValue;
    DigitCountAppend(digits, q);
    var s := digits + q;
    assert s[0] == digits[0] && DigitCount(q) == 0;
    assert s[..|digits|] == digits && s[|digits|..] == q;
    BadLiteral(s, |digits|);
  }

  lemma BadLiteral(s: string, n: nat)
    requires s != "" && IsDigit(s[0]) && DigitCount(s) == n > 0 && LiteralValue(s[..n]).None?
    ensures ParseTerm(s, true) == After(Failure(s[n..]), ParseVariable(s[n..], true))
  {
    hide LiteralValue, DigitCount, ParseExpr, ParseVariable;
  }

  /** A whole text: such a number and a name. The name alone is read, and only an error tells. */
  lemma BadLiteralBefore(digits: string, name: string)
    requires digits != "" && AllDigits(digits) && !IsLiteral(digits) && IsName(name)
    ensures ParseArithm(None, digits + name) == Outcome(Some(Variable(name)), true)
  {
    var s := digits + name;
    DigitsStart(digits);
    assert s[0] == digits[0] && name != "" && !IsDigit(name[0]);
    assert name[..|name|] == name && name[|name|..] == "";
    EmptyEnds();
    hide ParseExpr, ParseTerm, IsLiteral, AllDigits, IsName, SkipSpaces, ParseArithm, Stops, NameChars;
    BadLiteralIsDropped(digits, name);
    NameFirst(s);
    TermClimb(0, s, Variable(name), "", true);
    ParsesWhole("", s, Variable(name), true);
    NoBlanks(s);
  }

  /** An assignment whose value fails is dropped, and a conditional expression is looked for where the value failed. */
  lemma FailedAssignmentIsDropped(op: AssignOp, target: string, x: string)
    requires IsName(target) && ParseExpr(x, true).expr.None?
    ensures SameResult(ParseExpr(target + (AssignmentText(op) + x), true), ParseTernary(ParseExpr(x, true).rest, true))
  {
    hide ParseExpr, ParseAssignment, ParseTernary, AssignmentText, IsName;
    AssignmentIs(op, target, x);
    OnlyParts(target + (AssignmentText(op) + x), ParseExpr(x, true).rest);
  }

  /** A comparison in parentheses that lacks its right operand is dropped. */
  lemma FailedComparisonBefore(op: BinopType, left: Written, w: Written)
    requires (op == Equal || op == NotEqual) && Whole(left) && Legal(left, false) && Level(left) >= 8 && (op == NotEqual || !left.Named?)
    requires Legal(w, true) && (w.Digits? || w.Named? || w.Unary?)
    ensures ParseArithm(None, "(" + (Text(left) + (OpText(op) + (")" + Text(w))))) == Outcome(Some(Tree(w)), true)
  {
    var rest := ")" + Text(w);
    var x := Text(left) + (OpText(op) + rest);
    assert !Starter(rest) && rest[1..] == Text(w);
    hide ParseExpr, ParseParen, ParseArithm, SkipSpaces, AfterFailedParen, Starter, Text, Tree, Legal, OpText;
    EmptyBlanks();
    assert "" + (OpText(op) + rest) == OpText(op) + rest;
    EqualFails(op, left, "", rest);
    StarterIsNotSpace(x);
    FailedParenTells(x, Failure(rest));
    FailedParenBefore(x, w);
  }

  /** A parenthesis that nothing closes is dropped, with the expression in it, before a complement. */
  lemma UnclosedBefore(inner: Written, w: Written)
    requires Whole(inner) && Legal(w, true) && w.Unary? && w.uop == Tilde
    ensures ParseArithm(None, "(" + (Text(inner) + Text(w))) == Outcome(Some(Tree(w)), true)
  {
    var rest := Text(w);
    assert rest[0] == '~';
    hide ParseExpr, ParseParen, ParseArithm, SkipSpaces, AfterFailedParen, Starter, Stops, Text, Tree, Legal, IsSpace;
    TildeStops(rest);
    TextParses(inner, 0, true, rest);
    StartsWhole(inner, true, rest);
    FailedParenTells(Text(inner) + rest, Done(Tree(inner), rest));
    FailedParenBefore(Text(inner) + rest, w);
  }

  /** `(1==)2` is read as 2, `(1~2`, where nothing closes the parenthesis, as `~2`, and `08a` as `a`, with an error on record. */
  lemma DroppedPrefixes()
    ensures ParseArithm(None, "(1==)2") == Outcome(Some(Literal(2)), true)
    ensures ParseArithm(None, "(1~2") == Outcome(Some(Unop(Tilde, Literal(2))), true)
    ensures ParseArithm(None, "08a") == Outcome(Some(Variable("a")), true)
  {
    hide *;
    SmallNumbers();
    EqualText();
    FailedComparisonBefore(Equal, Digits("1"), Digits("2"));
    UnclosedBefore(Digits("1"), Unary(Tilde, Digits("2")));
    BadOctal();
    BadLiteralBefore("08", "a");
    assert "(1==)2" == "(" + ("1" + ("==" + (")" + "2")));
    assert "(1~2" == "(" + ("1" + "~2");
    assert "08a" == "08" + "a";
  }

  lemma BadOctal()
    ensures "08" != "" && AllDigits("08") && !IsLiteral("08") && IsName("a")
  {
    assert "08"[..1] == "0" && "0"[..0] == "";
    assert AllDigits("0");
    assert '8' in "08" by { assert "08"[1] == '8'; }
    assert "a"[1..] == "";
  }

  lemma EqualText()
    ensures OpText(Equal) == "=="
  {
  }

  lemma TildeStops(s: string)
    requires s != "" && s[0] == '~'
    ensures Ends(0, s) && SkipSpaces(s) == s
  {
    hide AssignOpAt;
    if AssignOpAt(s, 0).Some? {
      AssignOpShape(s);
    }
    StopsUp(0, s);
  }

  lemma SmallNumbers()
    ensures var w := Digits("1"); Whole(w) && Legal(w, false) && Level(w) == 12 && Text(w) == "1" && Tree(w) == Literal(1)
    ensures var w := Digits("2"); Whole(w) && Legal(w, true) && Text(w) == "2" && Tree(w) == Literal(2)
    ensures var w := Unary(Tilde, Digits("2")); Legal(w, true) && Text(w) == "~2" && Tree(w) == Unop(Tilde, Literal(2))
  {
    assert Decimal(1) == "1" && Decimal(2) == "2";
    DecimalIsLiteral(1);
    DecimalIsLiteral(2);
  }

  lemma FailedParenTells(x: string, r: Parse)
    requires ParseExpr(x, true) == r && SkipSpaces(x) == x
    requires (r.expr.None? && r.noted) || !StartsWithChar(r.rest, ')')
    ensures AfterFailedParen(x) == (if StartsWithChar(r.rest, ')') then r.rest[1..] else r.rest) && ParseParen("(" + x, true).noted
  {
    assert ("(" + x)[1..] == x;
    hide ParseExpr, SkipSpaces;
  }
}

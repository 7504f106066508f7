/**
 * What every level of the arithmetic parser keeps: the input left over is a suffix of the input,
 * and the trees it returns have literals that fit a `long` and proper names.
 */
module ArithmShape {
  import opened Chars
  import opened Parsers
  import opened ArithmGrammar

  predicate WellFormed(e: Expr) {
    match e
    case Literal(value) => 0 <= value <= LONG_MAX
    case Variable(name) => IsName(name)
    case Unop(_, body) => WellFormed(body)
    case Binop(_, left, right) => WellFormed(left) && WellFormed(right)
    case Cond(condition, thenPart, elsePart) => WellFormed(condition) && WellFormed(thenPart) && WellFormed(elsePart)
    case Assign(_, target, value) => IsName(target) && WellFormed(value)
  }

  predicate IsSuffix(r: string, s: string) {
    |r| <= |s| && s[|s| - |r|..] == r
  }

  lemma SuffixTransitive(r: string, s: string, t: string)
    requires IsSuffix(r, s) && IsSuffix(s, t)
    ensures IsSuffix(r, t)
  {
    var n, m := |t| - |s|, |s| - |r|;
    assert t[n..][m..] == t[n + m..];
  }

  lemma DropIsSuffix(s: string, n: nat, t: string)
    requires n <= |s| && IsSuffix(s, t)
    ensures IsSuffix(s[n..], t)
  {
    SuffixTransitive(s[n..], s, t);
  }

  lemma {:induction false} SpacesAreSuffix(s: string, t: string)
    requires IsSuffix(s, t)
    ensures IsSuffix(SkipSpaces(s), t)
  {
    if s != "" && IsSpace(s[0]) {
      DropIsSuffix(s, 1, t);
      SpacesAreSuffix(s[1..], t);
    }
  }

  /** What a level returns for the input `s`. */
  ghost predicate Sound(s: string, r: Parse) {
    IsSuffix(r.rest, s) && (r.expr.Some? ==> WellFormed(r.expr.value))
  }

  lemma Carry(r: Parse, s: string, t: string)
    requires Sound(s, r) && IsSuffix(s, t)
    ensures Sound(t, r)
  {
    SuffixTransitive(r.rest, s, t);
  }

  // -----------------------------------------------------------------------
  // Literals and names.

  lemma {:induction false} NameCharsPrefix(s: string)
    ensures NameChars(s[..NameChars(s)]) == NameChars(s)
  {
    var n := NameChars(s);
    if n > 0 {
      NameCharsPrefix(s[1..]);
      assert s[..n][1..] == s[1..][..n - 1];
    }
  }

  lemma NameIsName(s: string)
    requires NameLength(s, false) > 0
    ensures IsName(s[..NameLength(s, false)])
  {
    NameCharsPrefix(s);
  }

  predicate AllDigits(s: string) {
    s == "" || (IsDigit(s[|s| - 1]) && AllDigits(s[..|s| - 1]))
  }

  lemma {:induction false} AppendDigits(c: char, s: string)
    requires IsDigit(c) && AllDigits(s)
    ensures AllDigits([c] + s)
  {
    if s == "" {
      assert [c] + s == [c];
      assert AllDigits("");
    } else {
      AppendDigits(c, s[..|s| - 1]);
      assert ([c] + s)[..|s|] == [c] + s[..|s| - 1];
    }
  }

  lemma {:induction false} DigitsAreDigits(s: string)
    ensures AllDigits(s[..DigitCount(s)])
  {
    var n := DigitCount(s);
    if n > 0 {
      DigitsAreDigits(s[1..]);
      AppendDigits(s[0], s[1..][..n - 1]);
      assert s[..n] == [s[0]] + s[1..][..n - 1];
    }
  }

  lemma {:induction false} DigitsAreNatural(digits: string, base: nat)
    requires AllDigits(digits)
    ensures DigitsValue(digits, base) >= 0
  {
    if digits != "" {
      var front := digits[..|digits| - 1];
      DigitsAreNatural(front, base);
      assert DigitsValue(front, base) * base >= 0;
    }
  }

  lemma LiteralSound(s: string)
    ensures Sound(s, ParseLiteral(s))
  {
    var n := DigitCount(s);
    DropIsSuffix(s, 0, s);
    DropIsSuffix(s, n, s);
    DigitsAreDigits(s);
    DigitsAreNatural(s[..n], 8);
    DigitsAreNatural(s[..n], 10);
  }

  lemma VariableSound(s: string, tok: bool)
    ensures Sound(s, ParseVariable(s, tok))
  {
    hide NameLength, NameChars, IsName;
    var n := Name(s, tok);
    DropIsSuffix(s, 0, s);
    DropIsSuffix(s, n, s);
    if n > 0 {
      NameIsName(s);
    }
  }

  // -----------------------------------------------------------------------
  // The levels.

  /** What is left after `n` more characters and spaces, parsed on. */
  lemma GoOn(r: Parse, s: string, n: nat, t: string)
    requires IsSuffix(s, t) && n <= |s| && Sound(SkipSpaces(s[n..]), r)
    ensures Sound(t, r)
  {
    DropIsSuffix(s, n, t);
    SpacesAreSuffix(s[n..], t);
    Carry(r, SkipSpaces(s[n..]), t);
  }

  lemma Itself(s: string)
    ensures IsSuffix(s, s)
  {
  }

  lemma {:induction false} ParenSound(s: string, tok: bool)
    ensures Sound(s, ParseParen(s, tok))
    decreases |s|, 1
  {
    hide ParseExpr, SkipSpaces, IsSuffix, WellFormed;
    Itself(s);
    if StartsWithChar(s, '(') {
      var s' := SkipSpaces(s[1..]);
      var e := ParseExpr(s', tok);
      ExprSound(s', tok);
      GoOn(e, s, 1, s);
      if e.rest != "" {
        DropIsSuffix(e.rest, 1, s);
      }
    }
  }

  lemma {:induction false} UnopSound(s: string, tok: bool)
    ensures Sound(s, ParseUnop(s, tok))
    decreases |s|, 1
  {
    hide ParseExpr, IsSuffix;
    Itself(s);
    if UnopAt(s).Some? {
      ExprSound(s[1..], tok);
      DropIsSuffix(s, 1, s);
      Carry(ParseExpr(s[1..], tok), s[1..], s);
    }
  }

  lemma {:induction false} TermSound(s: string, tok: bool)
    ensures Sound(s, ParseTerm(s, tok))
    decreases |s|, 2
  {
    hide ParseParen, ParseUnop, ParseLiteral, ParseVariable, IsSuffix, WellFormed;
    var p := ParseParen(s, tok);
    ParenSound(s, tok);
    if p.expr.None? {
      var u := ParseUnop(p.rest, tok);
      UnopSound(p.rest, tok);
      Carry(u, p.rest, s);
      if u.expr.None? {
        var l := ParseLiteral(u.rest);
        LiteralSound(u.rest);
        Carry(l, u.rest, s);
        VariableSound(l.rest, tok);
        Carry(ParseVariable(l.rest, tok), l.rest, s);
      }
    }
  }

  lemma {:induction false} FactorLoopSound(left: Expr, s: string, tok: bool, t: string)
    requires WellFormed(left) && IsSuffix(s, t)
    ensures Sound(t, FactorLoop(left, s, tok))
    decreases |s|, 3
  {
    hide ParseTerm, SkipSpaces, IsSuffix;
    var s' := SkipSpaces(s);
    SpacesAreSuffix(s, t);
    var op := FactorOpAt(s');
    if op.Some? {
      var right := ParseTerm(SkipSpaces(s'[1..]), tok);
      TermSound(SkipSpaces(s'[1..]), tok);
      GoOn(right, s', 1, t);
      if right.expr.Some? {
        FactorLoopSound(Binop(op.value, left, right.expr.value), right.rest, tok, t);
      }
    }
  }

  lemma {:induction false} FactorSound(s: string, tok: bool)
    ensures Sound(s, ParseFactor(s, tok))
    decreases |s|, 4
  {
    hide ParseTerm, FactorLoop, IsSuffix, WellFormed;
    var e := ParseTerm(s, tok);
    TermSound(s, tok);
    if e.expr.Some? {
      FactorLoopSound(e.expr.value, e.rest, tok, s);
    }
  }

  lemma {:induction false} AddendLoopSound(left: Expr, s: string, tok: bool, t: string)
    requires WellFormed(left) && IsSuffix(s, t)
    ensures Sound(t, AddendLoop(left, s, tok))
    decreases |s|, 5
  {
    hide ParseFactor, SkipSpaces, IsSuffix;
    var op := AddendOpAt(s);
    if op.Some? {
      var right := ParseFactor(SkipSpaces(s[1..]), tok);
      FactorSound(SkipSpaces(s[1..]), tok);
      GoOn(right, s, 1, t);
      if right.expr.Some? {
        AddendLoopSound(Binop(op.value, left, right.expr.value), right.rest, tok, t);
      }
    }
  }

  lemma {:induction false} AddendSound(s: string, tok: bool)
    ensures Sound(s, ParseAddend(s, tok))
    decreases |s|, 6
  {
    hide ParseFactor, AddendLoop, IsSuffix, WellFormed;
    var e := ParseFactor(s, tok);
    FactorSound(s, tok);
    if e.expr.Some? {
      AddendLoopSound(e.expr.value, e.rest, tok, s);
    }
  }

  lemma {:induction false} ShiftSound(s: string, tok: bool)
    ensures Sound(s, ParseShift(s, tok))
    decreases |s|, 7
  {
    hide ParseAddend, SkipSpaces, IsSuffix;
    var e := ParseAddend(s, tok);
    AddendSound(s, tok);
    if e.expr.Some? && ShiftOpAt(e.rest).Some? {
      var s' := SkipSpaces(e.rest[2..]);
      ShiftSound(s', tok);
      GoOn(ParseShift(s', tok), e.rest, 2, s);
    }
  }

  lemma {:induction false} CompSound(s: string, tok: bool)
    ensures Sound(s, ParseComp(s, tok))
    decreases |s|, 8
  {
    hide ParseShift, SkipSpaces, CompOpAt, IsSuffix;
    var e := ParseShift(s, tok);
    ShiftSound(s, tok);
    if e.expr.Some? && CompOpAt(e.rest).Some? {
      var n := CompOpAt(e.rest).value.1;
      var s' := SkipSpaces(e.rest[n..]);
      CompSound(s', tok);
      GoOn(ParseComp(s', tok), e.rest, n, s);
    }
  }

  lemma {:induction false} EqualSound(s: string, tok: bool)
    ensures Sound(s, ParseEqual(s, tok))
    decreases |s|, 9
  {
    hide ParseComp, IsSuffix;
    var e := ParseComp(s, tok);
    CompSound(s, tok);
    if e.expr.Some? && EqualOpAt(e.rest).Some? {
      EqualSound(e.rest[2..], tok);
      DropIsSuffix(e.rest, 2, s);
      Carry(ParseEqual(e.rest[2..], tok), e.rest[2..], s);
    }
  }

  lemma {:induction false} BinopSound(k: nat, s: string, tok: bool)
    requires k < 5
    ensures Sound(s, ParseBinop(k, s, tok))
    decreases |s|, 10 + k
  {
    hide ParseEqual, SkipSpaces, BinopText, BinopOf, IsSuffix;
    var e := if k == 0 then ParseEqual(s, tok) else ParseBinop(k - 1, s, tok);
    if k == 0 {
      EqualSound(s, tok);
    } else {
      BinopSound(k - 1, s, tok);
    }
    if e.expr.Some? && BinopAt(e.rest, k) {
      var s' := SkipSpaces(e.rest[|BinopText(k)|..]);
      BinopSound(k, s', tok);
      GoOn(ParseBinop(k, s', tok), e.rest, |BinopText(k)|, s);
    }
  }

  lemma {:induction false} TernarySound(s: string, tok: bool)
    ensures Sound(s, ParseTernary(s, tok))
    decreases |s|, 16
  {
    hide ParseBinop, IsSuffix;
    var c := ParseBinop(4, s, tok);
    BinopSound(4, s, tok);
    if c.expr.Some? && StartsWithChar(c.rest, '?') {
      var t := ParseTernary(c.rest[1..], tok);
      TernarySound(c.rest[1..], tok);
      DropIsSuffix(c.rest, 1, s);
      Carry(t, c.rest[1..], s);
      if t.expr.Some? && StartsWithChar(t.rest, ':') {
        TernarySound(t.rest[1..], tok);
        DropIsSuffix(t.rest, 1, s);
        Carry(ParseTernary(t.rest[1..], tok), t.rest[1..], s);
      }
    }
  }

  lemma {:induction false} AssignmentSound(s: string, tok: bool)
    ensures Sound(s, ParseAssignment(s, tok))
    decreases |s|, 17
  {
    hide ParseExpr, NameLength, AssignOpAt, AssignText, IsName, IsSuffix;
    Itself(s);
    var n := Name(s, tok);
    if n > 0 && AssignOpAt(s[n..], 0).Some? {
      var m := |AssignText(AssignOpAt(s[n..], 0).value)|;
      ExprSound(s[n..][m..], tok);
      DropIsSuffix(s, n, s);
      DropIsSuffix(s[n..], m, s);
      Carry(ParseExpr(s[n..][m..], tok), s[n..][m..], s);
      NameIsName(s);
    }
  }

  /** `arithm_expr` leaves a suffix of its input and returns well-formed trees only. */
  lemma {:induction false} ExprSound(s: string, tok: bool)
    ensures Sound(s, ParseExpr(s, tok))
    decreases |s|, 18
  {
    hide ParseAssignment, ParseTernary, IsSuffix, WellFormed;
    var a := ParseAssignment(s, tok);
    AssignmentSound(s, tok);
    if a.expr.None? {
      TernarySound(a.rest, tok);
      Carry(ParseTernary(a.rest, tok), a.rest, s);
    }
  }

  /** Whatever the parser accepts is a well-formed tree. */
  lemma ParsedIsWellFormed(symbol: Option<Symbol>, s: string)
    requires ParseArithm(symbol, s).expr.Some?
    ensures WellFormed(ParseArithm(symbol, s).expr.value)
  {
    hide ParseExpr, IsSuffix, WellFormed, NextSymbol, SkipSpaces;
    var (kind, s') := Settle(symbol, SkipSpaces(s));
    ExprSound(s', kind == Token);
  }
}

/** The laws of the arithmetic parser: writing and parsing, and how chains of operators group. */
module ArithmLaws {
  import opened Chars
  import opened Parsers
  import opened ArithmGrammar
  import opened ArithmShape
  import opened ArithmPrint
  import opened ArithmRoundTrip

  /** A text that starts like an expression starts with a token: names are taken in it. */
  lemma StarterIsToken(lead: string, s: string)
    requires Starter(s)
    ensures Settle(None, SkipSpaces(Blanks(lead) + s)) == (Token, s)
  {
    BlanksAreSkipped(lead, s);
    StarterIsNotSpace(s);
  }

  lemma ParsesWhole(lead: string, s: string, e: Expr, noted: bool)
    requires Starter(s) && ParseExpr(s, true) == Parse(Some(e), "", noted)
    ensures ParseArithm(None, Blanks(lead) + s) == Outcome(Some(e), noted)
  {
    StarterIsToken(lead, s);
    hide ParseExpr, NextSymbol, SkipSpaces, Starter, Blanks;
  }

  lemma TrailingBlanks(trail: string)
    ensures SkipSpaces(Blanks(trail)) == "" && Ends(0, Blanks(trail))
  {
    BlanksAreSkipped(trail, "");
    assert Blanks(trail) + "" == Blanks(trail);
    ClosingStops("");
  }

  /**
   * Every written expression is read back as the tree that is meant, and no error is set: with
   * any parentheses and any white space at each place, but for the places that `Legal` excludes.
   */
  lemma WrittenParses(w: Written, lead: string, trail: string)
    requires Whole(w)
    ensures ParseArithm(None, Blanks(lead) + (Text(w) + Blanks(trail))) == Outcome(Some(Tree(w)), false)
  {
    hide ParseExpr, ParseArithm, Text, Legal, Starter, Ends, SkipSpaces;
    TrailingBlanks(trail);
    StartsWhole(w, true, Blanks(trail));
    TextParses(w, 0, true, Blanks(trail));
    ParsesWhole(lead, Text(w) + Blanks(trail), Tree(w), false);
  }

  lemma NoBlanks(s: string)
    ensures Blanks("") + (s + Blanks("")) == s && Blanks("") + s == s
  {
  }

  /** Every well-formed tree is read back from what the printer writes. */
  lemma PrintParses(e: Expr)
    requires WellFormed(e)
    ensures ParseArithm(None, Text(Printed(e))) == Outcome(Some(e), false)
  {
    hide ParseArithm, Text, Legal, Printed, Blanks;
    PrintedIsLegal(e);
    WrittenParses(Printed(e), "", "");
    NoBlanks(Text(Printed(e)));
  }

  /** Whatever the parser accepts, even with an error on record, printing the tree and parsing again gives the same tree. */
  lemma ReparsesToItself(symbol: Option<Symbol>, s: string)
    requires ParseArithm(symbol, s).expr.Some?
    ensures var e := ParseArithm(symbol, s).expr.value;
      WellFormed(e) && ParseArithm(None, Text(Printed(e))) == Outcome(Some(e), false)
  {
    hide ParseArithm, Text, Printed;
    ParsedIsWellFormed(symbol, s);
    PrintParses(ParseArithm(symbol, s).expr.value);
  }

  /** Texts are unambiguous: what is written alike means the same tree. */
  lemma TextTellsTree(w: Written, w': Written)
    requires Whole(w) && Whole(w') && Text(w) == Text(w')
    ensures Tree(w) == Tree(w')
  {
    hide ParseArithm, Text, Legal, Tree, Blanks;
    WrittenParses(w, "", "");
    WrittenParses(w', "", "");
  }

  // -----------------------------------------------------------------------
  // Chains of operators of one level.

  datatype Operation = Operation(op: BinopType, before: string, after: string, operand: Written)

  /** Operations of level `k`, one after the other; the last operand stands open if the chain does. */
  predicate IsChain(k: nat, rest: seq<Operation>, open: bool) {
    rest == [] || (OpLevel(rest[0].op) == k && GapFits(rest[0].op, rest[0].after) && Level(rest[0].operand) > k
                   && Legal(rest[0].operand, open && |rest| == 1) && IsChain(k, rest[1..], open))
  }

  /** `first` and the operations after it, without further parentheses. */
  function ChainText(first: Written, rest: seq<Operation>): string {
    Text(first) + Operations(rest)
  }

  function Operations(rest: seq<Operation>): string {
    if rest == [] then ""
    else Blanks(rest[0].before) + (OpText(rest[0].op) + (Blanks(rest[0].after) + (Text(rest[0].operand) + Operations(rest[1..]))))
  }

  /** `(..(first op e1) op e2 ..) op en` */
  function LeftFold(first: Expr, rest: seq<Operation>): Expr
    decreases rest
  {
    if rest == [] then first else LeftFold(Binop(rest[0].op, first, Tree(rest[0].operand)), rest[1..])
  }

  /** `first op (e1 op (e2 .. op en))` */
  function RightFold(first: Expr, rest: seq<Operation>): Expr
    decreases rest
  {
    if rest == [] then first else Binop(rest[0].op, first, RightFold(Tree(rest[0].operand), rest[1..]))
  }

  /** The chain as it groups to the left. */
  function LeftWritten(first: Written, rest: seq<Operation>): Written
    decreases rest
  {
    if rest == [] then first
    else LeftWritten(Binary(rest[0].op, first, rest[0].before, rest[0].after, rest[0].operand), rest[1..])
  }

  function RightWritten(first: Written, rest: seq<Operation>): Written
    decreases rest
  {
    if rest == [] then first
    else Binary(rest[0].op, first, rest[0].before, rest[0].after, RightWritten(rest[0].operand, rest[1..]))
  }

  lemma {:induction false} LeftWrittenMeans(k: nat, first: Written, rest: seq<Operation>, open: bool)
    requires 10 <= k <= 11 && Level(first) >= k && Legal(first, open && rest == []) && IsChain(k, rest, open)
    ensures var w := LeftWritten(first, rest);
      Legal(w, open) && Level(w) >= k && Text(w) == ChainText(first, rest) && Tree(w) == LeftFold(Tree(first), rest)
    decreases rest
  {
    if rest == [] {
      assert Text(first) + "" == Text(first);
    } else {
      var o := rest[0];
      var w := Binary(o.op, first, o.before, o.after, o.operand);
      LeftWrittenMeans(k, w, rest[1..], open);
      BinaryText(w, Operations(rest[1..]));
    }
  }

  lemma {:induction false} RightWrittenMeans(k: nat, first: Written, rest: seq<Operation>, open: bool)
    requires 2 <= k <= 9 && Level(first) > k && Legal(first, open && rest == []) && IsChain(k, rest, open)
    ensures var w := RightWritten(first, rest);
      Legal(w, open) && Level(w) >= k && Text(w) == ChainText(first, rest) && Tree(w) == RightFold(Tree(first), rest)
    decreases rest
  {
    if rest == [] {
      assert Text(first) + "" == Text(first);
    } else {
      RightWrittenMeans(k, rest[0].operand, rest[1..], open);
    }
  }

  /** `factor` and `addend` group chains of any length to the left. */
  lemma LeftChain(k: nat, first: Written, rest: seq<Operation>, open: bool, post: string)
    requires 10 <= k <= 11 && Level(first) > k && Legal(first, open && rest == []) && IsChain(k, rest, open)
    requires Ends(k, post) && (open ==> Ends(0, post))
    ensures ParseAt(k, ChainText(first, rest) + post) == Done(LeftFold(Tree(first), rest), SkipSpaces(post))
  {
    hide ParseAt, Ends, Text, Legal, SkipSpaces, ChainText;
    LeftWrittenMeans(k, first, rest, open);
    TextParses(LeftWritten(first, rest), k, open, post);
  }

  /** The other levels, from `<<` to `||`, group them to the right. */
  lemma RightChain(k: nat, first: Written, rest: seq<Operation>, open: bool, post: string)
    requires 2 <= k <= 9 && Level(first) > k && Legal(first, open && rest == []) && IsChain(k, rest, open)
    requires Ends(k, post) && (open ==> Ends(0, post))
    ensures ParseAt(k, ChainText(first, rest) + post) == Done(RightFold(Tree(first), rest), SkipSpaces(post))
  {
    hide ParseAt, Ends, Text, Legal, SkipSpaces, ChainText;
    RightWrittenMeans(k, first, rest, open);
    TextParses(RightWritten(first, rest), k, open, post);
  }

  // -----------------------------------------------------------------------
  // Side by side with ISO C, where all binary operators group to the left and a unary one takes a
  // single operand.

  /** How many left operands lie inside each other. */
  function LeftDepth(e: Expr): nat {
    if e.Binop? then 1 + LeftDepth(e.left) else 0
  }

  lemma {:induction false} LeftFoldDepth(first: Expr, rest: seq<Operation>)
    ensures LeftDepth(LeftFold(first, rest)) == LeftDepth(first) + |rest|
    decreases rest
  {
    if rest != [] {
      LeftFoldDepth(Binop(rest[0].op, first, Tree(rest[0].operand)), rest[1..]);
    }
  }

  lemma FoldsAgreeIff(first: Expr, rest: seq<Operation>)
    ensures LeftFold(first, rest) == RightFold(first, rest) <==> |rest| <= 1
  {
    LeftFoldDepth(first, rest);
    if |rest| == 1 {
      assert rest[1..] == [];
    }
  }

  /** A chain is read as C reads it exactly at the two levels that loop, or when it has at most one operator. */
  lemma ChainLikeCIff(k: nat, first: Written, rest: seq<Operation>, open: bool, post: string)
    requires 2 <= k <= 11 && Level(first) > k && Legal(first, open && rest == []) && IsChain(k, rest, open)
    requires Ends(k, post) && (open ==> Ends(0, post))
    ensures ParseAt(k, ChainText(first, rest) + post) == Done(LeftFold(Tree(first), rest), SkipSpaces(post))
      <==> k >= 10 || |rest| <= 1
  {
    hide ParseAt, Ends, Text, Legal, SkipSpaces, ChainText, LeftFold, RightFold;
    if k >= 10 {
      LeftChain(k, first, rest, open, post);
    } else {
      RightChain(k, first, rest, open, post);
      FoldsAgreeIff(Tree(first), rest);
    }
  }

  /** How the level of a chain groups it. */
  function Fold(k: nat, first: Expr, rest: seq<Operation>): Expr {
    if k >= 10 then LeftFold(first, rest) else RightFold(first, rest)
  }

  /** Is the first thing in the chain a bare name directly before `==`? */
  predicate StartsLikeAssignment(first: Written, rest: seq<Operation>) {
    if first.Named? then rest != [] && rest[0].op == Equal && Blanks(rest[0].before) == "" else LooksAssigned(first)
  }

  lemma {:induction false} ChainLooksAssigned(first: Written, rest: seq<Operation>)
    ensures LooksAssigned(LeftWritten(first, rest)) == LooksAssigned(RightWritten(first, rest)) == StartsLikeAssignment(first, rest)
    decreases rest
  {
    if rest != [] {
      ChainLooksAssigned(Binary(rest[0].op, first, rest[0].before, rest[0].after, rest[0].operand), rest[1..]);
    }
  }

  /** The chain as its level groups it. */
  lemma ChainIsWritten(k: nat, first: Written, rest: seq<Operation>) returns (w: Written)
    requires 2 <= k <= 11 && Level(first) > k && Legal(first, rest == []) && IsChain(k, rest, true)
    ensures Legal(w, true) && Level(w) >= k && Text(w) == ChainText(first, rest) && Tree(w) == Fold(k, Tree(first), rest)
    ensures LooksAssigned(w) == StartsLikeAssignment(first, rest)
  {
    hide Text, Legal, LeftFold, RightFold, ChainText, LooksAssigned, StartsLikeAssignment, IsChain;
    ChainLooksAssigned(first, rest);
    if k >= 10 {
      LeftWrittenMeans(k, first, rest, true);
      w := LeftWritten(first, rest);
    } else {
      RightWrittenMeans(k, first, rest, true);
      w := RightWritten(first, rest);
    }
  }

  /**
   * A unary operator takes the whole chain that follows, as C reads it only when that has no
   * operators.
   */
  lemma UnaryTakesChain(op: UnopType, k: nat, first: Written, rest: seq<Operation>, post: string)
    requires 2 <= k <= 11 && Level(first) > k && Legal(first, rest == []) && IsChain(k, rest, true)
    requires !StartsLikeAssignment(first, rest) && Ends(0, post)
    ensures var tree := Unop(op, Fold(k, Tree(first), rest));
      ParseTerm([UnopChar(op)] + (ChainText(first, rest) + post), true) == Done(tree, SkipSpaces(post))
      && (tree == LeftFold(Unop(op, Tree(first)), rest) <==> rest == [])
  {
    hide Text, Legal, LeftFold, RightFold, ParseTerm, Ends, SkipSpaces, ChainText, LooksAssigned, StartsLikeAssignment, IsChain;
    var w := ChainIsWritten(k, first, rest);
    UnaryWritten(op, w, post);
    UnaryFold(op, k, Tree(first), rest);
  }

  lemma UnaryWritten(op: UnopType, w: Written, post: string)
    requires Whole(w) && Ends(0, post)
    ensures ParseTerm([UnopChar(op)] + (Text(w) + post), true) == Done(Unop(op, Tree(w)), SkipSpaces(post))
  {
    var u := Unary(op, w);
    assert Text(u) + post == [UnopChar(op)] + (Text(w) + post);
    hide Text, ParseTerm, Ends, SkipSpaces;
    UnaryParses(u, post);
  }

  lemma UnaryFold(op: UnopType, k: nat, first: Expr, rest: seq<Operation>)
    ensures Unop(op, Fold(k, first, rest)) == LeftFold(Unop(op, first), rest) <==> rest == []
  {
    LeftFoldDepth(Unop(op, first), rest);
  }

  /** `1<<2<<3` is read as `1<<(2<<3)`, and `-1+2` as `-(1+2)`. */
  lemma UnlikeC()
    ensures ParseArithm(None, "1<<2<<3")
      == Outcome(Some(Binop(ShiftLeft, Literal(1), Binop(ShiftLeft, Literal(2), Literal(3)))), false)
    ensures ParseArithm(None, "-1+2") == Outcome(Some(Unop(Minus, Binop(Add, Literal(1), Literal(2)))), false)
  {
    Shifts();
    Negation();
    hide ParseArithm, Text, Tree, Legal, LooksAssigned, Printed;
    PrintParses(Binop(ShiftLeft, Literal(1), Binop(ShiftLeft, Literal(2), Literal(3))));
    PrintParses(Unop(Minus, Binop(Add, Literal(1), Literal(2))));
  }

  lemma Shifts()
    ensures var e := Binop(ShiftLeft, Literal(1), Binop(ShiftLeft, Literal(2), Literal(3)));
      WellFormed(e) && Text(Printed(e)) == "1<<2<<3"
  {
    var e := Binop(ShiftLeft, Literal(2), Literal(3));
    assert Text(Printed(Literal(1))) == "1" && Text(Printed(Literal(2))) == "2" && Text(Printed(Literal(3))) == "3";
    assert Text(Printed(e)) == "2<<3";
  }

  lemma Negation()
    ensures var e := Unop(Minus, Binop(Add, Literal(1), Literal(2)));
      WellFormed(e) && Text(Printed(e)) == "-1+2"
  {
    var e := Binop(Add, Literal(1), Literal(2));
    assert Text(Printed(Literal(1))) == "1" && Text(Printed(Literal(2))) == "2";
    assert Text(Printed(e)) == "1+2";
    assert PrintedAt(e, 0) == Printed(e);
  }
}

/**
 * Words as they are written: text outside quotes, backslashes, quotes and parameters, and exactly
 * which texts the word parser takes and what words it makes of them.
 */
module WordLanguage {
  import opened Chars
  import opened Parsers
  import opened Words
  import opened WordGrammar
  import opened QuotedWords

  /** A piece of a written word; the blanks of a parameter stand between the dollar sign and its name. */
  datatype Item =
    | Plain(c: char)
    | Slashed(c: char)
    | Joined
    | Single(text: string)
    | Double(items: seq<Item>)
    | Parameter(gap: string, name: string)

  // -----------------------------------------------------------------------
  // The text of a word, and what it means.

  function SourceOf(it: Item): (s: string)
    ensures s != ""
    decreases it, 1
  {
    match it
    case Plain(c) => [c]
    case Slashed(c) => ['\\', c]
    case Joined => "\\\n"
    case Single(text) => "'" + (text + "'")
    case Double(items) => "\"" + (Source(items) + "\"")
    case Parameter(gap, name) => "$" + (gap + name)
  }

  function Source(items: seq<Item>): (s: string)
    ensures items != [] ==> s != ""
    decreases items, 0
  {
    if items == [] then "" else SourceOf(items[0]) + Source(items[1..])
  }

  function Pend(pending: string): seq<Word> {
    if pending == "" then [] else [Str(pending, false, false)]
  }

  /** The parts of the word: text between other parts is one string, without its backslashes. */
  function Children(pending: string, items: seq<Item>): seq<Word>
    decreases items
  {
    if items == [] then Pend(pending)
    else match items[0]
      case Plain(c) => Children(pending + [c], items[1..])
      case Slashed(c) => Children(pending + [c], items[1..])
      case Joined => Children(pending, items[1..])
      case Single(text) => Pend(pending) + ([Str(text, true, false)] + Children("", items[1..]))
      case Double(inner) => Pend(pending) + ([List(Children("", inner), true)] + Children("", items[1..]))
      case Parameter(_, name) => Pend(pending) + ([Param(name)] + Children("", items[1..]))
  }

  /** The word: its only part, or the list of its parts. */
  function Meaning(items: seq<Item>): Word {
    var children := Children("", items);
    if |children| == 1 then children[0] else List(children, false)
  }

  // -----------------------------------------------------------------------
  // Which words may be written.

  /** Has a parameter been read once this piece is? */
  function SeenItem(it: Item, seen: bool): bool
    decreases it, 1
  {
    match it
    case Double(items) => Seen(items, seen)
    case Parameter(_, _) => true
    case _ => seen
  }

  function Seen(items: seq<Item>, seen: bool): bool
    decreases items, 0
  {
    if items == [] then seen else Seen(items[1..], SeenItem(items[0], seen))
  }

  /** A name that the text after it does not go on; after another parameter of the word, with blanks before it. */
  predicate LegalName(gap: string, name: string, seen: bool, next: string) {
    IsIdentifier(name) && (next != "" ==> !IsWordChar(next[0]))
    && (gap == "" || seen) && forall c <- gap :: c == ' ' || c == '\t'
  }

  /** A special parameter, but no `#` after another parameter of the word. */
  predicate LegalSpecial(gap: string, name: string, seen: bool) {
    gap == "" && |name| == 1 && name[0] in "@*#?-$!0123456789" && (name[0] == '#' ==> !seen)
  }

  predicate LegalParameter(gap: string, name: string, seen: bool, next: string) {
    LegalName(gap, name, seen, next) || LegalSpecial(gap, name, seen)
  }

  predicate LegalItem(it: Item, quoted: bool, end: char, seen: bool, next: string)
    decreases it, 1
  {
    match it
    case Plain(c) =>
      if !quoted then c != end && c !in "\\\n)$`'\"&|;<> \t"
      else c !in "\"$`" && (c == '\\' && next != "" ==> next[0] !in "\"$`\\\n")
    case Slashed(c) => if quoted then c in "\"$`\\" else c != '\n'
    case Joined => true
    case Single(text) => !quoted && '\'' !in text
    case Double(items) => !quoted && Legal(items, true, end, seen, "\"" + next)
    case Parameter(gap, name) => LegalParameter(gap, name, seen, next)
  }

  /** May these pieces be written before `post`, inside double quotes or outside? */
  predicate Legal(items: seq<Item>, quoted: bool, end: char, seen: bool, post: string)
    decreases items, 0
  {
    items == [] || (
      LegalItem(items[0], quoted, end, seen, Source(items[1..]) + post)
      && Legal(items[1..], quoted, end, SeenItem(items[0], seen), post))
  }

  /** A closing character that starts no quoting and no parameter. */
  predicate Closes(end: char) {
    end !in "\\$'\"`"
  }

  // -----------------------------------------------------------------------
  // Parameters.

  /** The token kind is known until a parameter has been read. */
  function Known(seen: bool): Option<Symbol> {
    if seen then None else Some(Token)
  }

  lemma {:induction false} BlanksBeforeToken(gap: string, s: string)
    requires forall c <- gap :: c == ' ' || c == '\t'
    ensures NextSymbol(gap + s) == NextSymbol(s)
  {
    if gap == "" {
      assert gap + s == s;
    } else {
      assert (gap + s)[0] == gap[0] && (gap + s)[1..] == gap[1..] + s;
      assert gap[0] in gap && forall c <- gap[1..] :: c in gap;
      hide OperatorAt, SkipComment;
      BlanksBeforeToken(gap[1..], s);
    }
  }

  /** The blanks before a token. */
  lemma {:induction false} TokenGap(s: string) returns (gap: string)
    requires NextSymbol(s).0 == Token
    ensures s == gap + NextSymbol(s).1 && forall c <- gap :: c == ' ' || c == '\t'
    ensures s != "" && !IsBlank(s[0]) ==> gap == "" && s[0] != '#'
    decreases |s|
  {
    hide OperatorAt, SkipComment;
    OperatorIsNoToken(s, 0);
    gap := "";
    if s != "" && IsBlank(s[0]) {
      gap := TokenGap(s[1..]);
      assert s == [s[0]] + gap + NextSymbol(s).1;
      gap := [s[0]] + gap;
    } else if s != "" && s[0] == '#' {
      CommentEnds(s[1..]);
      CommentHidesToken(SkipComment(s[1..]));
      assert false;
    }
  }

  lemma {:induction false} NameThere(s: string)
    requires NameLength(s, false) > 0
    ensures var n := NameLength(s, false); IsIdentifier(s[..n]) && (n < |s| ==> !IsWordChar(s[n]))
  {
    NameRun(s);
  }

  lemma {:induction false} NameRun(s: string)
    ensures var n := NameChars(s); (forall c <- s[..n] :: IsWordChar(c)) && (n < |s| ==> !IsWordChar(s[n]))
  {
    if s != "" && IsNameChar(s[0]) {
      NameRun(s[1..]);
      var n := NameChars(s);
      assert s[..n] == [s[0]] + s[1..][..n - 1];
    }
  }

  /** A name is read to its end. */
  lemma NameReads(gap: string, name: string, seen: bool, next: string)
    requires LegalName(gap, name, seen, next)
    ensures Dollar(Cursor(Known(seen), "$" + (gap + name) + next)) == Ok(Param(name), Cursor(None, next))
  {
    var s, t := name + next, "$" + (gap + name) + next;
    assert t[1..] == gap + s && s[0] == name[0] && s[..|name|] == name && s[|name|..] == next;
    NameGoesTo(name, next);
    NameLookedUp(gap, s, seen);
    hide Settle, NameLength, IsIdentifier, Known, LegalName, Dollar;
    DollarTakesName(t, seen, s);
  }

  lemma DollarTakesName(t: string, seen: bool, s: string)
    requires t != "" && Settle(Known(seen), t[1..]) == (Token, s) && NameLength(s, false) > 0
    requires At(t[1..], 0) != '{' && At(t[1..], 0) != '('
    ensures var n := NameLength(s, false); Dollar(Cursor(Known(seen), t)) == Ok(Param(s[..n]), Cursor(None, s[n..]))
  {
    hide Settle, NameLength, Known, IsSpecialParam;
  }

  /** The look-up of the token finds a name after the blanks. */
  lemma NameLookedUp(gap: string, s: string, seen: bool)
    requires s != "" && IsWordChar(s[0]) && !IsDigit(s[0])
    requires (gap == "" || seen) && forall c <- gap :: c == ' ' || c == '\t'
    ensures Settle(Known(seen), gap + s) == (Token, s) && At(gap + s, 0) != '{' && At(gap + s, 0) != '('
  {
    BlanksBeforeToken(gap, s);
    FirstOfName(s);
    hide NextSymbol, IsWordChar, IsDigit;
    if gap == "" {
      assert gap + s == s;
    } else {
      assert (gap + s)[0] == gap[0] && gap[0] in gap;
    }
  }

  lemma NameGoesTo(name: string, next: string)
    requires IsIdentifier(name) && (next != "" ==> !IsWordChar(next[0]))
    ensures NameLength(name + next, false) == |name|
  {
    NameIff(name);
    NameCharsAppend(name, next);
    hide NameChars;
    assert (name + next)[0] == name[0];
  }

  lemma FirstOfName(s: string)
    requires s != "" && IsWordChar(s[0]) && !IsDigit(s[0])
    ensures NextSymbol(s) == (Token, s) && s[0] != '{' && s[0] != '('
  {
  }

  lemma SpecialSet(c: char)
    ensures IsSpecialParam(c) <==> c in "@*#?-$!0123456789"
  {
  }

  lemma FirstOfSpecial(s: string)
    requires s != "" && IsSpecialParam(s[0])
    ensures NameLength(s, false) == 0 && s[0] != '{' && s[0] != '(' && !IsBlank(s[0])
    ensures s[0] != '#' ==> NextSymbol(s) == (Token, s)
  {
  }

  lemma SpecialReads(c: char, seen: bool, next: string)
    requires c in "@*#?-$!0123456789" && (c == '#' ==> !seen)
    ensures Dollar(Cursor(Known(seen), "$" + [c] + next)) == Ok(Param([c]), Cursor(None, next))
  {
    var s, t := [c] + next, "$" + [c] + next;
    assert t[1..] == s && s[..1] == [c] && s[1..] == next && s[0] == c;
    SpecialSet(c);
    FirstOfSpecial(s);
    hide NextSymbol, NameLength, IsSpecialParam;
    assert Dollar(Cursor(Known(seen), t)) == Ok(Param(s[..1]), Cursor(None, s[1..]));
  }

  lemma ParameterReads(gap: string, name: string, seen: bool, next: string)
    requires LegalParameter(gap, name, seen, next)
    ensures Dollar(Cursor(Known(seen), "$" + (gap + name) + next)) == Ok(Param(name), Cursor(None, next))
  {
    hide LegalName, Dollar;
    if LegalName(gap, name, seen, next) {
      NameReads(gap, name, seen, next);
    } else {
      assert name == [name[0]] && gap + name == name;
      SpecialReads(name[0], seen, next);
    }
  }

  /** Where a parameter is read, after which blanks its name starts, and how long it is. */
  lemma DollarParts(s: string, seen: bool) returns (gap: string, t: string, n: nat)
    requires s != "" && s[0] == '$' && Dollar(Cursor(Known(seen), s)).Ok?
    ensures s == "$" + (gap + t) && 0 < n <= |t| && (forall c <- gap :: c == ' ' || c == '\t')
    ensures Dollar(Cursor(Known(seen), s)) == Ok(Param(t[..n]), Cursor(None, t[n..]))
    ensures if NameLength(t, false) > 0 then n == NameLength(t, false) && (gap == "" || seen)
      else n == 1 && gap == "" && IsSpecialParam(t[0]) && (t[0] == '#' ==> !seen)
  {
    var rest := s[1..];
    var kind;
    kind, t := Settle(Known(seen), rest).0, Settle(Known(seen), rest).1;
    n := ParamLength(kind, t, At(rest, 0));
    TokenIsThere(rest);
    gap := "";
    if seen {
      gap := TokenGap(rest);
    }
    hide NextSymbol, NameLength;
    assert rest == gap + t;
    if NameLength(t, false) == 0 {
      SpecialIsNoBlank(At(rest, 0));
    }
  }

  lemma SpecialIsNoBlank(c: char)
    requires IsSpecialParam(c)
    ensures !IsBlank(c) && c != NUL
  {
  }

  /** What was read as a parameter was written as one. */
  lemma ParameterSource(s: string, seen: bool) returns (gap: string, name: string)
    requires s != "" && s[0] == '$' && Dollar(Cursor(Known(seen), s)).Ok?
    ensures var r := Dollar(Cursor(Known(seen), s));
      r == Ok(Param(name), Cursor(None, r.at.rest)) && s == "$" + (gap + name) + r.at.rest
      && LegalParameter(gap, name, seen, r.at.rest)
  {
    hide Dollar, IsSpecialParam, NameLength, Known, LegalName, LegalSpecial;
    var t, n;
    gap, t, n := DollarParts(s, seen);
    name := t[..n];
    Recut(gap, t, n);
    if NameLength(t, false) > 0 {
      NameIsLegal(gap, t, seen);
    } else {
      SpecialIsLegal(t, seen);
    }
  }

  lemma Recut(gap: string, t: string, n: nat)
    requires n <= |t|
    ensures "$" + (gap + t) == "$" + (gap + t[..n]) + t[n..]
  {
    assert t == t[..n] + t[n..];
  }

  lemma NameIsLegal(gap: string, t: string, seen: bool)
    requires NameLength(t, false) > 0 && (gap == "" || seen) && forall c <- gap :: c == ' ' || c == '\t'
    ensures var n := NameLength(t, false); LegalName(gap, t[..n], seen, t[n..])
  {
    NameThere(t);
    hide NameLength, IsIdentifier, IsWordChar;
    var n := NameLength(t, false);
    assert t[n..] != "" ==> t[n..][0] == t[n];
  }

  lemma SpecialIsLegal(t: string, seen: bool)
    requires t != "" && IsSpecialParam(t[0]) && (t[0] == '#' ==> !seen)
    ensures LegalSpecial("", t[..1], seen)
  {
    SpecialSet(t[0]);
    hide IsSpecialParam;
    assert t[..1] == [t[0]];
  }

  // -----------------------------------------------------------------------
  // Inside double quotes.

  lemma PushedIs(children: seq<Word>, buf: string)
    ensures Pushed(children, buf) == children + Pend(buf)
  {
  }

  lemma InPlain(children: seq<Word>, buf: string, c: char, k: Option<Symbol>, next: string, end: char, seen: bool)
    requires LegalItem(Plain(c), true, end, seen, next)
    ensures DoubleLoop(children, buf, Cursor(k, [c] + next)) == DoubleLoop(children, buf + [c], Cursor(k, next))
  {
    var s := [c] + next;
    assert s[1..] == next && (next != "" ==> s[1] == next[0]);
    hide Dollar, Pushed;
    assert QuotedChar(s) == ([c], next);
  }

  lemma InSlashed(children: seq<Word>, buf: string, c: char, k: Option<Symbol>, next: string)
    requires c in "\"$`\\"
    ensures DoubleLoop(children, buf, Cursor(k, ['\\', c] + next)) == DoubleLoop(children, buf + [c], Cursor(k, next))
  {
    var s := ['\\', c] + next;
    assert s[2..] == next && s[1] == c;
    hide Dollar, Pushed;
    assert QuotedChar(s) == ([c], next);
  }

  lemma InJoined(children: seq<Word>, buf: string, k: Option<Symbol>, next: string)
    ensures DoubleLoop(children, buf, Cursor(k, "\\\n" + next)) == DoubleLoop(children, buf, Cursor(k, next))
  {
    var s := "\\\n" + next;
    assert s[2..] == next && s[1] == '\n';
    hide Dollar, Pushed;
    assert QuotedChar(s) == ("", next) && buf + "" == buf;
  }

  lemma InParameter(children: seq<Word>, buf: string, gap: string, name: string, seen: bool, next: string)
    requires LegalParameter(gap, name, seen, next)
    ensures DoubleLoop(children, buf, Cursor(Known(seen), "$" + (gap + name) + next))
      == DoubleLoop(children + Pend(buf) + [Param(name)], "", Cursor(None, next))
  {
    ParameterReads(gap, name, seen, next);
    PushedIs(children, buf);
    hide Dollar, Pushed, LegalParameter, Pend;
  }

  /** The next piece of a text. */
  lemma FirstItem(items: seq<Item>, post: string)
    requires items != []
    ensures Source(items) + post == SourceOf(items[0]) + (Source(items[1..]) + post)
  {
    hide SourceOf;
  }

  lemma Regroup(children: seq<Word>, own: seq<Word>, part: seq<Word>, rest: seq<Word>)
    ensures children + own + part + rest == children + (own + (part + rest))
  {
  }

  /** The loop inside double quotes gets to the end of pieces that may be written there. */
  lemma {:induction false} DoubleRun(children: seq<Word>, buf: string, items: seq<Item>, seen: bool, tail: string, end: char)
      returns (children': seq<Word>, buf': string)
    requires Legal(items, true, end, seen, tail)
    ensures DoubleLoop(children, buf, Cursor(Known(seen), Source(items) + tail))
      == DoubleLoop(children', buf', Cursor(Known(Seen(items, seen)), tail))
    ensures Pushed(children', buf') == children + Children(buf, items)
    decreases items
  {
    hide DoubleLoop, Known, LegalParameter, Pushed, Pend;
    if items == [] {
      assert Source(items) + tail == tail;
      PushedIs(children, buf);
      children', buf' := children, buf;
    } else {
      var rest := items[1..];
      var next := Source(rest) + tail;
      FirstItem(items, tail);
      match items[0]
      case Plain(c) =>
        InPlain(children, buf, c, Known(seen), next, end, seen);
        children', buf' := DoubleRun(children, buf + [c], rest, seen, tail, end);
      case Slashed(c) =>
        InSlashed(children, buf, c, Known(seen), next);
        children', buf' := DoubleRun(children, buf + [c], rest, seen, tail, end);
      case Joined =>
        InJoined(children, buf, Known(seen), next);
        children', buf' := DoubleRun(children, buf, rest, seen, tail, end);
      case Parameter(gap, name) =>
        InParameter(children, buf, gap, name, seen, next);
        KnownNothing();
        children', buf' := DoubleRun(children + Pend(buf) + [Param(name)], "", rest, true, tail, end);
        Regroup(children, Pend(buf), [Param(name)], Children("", rest));
    }
  }

  lemma KnownNothing()
    ensures Known(true) == None
  {
  }

  // -----------------------------------------------------------------------
  // Outside quotes.

  lemma OutPlain(children: seq<Word>, buf: string, c: char, k: Option<Symbol>, next: string, end: char)
    requires c != end && c !in "\\\n)$`'\"&|;<> \t"
    ensures WordLoop(children, buf, Cursor(k, [c] + next), end) == WordLoop(children, buf + [c], Cursor(k, next), end)
  {
    assert ([c] + next)[1..] == next;
    hide Part, Pushed;
  }

  lemma OutSlashed(children: seq<Word>, buf: string, c: char, k: Option<Symbol>, next: string, end: char)
    requires c != '\n' && Closes(end)
    ensures WordLoop(children, buf, Cursor(k, ['\\', c] + next), end) == WordLoop(children, buf + [c], Cursor(k, next), end)
  {
    var s := ['\\', c] + next;
    assert s[2..] == next && s[1] == c;
    hide Part, Pushed;
    assert PlainChar(s) == Some(([c], next));
  }

  lemma OutJoined(children: seq<Word>, buf: string, k: Option<Symbol>, next: string, end: char)
    requires Closes(end)
    ensures WordLoop(children, buf, Cursor(k, "\\\n" + next), end) == WordLoop(children, buf, Cursor(k, next), end)
  {
    var s := "\\\n" + next;
    assert s[2..] == next && s[1] == '\n';
    hide Part, Pushed;
    assert PlainChar(s) == Some(("", next)) && buf + "" == buf;
  }

  /** A part that is read as `w`. */
  lemma OutPart(children: seq<Word>, buf: string, k: Option<Symbol>, s: string, w: Word, at: Cursor, end: char)
    requires s != "" && StartsPart(s[0]) && s[0] != end && Part(Cursor(k, s)) == Ok(w, at)
    ensures WordLoop(children, buf, Cursor(k, s), end) == WordLoop(children + Pend(buf) + [w], "", at, end)
  {
    PushedIs(children, buf);
    hide Part, Pushed, Pend;
  }

  lemma {:induction false} SingleReads(buf: string, text: string, next: string)
    requires '\'' !in text
    ensures SingleLoop(buf, text + ("'" + next)) == Some((buf + text, next))
    decreases text
  {
    var s := text + ("'" + next);
    if text == "" {
      assert s == "'" + next && s[1..] == next && buf + text == buf;
    } else {
      assert s[0] == text[0] && s[1..] == text[1..] + ("'" + next) && text[0] in text;
      SingleReads(buf + [text[0]], text[1..], next);
      assert buf + [text[0]] + text[1..] == buf + text;
    }
  }

  lemma SinglePart(text: string, k: Option<Symbol>, next: string)
    requires '\'' !in text
    ensures Part(Cursor(k, "'" + (text + "'") + next)) == Ok(Str(text, true, false), Cursor(k, next))
  {
    var s := "'" + (text + "'") + next;
    assert s[1..] == text + ("'" + next) && s[0] == '\'';
    SingleReads("", text, next);
    assert "" + text == text;
    hide SingleLoop;
  }

  lemma DoublePart(items: seq<Item>, seen: bool, next: string, end: char)
    requires Legal(items, true, end, seen, "\"" + next)
    ensures Part(Cursor(Known(seen), "\"" + (Source(items) + "\"") + next))
      == Ok(List(Children("", items), true), Cursor(Known(Seen(items, seen)), next))
  {
    var s, tail := "\"" + (Source(items) + "\"") + next, "\"" + next;
    assert s[1..] == Source(items) + tail && s[0] == '"' && tail[1..] == next;
    var children, buf := DoubleRun([], "", items, seen, tail, end);
    assert [] + Children("", items) == Children("", items);
    hide Source, Children, Legal, Seen, Known, Pushed;
    assert DoubleLoop(children, buf, Cursor(Known(Seen(items, seen)), tail)).Ok?;
    hide DoubleLoop;
  }

  lemma ParameterPart(gap: string, name: string, seen: bool, next: string)
    requires LegalParameter(gap, name, seen, next)
    ensures Part(Cursor(Known(seen), "$" + (gap + name) + next)) == Ok(Param(name), Cursor(None, next))
  {
    ParameterReads(gap, name, seen, next);
    hide Dollar, LegalParameter;
  }

  /** The loop of a word gets to the end of pieces that may be written. */
  lemma {:induction false} WordRun(children: seq<Word>, buf: string, items: seq<Item>, seen: bool, post: string, end: char)
      returns (children': seq<Word>, buf': string)
    requires Legal(items, false, end, seen, post) && Closes(end)
    ensures WordLoop(children, buf, Cursor(Known(seen), Source(items) + post), end)
      == WordLoop(children', buf', Cursor(Known(Seen(items, seen)), post), end)
    ensures Pushed(children', buf') == children + Children(buf, items)
    decreases items
  {
    hide WordLoop, Part, Known, LegalParameter, Pushed, Pend;
    if items == [] {
      assert Source(items) + post == post;
      PushedIs(children, buf);
      children', buf' := children, buf;
    } else {
      var rest := items[1..];
      var next, s := Source(rest) + post, Source(items) + post;
      FirstItem(items, post);
      match items[0]
      case Plain(c) =>
        OutPlain(children, buf, c, Known(seen), next, end);
        children', buf' := WordRun(children, buf + [c], rest, seen, post, end);
      case Slashed(c) =>
        OutSlashed(children, buf, c, Known(seen), next, end);
        children', buf' := WordRun(children, buf + [c], rest, seen, post, end);
      case Joined =>
        OutJoined(children, buf, Known(seen), next, end);
        children', buf' := WordRun(children, buf, rest, seen, post, end);
      case Single(text) =>
        SinglePart(text, Known(seen), next);
        children', buf' := PartRun(children, buf, items, Str(text, true, false), seen, post, end);
      case Double(inner) =>
        DoublePart(inner, seen, next, end);
        children', buf' := PartRun(children, buf, items, List(Children("", inner), true), seen, post, end);
      case Parameter(gap, name) =>
        ParameterPart(gap, name, seen, next);
        KnownNothing();
        children', buf' := PartRun(children, buf, items, Param(name), seen, post, end);
    }
  }

  /** A part of its own, and then the other pieces. */
  lemma {:induction false} PartRun(children: seq<Word>, buf: string, items: seq<Item>, w: Word, seen: bool, post: string, end: char)
      returns (children': seq<Word>, buf': string)
    requires Legal(items, false, end, seen, post) && Closes(end) && items != []
    requires items[0].Single? || items[0].Double? || items[0].Parameter?
    requires Part(Cursor(Known(seen), Source(items) + post))
      == Ok(w, Cursor(Known(SeenItem(items[0], seen)), Source(items[1..]) + post))
    requires Children(buf, items) == Pend(buf) + ([w] + Children("", items[1..]))
    ensures WordLoop(children, buf, Cursor(Known(seen), Source(items) + post), end)
      == WordLoop(children', buf', Cursor(Known(Seen(items, seen)), post), end)
    ensures Pushed(children', buf') == children + Children(buf, items)
    decreases items, 0
  {
    var rest, s := items[1..], Source(items) + post;
    FirstItem(items, post);
    assert s[0] == SourceOf(items[0])[0];
    hide WordLoop, Part, Known, LegalItem, Pushed, Pend, Children;
    OutPart(children, buf, Known(seen), s, w, Cursor(Known(SeenItem(items[0], seen)), Source(rest) + post), end);
    children', buf' := WordRun(children + Pend(buf) + [w], "", rest, SeenItem(items[0], seen), post, end);
    Regroup(children, Pend(buf), [w], Children("", rest));
  }

  // -----------------------------------------------------------------------
  // Whole words.

  /** May a word start with this piece? */
  predicate Begins(items: seq<Item>) {
    items != [] && items[0] != Plain('#')
  }

  lemma WordBegins(items: seq<Item>, post: string, end: char)
    requires Begins(items) && Legal(items, false, end, false, post) && Closes(end)
    ensures var s := Source(items) + post;
      NextSymbol(s) == (Token, s) && s != "" && !IsOperatorStart(s[0]) && s[0] != ')' && s[0] != end
  {
    var s := Source(items) + post;
    FirstItem(items, post);
    assert s[0] == SourceOf(items[0])[0];
    hide OperatorAt, SkipComment, Source, LegalParameter;
  }

  /**
   * A written word is read back as what it means, and the parser stops exactly at its end,
   * whenever what follows ends a word, and only then.
   */
  lemma WrittenWordParsesIff(items: seq<Item>, post: string, end: char)
    requires Begins(items) && Legal(items, false, end, false, post) && Closes(end)
    ensures ParseWord(Cursor(None, Source(items) + post), end) == Ok(Meaning(items), Cursor(None, post))
      <==> Terminates(post, end)
  {
    WordBegins(items, post, end);
    var children, buf := WordRun([], "", items, false, post, end);
    assert [] + Children("", items) == Children("", items);
    var k := Known(Seen(items, false));
    StopsExactlyWhen(children, buf, k, post, end);
    hide WordLoop, NextSymbol, Children, Pushed, Terminates, Legal, Seen, Source;
    assert Known(false) == Some(Token);
  }

  // -----------------------------------------------------------------------
  // What is no word.

  function WordOfParts(parts: Outcome<seq<Word>>): Outcome<Word> {
    match parts
    case Ok(children, at) => Ok(OneOrList(children), Cursor(None, at.rest))
    case Null(error, from) => Null(error, from)
    case Abort => Abort
    case Unmodelled => Unmodelled
  }

  /** Written pieces, and then something else that starts with a quote, a backslash or a dollar sign. */
  lemma PiecesBefore(items: seq<Item>, s: string, end: char) returns (children: seq<Word>, buf: string)
    requires Legal(items, false, end, false, s) && Closes(end)
    requires s != "" && s[0] in "\\$'\"" && (items != [] ==> Begins(items))
    ensures ParseWord(Cursor(None, Source(items) + s), end)
      == WordOfParts(WordLoop(children, buf, Cursor(Known(Seen(items, false)), s), end))
  {
    var text := Source(items) + s;
    if items == [] {
      assert text == s;
      QuoteIsToken(s);
    } else {
      WordBegins(items, s, end);
    }
    children, buf := WordRun([], "", items, false, s, end);
    hide WordLoop, NextSymbol, Legal, Seen, Source;
    assert Known(false) == Some(Token);
  }

  lemma QuoteIsToken(s: string)
    requires s != "" && s[0] in "\\$'\""
    ensures NextSymbol(s) == (Token, s) && !IsOperatorStart(s[0]) && s[0] != ')'
  {
  }

  lemma {:induction false} NoClosingQuote(buf: string, s: string)
    requires '\'' !in s
    ensures SingleLoop(buf, s) == None
    decreases s
  {
    if s != "" {
      assert s[0] in s && forall c <- s[1..] :: c in s;
      NoClosingQuote(buf + [s[0]], s[1..]);
    }
  }

  /** A single quote that nothing closes is an error, and all input is read. */
  lemma SingleNotTerminated(items: seq<Item>, text: string, end: char)
    requires '\'' !in text && Legal(items, false, end, false, "'" + text) && Closes(end) && (items != [] ==> Begins(items))
    ensures var r := ParseWord(Cursor(None, Source(items) + ("'" + text)), end);
      r.Null? && r.error == Some("single quotes not terminated") && r.from.rest == ""
  {
    var s := "'" + text;
    var children, buf := PiecesBefore(items, s, end);
    assert s[1..] == text && s[0] == '\'';
    NoClosingQuote("", text);
    hide SingleLoop, Pushed, ParseWord;
  }

  /** So are double quotes that nothing closes. */
  lemma DoubleNotTerminated(items: seq<Item>, inner: seq<Item>, end: char)
    requires Legal(items, false, end, false, "\"" + Source(inner)) && Closes(end) && (items != [] ==> Begins(items))
    requires Legal(inner, true, end, Seen(items, false), "")
    ensures var r := ParseWord(Cursor(None, Source(items) + ("\"" + Source(inner))), end);
      r.Null? && r.error == Some("double quotes not terminated") && r.from.rest == ""
  {
    var s, seen := "\"" + Source(inner), Seen(items, false);
    var children, buf := PiecesBefore(items, s, end);
    assert s[0] == '"';
    UnclosedDouble(inner, seen, end);
    hide WordLoop, Part, ParseWord, Source, Legal, Seen, Known;
    FailedPart(children, buf, Known(seen), s, end);
  }

  lemma UnclosedDouble(inner: seq<Item>, seen: bool, end: char)
    requires Legal(inner, true, end, seen, "")
    ensures var r := Part(Cursor(Known(seen), "\"" + Source(inner)));
      r.Null? && r.error == Some(UNTERMINATED_DOUBLE) && r.from.rest == ""
  {
    var s, at := "\"" + Source(inner), Cursor(Known(Seen(inner, seen)), "");
    var children, buf := DoubleRun([], "", inner, seen, "", end);
    assert s[1..] == Source(inner) && s[0] == '"' && Source(inner) + "" == Source(inner);
    hide Source, Legal, Seen, Known, Pushed;
    assert DoubleLoop(children, buf, at) == Null(Some(UNTERMINATED_DOUBLE), at);
    hide DoubleLoop;
  }

  lemma FailedPart(children: seq<Word>, buf: string, k: Option<Symbol>, s: string, end: char)
    requires s != "" && StartsPart(s[0]) && s[0] != end && Part(Cursor(k, s)).Null?
    ensures var r := Part(Cursor(k, s)); WordLoop(children, buf, Cursor(k, s), end) == Null(r.error, r.from)
  {
    hide Part, Pushed;
  }

  /** A dollar sign before what is no name, special parameter, brace or parenthesis is an error. */
  lemma NoParameterName(items: seq<Item>, text: string, end: char)
    requires Legal(items, false, end, false, "$" + text) && Closes(end) && (items != [] ==> Begins(items))
    requires !Seen(items, false)
    requires text != "" ==> !IsWordChar(text[0]) && text[0] !in "@*#?-$!0123456789{("
    ensures var r := ParseWord(Cursor(None, Source(items) + ("$" + text)), end);
      r.Null? && r.error == Some("invalid parameter name")
  {
    var s := "$" + text;
    var children, buf := PiecesBefore(items, s, end);
    assert s[1..] == text && s[0] == '$';
    NoName(text);
    hide ParseWord, Source, Legal, Seen, NameLength, IsSpecialParam;
    assert Dollar(Cursor(Known(false), s)).Null? && Dollar(Cursor(Known(false), s)).error == Some(INVALID_NAME);
    hide Dollar, Pushed;
  }

  lemma NoName(text: string)
    requires text != "" ==> !IsWordChar(text[0]) && text[0] !in "@*#?-$!0123456789{("
    ensures NameLength(text, false) == 0 && !IsSpecialParam(At(text, 0)) && At(text, 0) != '{' && At(text, 0) != '('
  {
    SpecialSet(At(text, 0));
    assert text != "" ==> text[0] != '{' && text[0] != '(';
  }

  /** A backslash at the end of the input makes an assertion fail. */
  lemma BackslashAtEnd(items: seq<Item>, end: char)
    requires Legal(items, false, end, false, "\\") && Closes(end) && (items != [] ==> Begins(items))
    ensures ParseWord(Cursor(None, Source(items) + "\\"), end) == Abort
  {
    var children, buf := PiecesBefore(items, "\\", end);
    hide ParseWord, Pushed, Part;
  }

  // -----------------------------------------------------------------------
  // Every word that the parser takes is written so.

  lemma Prepend(it: Item, items: seq<Item>, quoted: bool, end: char, seen: bool, post: string)
    requires LegalItem(it, quoted, end, seen, Source(items) + post) && Legal(items, quoted, end, SeenItem(it, seen), post)
    ensures var all := [it] + items;
      && Legal(all, quoted, end, seen, post)
      && Source(all) + post == SourceOf(it) + (Source(items) + post)
      && Seen(all, seen) == Seen(items, SeenItem(it, seen))
  {
    var all := [it] + items;
    assert all[1..] == items && all[0] == it;
    FirstItem(all, post);
    hide LegalItem, SeenItem, SourceOf;
  }

  /** One character inside double quotes. */
  lemma InnerItem(s: string, end: char, seen: bool) returns (it: Item)
    requires s != "" && s[0] != '"' && s[0] != '$' && s[0] != '`'
    ensures LegalItem(it, true, end, seen, QuotedChar(s).1) && s == SourceOf(it) + QuotedChar(s).1 && SeenItem(it, seen) == seen
  {
    if s[0] == '\\' && At(s, 1) == '\n' {
      it := Joined;
      assert s == "\\\n" + s[2..];
    } else if s[0] == '\\' && IsEscapable(At(s, 1)) {
      it := Slashed(s[1]);
      assert s == ['\\', s[1]] + s[2..];
    } else {
      it := Plain(s[0]);
      assert s == [s[0]] + s[1..];
      assert s[1..] != "" ==> s[1..][0] == s[1];
    }
  }

  lemma NextInner(children: seq<Word>, buf: string, k: Option<Symbol>, s: string)
    requires s != "" && s[0] != '"' && s[0] != '$' && s[0] != '`'
    ensures DoubleLoop(children, buf, Cursor(k, s)) == DoubleLoop(children, buf + QuotedChar(s).0, Cursor(k, QuotedChar(s).1))
  {
    hide QuotedChar, Dollar, Pushed;
  }

  lemma NextParameter(children: seq<Word>, buf: string, k: Option<Symbol>, s: string)
    requires s != "" && s[0] == '$'
    ensures DoubleLoop(children, buf, Cursor(k, s)).Ok? ==> Dollar(Cursor(k, s)).Ok?
    ensures var r := Dollar(Cursor(k, s));
      r.Ok? ==> DoubleLoop(children, buf, Cursor(k, s)) == DoubleLoop(Pushed(children, buf) + [r.value], "", r.at)
  {
    hide QuotedChar, Dollar, Pushed;
  }

  lemma Closed(children: seq<Word>, buf: string, k: Option<Symbol>, s: string)
    requires s == "" || s[0] == '"' || s[0] == '`'
    requires DoubleLoop(children, buf, Cursor(k, s)).Ok?
    ensures s != "" && s[0] == '"' && DoubleLoop(children, buf, Cursor(k, s)) == Ok(Pushed(children, buf), Cursor(k, s[1..]))
  {
  }

  lemma NoItems(quoted: bool, end: char, seen: bool, post: string)
    ensures Legal([], quoted, end, seen, post) && Source([]) + post == post && Seen([], seen) == seen
  {
  }

  lemma ParameterItem(gap: string, name: string, quoted: bool, end: char, seen: bool, next: string)
    ensures var it := Parameter(gap, name);
      && (LegalItem(it, quoted, end, seen, next) <==> LegalParameter(gap, name, seen, next))
      && SourceOf(it) == "$" + (gap + name) && SeenItem(it, seen)
  {
    hide LegalParameter;
  }

  lemma {:induction false} DoubleReads(children: seq<Word>, buf: string, s: string, seen: bool, end: char) returns (items: seq<Item>)
    requires DoubleLoop(children, buf, Cursor(Known(seen), s)).Ok?
    ensures var at := DoubleLoop(children, buf, Cursor(Known(seen), s)).at;
      && Legal(items, true, end, seen, "\"" + at.rest)
      && s == Source(items) + ("\"" + at.rest)
      && at.symbol == Known(Seen(items, seen))
    decreases |s|
  {
    hide DoubleLoop, Known, Legal, LegalItem, LegalParameter, Seen, SeenItem, Source, SourceOf, QuotedChar, Pushed, Dollar;
    var post := "\"" + DoubleLoop(children, buf, Cursor(Known(seen), s)).at.rest;
    if s == "" || s[0] == '"' || s[0] == '`' {
      Closed(children, buf, Known(seen), s);
      items := [];
      NoItems(true, end, seen, post);
      assert s == "\"" + s[1..];
    } else if s[0] == '$' {
      NextParameter(children, buf, Known(seen), s);
      var gap, name := ParameterSource(s, seen);
      KnownNothing();
      var at := Dollar(Cursor(Known(seen), s)).at;
      var rest := DoubleReads(Pushed(children, buf) + [Param(name)], "", at.rest, true, end);
      ParameterItem(gap, name, true, end, seen, at.rest);
      items := [Parameter(gap, name)] + rest;
      Prepend(Parameter(gap, name), rest, true, end, seen, post);
    } else {
      NextInner(children, buf, Known(seen), s);
      var it := InnerItem(s, end, seen);
      var rest := DoubleReads(children, buf + QuotedChar(s).0, QuotedChar(s).1, seen, end);
      items := [it] + rest;
      Prepend(it, rest, true, end, seen, post);
    }
  }

  lemma {:induction false} SingleSource(buf: string, s: string) returns (text: string)
    requires SingleLoop(buf, s).Some?
    ensures SingleLoop(buf, s) == Some((buf + text, SingleLoop(buf, s).value.1))
    ensures s == text + ("'" + SingleLoop(buf, s).value.1) && '\'' !in text
    decreases s
  {
    if s[0] == '\'' {
      text := "";
      assert s == "'" + s[1..] && buf + "" == buf;
    } else {
      var rest := SingleSource(buf + [s[0]], s[1..]);
      text := [s[0]] + rest;
      assert s == [s[0]] + s[1..];
      assert buf + [s[0]] + rest == buf + text;
    }
  }

  /** The text from which a part is read. */
  ghost predicate IsPart(it: Item, s: string, seen: bool, end: char, at: Cursor) {
    LegalItem(it, false, end, seen, at.rest) && s == SourceOf(it) + at.rest && at.symbol == Known(SeenItem(it, seen))
  }

  lemma ParameterPartSource(s: string, seen: bool, end: char) returns (it: Item)
    requires s != "" && s[0] == '$' && Dollar(Cursor(Known(seen), s)).Ok?
    ensures IsPart(it, s, seen, end, Dollar(Cursor(Known(seen), s)).at)
  {
    hide Dollar, LegalParameter;
    var gap, name := ParameterSource(s, seen);
    it := Parameter(gap, name);
  }

  lemma SinglePartSource(s: string, seen: bool, end: char) returns (it: Item)
    requires s != "" && s[0] == '\'' && SingleQuotes(Cursor(Known(seen), s)).Ok?
    ensures IsPart(it, s, seen, end, SingleQuotes(Cursor(Known(seen), s)).at)
  {
    hide SingleLoop, Known;
    var text := SingleSource("", s[1..]);
    it := Single(text);
    var rest := SingleLoop("", s[1..]).value.1;
    assert s == "'" + s[1..];
    assert "'" + (text + ("'" + rest)) == "'" + (text + "'") + rest;
  }

  lemma DoublePartSource(s: string, seen: bool, end: char) returns (it: Item)
    requires s != "" && s[0] == '"' && DoubleQuotes(Cursor(Known(seen), s)).Ok?
    ensures IsPart(it, s, seen, end, DoubleQuotes(Cursor(Known(seen), s)).at)
  {
    hide DoubleLoop, Known, Legal, Seen, Source;
    var items := DoubleReads([], "", s[1..], seen, end);
    it := Double(items);
    assert s == "\"" + (Source(items) + ("\"" + DoubleLoop([], "", Cursor(Known(seen), s[1..])).at.rest));
  }

  lemma PartSource(s: string, seen: bool, end: char) returns (it: Item)
    requires s != "" && Part(Cursor(Known(seen), s)).Ok?
    ensures IsPart(it, s, seen, end, Part(Cursor(Known(seen), s)).at)
  {
    hide Dollar, SingleQuotes, DoubleQuotes, Known, IsPart;
    if s[0] == '$' {
      it := ParameterPartSource(s, seen, end);
    } else if s[0] == '\'' {
      it := SinglePartSource(s, seen, end);
    } else {
      it := DoublePartSource(s, seen, end);
    }
  }

  lemma OuterItem(s: string, end: char, seen: bool) returns (it: Item)
    requires s != "" && !EndsWord(s, end) && !StartsPart(s[0]) && !IsOperatorStart(s[0]) && !IsBlank(s[0]) && PlainChar(s).Some?
    ensures LegalItem(it, false, end, seen, PlainChar(s).value.1) && s == SourceOf(it) + PlainChar(s).value.1 && SeenItem(it, seen) == seen
  {
    if s[0] != '\\' {
      it := Plain(s[0]);
      assert s == [s[0]] + s[1..];
    } else if s[1] == '\n' {
      it := Joined;
      assert s == "\\\n" + s[2..];
    } else {
      it := Slashed(s[1]);
      assert s == ['\\', s[1]] + s[2..];
    }
  }

  lemma NextOuter(children: seq<Word>, buf: string, k: Option<Symbol>, s: string, end: char)
    requires !Terminates(s, end) && !StartsPart(s[0]) && WordLoop(children, buf, Cursor(k, s), end).Ok?
    ensures PlainChar(s).Some?
    ensures WordLoop(children, buf, Cursor(k, s), end)
      == WordLoop(children, buf + PlainChar(s).value.0, Cursor(k, PlainChar(s).value.1), end)
  {
    hide PlainChar, Part, Pushed;
  }

  lemma NextPart(children: seq<Word>, buf: string, k: Option<Symbol>, s: string, end: char)
    requires !Terminates(s, end) && StartsPart(s[0]) && WordLoop(children, buf, Cursor(k, s), end).Ok?
    ensures Part(Cursor(k, s)).Ok?
    ensures var r := Part(Cursor(k, s));
      WordLoop(children, buf, Cursor(k, s), end) == WordLoop(Pushed(children, buf) + [r.value], "", r.at, end)
  {
    hide PlainChar, Part, Pushed;
  }

  lemma {:induction false} WordReads(children: seq<Word>, buf: string, s: string, seen: bool, end: char) returns (items: seq<Item>)
    requires WordLoop(children, buf, Cursor(Known(seen), s), end).Ok?
    ensures var at := WordLoop(children, buf, Cursor(Known(seen), s), end).at;
      Legal(items, false, end, seen, at.rest) && s == Source(items) + at.rest && Terminates(at.rest, end)
    decreases |s|
  {
    var post := WordLoop(children, buf, Cursor(Known(seen), s), end).at.rest;
    if Terminates(s, end) {
      WordEnds(children, buf, Known(seen), s, end);
      hide WordLoop, Terminates;
      items := [];
      assert s == "" + s;
    } else if StartsPart(s[0]) {
      NextPart(children, buf, Known(seen), s, end);
      hide WordLoop, Pushed, Terminates, Legal, LegalItem, Seen, SeenItem, Source, SourceOf, Part, Known, StartsPart;
      var it := PartSource(s, seen, end);
      var part := Part(Cursor(Known(seen), s));
      var rest := WordReads(Pushed(children, buf) + [part.value], "", part.at.rest, SeenItem(it, seen), end);
      items := [it] + rest;
      Prepend(it, rest, false, end, seen, post);
    } else {
      NextOuter(children, buf, Known(seen), s, end);
      var it := OuterItem(s, end, seen);
      hide WordLoop, Known, Legal, LegalItem, Seen, SeenItem, Source, SourceOf, PlainChar, Terminates;
      var rest := WordReads(children, buf + PlainChar(s).value.0, PlainChar(s).value.1, seen, end);
      items := [it] + rest;
      Prepend(it, rest, false, end, seen, post);
    }
  }

  /** The text is blanks, a written word, and then `post`, which ends it. */
  ghost predicate IsWritten(s: string, gap: string, items: seq<Item>, post: string, end: char) {
    && s == gap + (Source(items) + post)
    && (forall c <- gap :: c == ' ' || c == '\t')
    && Begins(items) && Legal(items, false, end, false, post) && Terminates(post, end)
  }

  /** A word is read from a text if and only if it is written there, after blanks, up to what ends it. */
  lemma WordReadIff(s: string, w: Word, post: string, end: char)
    requires Closes(end)
    ensures ParseWord(Cursor(None, s), end) == Ok(w, Cursor(None, post))
      <==> exists gap, items :: IsWritten(s, gap, items, post, end) && w == Meaning(items)
  {
    if ParseWord(Cursor(None, s), end) == Ok(w, Cursor(None, post)) {
      var gap, items := ReadIsWritten(s, w, post, end);
    }
    forall gap, items | IsWritten(s, gap, items, post, end) && w == Meaning(items)
      ensures ParseWord(Cursor(None, s), end) == Ok(w, Cursor(None, post))
    {
      hide ParseWord, Meaning, Legal, Source, Begins, Terminates;
      WrittenWordParsesIff(items, post, end);
      BlanksBeforeWord(gap, Source(items) + post, end);
    }
  }

  lemma BlanksBeforeWord(gap: string, s: string, end: char)
    requires forall c <- gap :: c == ' ' || c == '\t'
    ensures ParseWord(Cursor(None, gap + s), end) == ParseWord(Cursor(None, s), end)
  {
    BlanksBeforeToken(gap, s);
    hide NextSymbol, WordLoop;
  }

  lemma ReadIsWritten(s: string, w: Word, post: string, end: char) returns (gap: string, items: seq<Item>)
    requires Closes(end) && ParseWord(Cursor(None, s), end) == Ok(w, Cursor(None, post))
    ensures IsWritten(s, gap, items, post, end) && w == Meaning(items)
  {
    var t := NextSymbol(s).1;
    gap := TokenGap(s);
    TokenStarts(s);
    assert WordLoop([], "", Cursor(Known(false), t), end).Ok? && WordLoop([], "", Cursor(Known(false), t), end).at.rest == post by {
      hide WordLoop, NextSymbol;
    }
    hide WordLoop, NextSymbol;
    items := WordReads([], "", t, false, end);
    BeginsHere(items, t, post, end);
    BlanksBeforeWord(gap, t, end);
    hide ParseWord, Legal, Source, Terminates, Begins, Meaning;
    WrittenWordParsesIff(items, post, end);
  }

  /** Where a token starts there is no blank, newline, operator or comment. */
  lemma {:induction false} TokenStarts(s: string)
    ensures var (kind, t) := NextSymbol(s); kind == Token ==> t != "" && t[0] != '\n' && !IsBlank(t[0]) && t[0] != '#'
    decreases |s|
  {
    hide OperatorAt, SkipComment;
    OperatorIsNoToken(s, 0);
    if s != "" && IsBlank(s[0]) {
      TokenStarts(s[1..]);
    } else if s != "" && s[0] == '#' {
      TokenStarts(SkipComment(s[1..]));
    }
  }

  lemma BeginsHere(items: seq<Item>, t: string, post: string, end: char)
    requires t == Source(items) + post && t != "" && t[0] != '\n' && t[0] != '#' && t[0] != ')' && t[0] != end
    requires !IsBlank(t[0]) && !IsOperatorStart(t[0]) && Terminates(post, end)
    ensures Begins(items)
  {
    assert "" + post == post;
    if items != [] {
      FirstItem(items, post);
      assert t[0] == SourceOf(items[0])[0];
    }
  }

  // -----------------------------------------------------------------------
  // Backslashes outside quotes.

  function Backslashes(v: string): string {
    if v == "" then "" else ['\\', v[0]] + Backslashes(v[1..])
  }

  function EachSlashed(v: string): seq<Item> {
    if v == "" then [] else [Slashed(v[0])] + EachSlashed(v[1..])
  }

  lemma {:induction false} SlashedMeans(pending: string, v: string, end: char, post: string)
    requires '\n' !in v
    ensures var items := EachSlashed(v);
      && Source(items) == Backslashes(v)
      && Children(pending, items) == Pend(pending + v)
      && Legal(items, false, end, false, post)
    decreases v
  {
    var items := EachSlashed(v);
    if v == "" {
      assert pending + v == pending;
    } else {
      assert v[0] in v && forall c <- v[1..] :: c in v;
      assert items[1..] == EachSlashed(v[1..]) && items[0] == Slashed(v[0]);
      SlashedMeans(pending + [v[0]], v[1..], end, post);
      Prepend(items[0], EachSlashed(v[1..]), false, end, false, post);
      assert pending + [v[0]] + v[1..] == pending + v;
    }
  }

  /**
   * A string with a backslash before each character is read as one word with that string as its
   * text, up to what ends a word, and only then.
   */
  lemma BackslashesParseIff(v: string, post: string, end: char)
    requires v != "" && '\n' !in v && Closes(end)
    ensures ParseWord(Cursor(None, Backslashes(v) + post), end) == Ok(Str(v, false, false), Cursor(None, post))
      <==> Terminates(post, end)
  {
    var items := EachSlashed(v);
    SlashedMeans("", v, end, post);
    assert "" + v == v;
    assert items[0] == Slashed(v[0]);
    hide ParseWord, Source, Children, Legal, Terminates;
    WrittenWordParsesIff(items, post, end);
  }

  /** A backslash before a newline adds nothing to the word, wherever it stands. */
  lemma {:induction false} JoinedAddsNothing(pending: string, before: seq<Item>, after: seq<Item>)
    ensures Children(pending, before + ([Joined] + after)) == Children(pending, before + after)
    decreases before
  {
    var all, rest := before + ([Joined] + after), before + after;
    if before == [] {
      assert all == [Joined] + after && rest == after && all[1..] == after;
    } else {
      assert all[0] == before[0] && all[1..] == before[1..] + ([Joined] + after);
      assert rest[0] == before[0] && rest[1..] == before[1..] + after;
      match before[0]
      case Plain(c) => JoinedAddsNothing(pending + [c], before[1..], after);
      case Slashed(c) => JoinedAddsNothing(pending + [c], before[1..], after);
      case Joined => JoinedAddsNothing(pending, before[1..], after);
      case _ => JoinedAddsNothing("", before[1..], after);
    }
  }
}

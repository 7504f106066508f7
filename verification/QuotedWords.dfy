/** What the word parser reads from a printed string, and from a string in double quotes. */
module QuotedWords {
  import opened Chars
  import opened Parsers
  import opened Words
  import opened WordGrammar
  import opened Quoting

  /** Text that ends a word: none, or a newline, a parenthesis, `end`, an operator or a blank. */
  predicate Terminates(post: string, end: char) {
    EndsWord(post, end) || (!StartsPart(post[0]) && (IsOperatorStart(post[0]) || IsBlank(post[0])))
  }

  /** A closing character that a printed string does not contain outside quotes. */
  predicate Apart(end: char) {
    !IsSafe(end) && end != '\'' && end != '"'
  }

  lemma WordEnds(children: seq<Word>, buf: string, k: Option<Symbol>, post: string, end: char)
    requires Terminates(post, end)
    ensures WordLoop(children, buf, Cursor(k, post), end) == Ok(Pushed(children, buf), Cursor(k, post))
  {
  }

  lemma SafeChar(children: seq<Word>, buf: string, c: char, k: Option<Symbol>, rest: string, end: char)
    requires IsSafe(c) && Apart(end)
    ensures WordLoop(children, buf, Cursor(k, [c] + rest), end) == WordLoop(children, buf + [c], Cursor(k, rest), end)
  {
    assert ([c] + rest)[1..] == rest;
  }

  lemma {:induction false} SafeRun(children: seq<Word>, buf: string, v: string, k: Option<Symbol>, post: string, end: char)
    requires AllSafe(v) && Apart(end)
    ensures WordLoop(children, buf, Cursor(k, v + post), end) == WordLoop(children, buf + v, Cursor(k, post), end)
    decreases v
  {
    hide WordLoop, IsSafe, Apart;
    if v == "" {
      assert v + post == post && buf + v == buf;
    } else {
      var rest := v[1..] + post;
      assert v + post == [v[0]] + rest;
      assert buf + [v[0]] + v[1..] == buf + v;
      SafeChar(children, buf, v[0], k, rest, end);
      SafeRun(children, buf + [v[0]], v[1..], k, post, end);
    }
  }

  /** A single quote in double quotes. */
  const QUOTE := List([Str("'", false, false)], true)

  /** The parts of a quoted string: what is between the quotes, and each quote. */
  function Parts(pending: string, v: string): seq<Word>
    decreases v
  {
    if v == "" then [Str(pending, true, false)]
    else if v[0] == '\'' then [Str(pending, true, false), QUOTE] + Parts("", v[1..])
    else Parts(pending + [v[0]], v[1..])
  }

  function QuotedParts(v: string): seq<Word> {
    if v != "" && AllSafe(v) then [Str(v, false, false)] else Parts("", v)
  }

  /** The word that a printed string is read as. */
  function QuotedWord(v: string): Word {
    OneOrList(QuotedParts(v))
  }

  /** The word loop, from inside single quotes on. */
  function InSingle(children: seq<Word>, pending: string, at: Cursor, end: char): Outcome<seq<Word>> {
    var text := SingleLoop(pending, at.rest);
    if text.None? then Null(Some(UNTERMINATED_SINGLE), Cursor(at.symbol, ""))
    else WordLoop(children + [Str(text.value.0, true, false)], "", Cursor(at.symbol, text.value.1), end)
  }

  lemma OpensSingle(children: seq<Word>, k: Option<Symbol>, s: string, end: char)
    requires Apart(end)
    ensures WordLoop(children, "", Cursor(k, "'" + s), end) == InSingle(children, "", Cursor(k, s), end)
  {
    assert ("'" + s)[1..] == s;
    hide SingleLoop;
  }

  /** `"'"` in the middle of a word. */
  lemma QuoteInDoubles(children: seq<Word>, k: Option<Symbol>, s: string, end: char)
    requires Apart(end)
    ensures WordLoop(children, "", Cursor(k, "\"'\"" + s), end) == WordLoop(children + [QUOTE], "", Cursor(k, s), end)
  {
    var t, u, x := "\"'\"" + s, "'\"" + s, "\"" + s;
    assert t[1..] == u && u[1..] == x && x[1..] == s;
    assert Pushed([], "'") == [Str("'", false, false)];
    assert DoubleLoop([], "'", Cursor(k, x)) == Ok([Str("'", false, false)], Cursor(k, s));
    assert QuotedChar(u) == ("'", x) && "" + "'" == "'";
    assert DoubleLoop([], "", Cursor(k, u)) == DoubleLoop([], "'", Cursor(k, x));
    assert DoubleQuotes(Cursor(k, t)) == Ok(QUOTE, Cursor(k, s));
    assert t[0] == '"';
    hide DoubleQuotes;
  }

  lemma {:induction false} SingleRun(children: seq<Word>, pending: string, v: string, k: Option<Symbol>, post: string, end: char)
    requires Apart(end)
    ensures InSingle(children, pending, Cursor(k, Escaped(v) + ("'" + post)), end)
      == WordLoop(children + Parts(pending, v), "", Cursor(k, post), end)
    decreases v
  {
    hide WordLoop;
    var tail := "'" + post;
    var s := Escaped(v) + tail;
    if v == "" {
      assert s == tail && s[1..] == post;
    } else if v[0] == '\'' {
      var rest := Escaped(v[1..]) + tail;
      assert s == "'" + ("\"'\"" + ("'" + rest));
      assert s[1..] == "\"'\"" + ("'" + rest);
      var before := children + [Str(pending, true, false)];
      QuoteInDoubles(before, k, "'" + rest, end);
      OpensSingle(before + [QUOTE], k, rest, end);
      SingleRun(before + [QUOTE], "", v[1..], k, post, end);
      assert before + [QUOTE] + Parts("", v[1..]) == children + Parts(pending, v);
    } else {
      assert s == [v[0]] + (Escaped(v[1..]) + tail) && s[1..] == Escaped(v[1..]) + tail;
      SingleRun(children, pending + [v[0]], v[1..], k, post, end);
    }
  }

  /** A printed string starts with a token, and not where a word may not start. */
  lemma QuotedIsToken(v: string, post: string, end: char)
    requires Apart(end)
    ensures var s := Quoted(v) + post;
      NextSymbol(s) == (Token, s) && !IsOperatorStart(s[0]) && s[0] != ')' && s[0] != end
  {
    var s := Quoted(v) + post;
    assert s[0] == Quoted(v)[0];
    hide OperatorAt, SkipComment;
  }

  /** A word goes on exactly where no terminator comes. */
  lemma StopsExactlyWhen(children: seq<Word>, buf: string, k: Option<Symbol>, post: string, end: char)
    ensures WordLoop(children, buf, Cursor(k, post), end) == Ok(Pushed(children, buf), Cursor(k, post))
      <==> Terminates(post, end)
    ensures var r := WordLoop(children, buf, Cursor(k, post), end);
      r.Ok? && !Terminates(post, end) ==> r.at.rest != post
  {
    hide Part, PlainChar, Pushed;
    if !Terminates(post, end) && StartsPart(post[0]) && Part(Cursor(k, post)).Ok? {
      var part := Part(Cursor(k, post));
      var next := WordLoop(Pushed(children, buf) + [part.value], "", part.at, end);
      assert WordLoop(children, buf, Cursor(k, post), end) == next;
    }
  }

  /** The word loop gets to the end of a printed string with its parts read. */
  lemma QuotedRun(v: string, k: Option<Symbol>, post: string, end: char) returns (children: seq<Word>, buf: string)
    requires Apart(end)
    ensures WordLoop([], "", Cursor(k, Quoted(v) + post), end) == WordLoop(children, buf, Cursor(k, post), end)
    ensures Pushed(children, buf) == QuotedParts(v)
  {
    hide WordLoop, AllSafe, Escaped, Parts;
    if v != "" && AllSafe(v) {
      children, buf := [], v;
      SafeRun([], "", v, k, post, end);
      assert "" + v == v;
    } else {
      var inner := Escaped(v) + ("'" + post);
      assert "'" + Escaped(v) + "'" + post == "'" + inner;
      OpensSingle([], k, inner, end);
      SingleRun([], "", v, k, post, end);
      children, buf := [] + Parts("", v), "";
      assert children == Parts("", v);
    }
  }

  /**
   * The word parser reads a printed string back and stops exactly at its end, whenever what
   * follows ends a word, and only then.
   */
  lemma QuotedParsesIff(v: string, post: string, end: char)
    requires Apart(end)
    ensures ParseWord(Cursor(None, Quoted(v) + post), end) == Ok(QuotedWord(v), Cursor(None, post))
      <==> Terminates(post, end)
  {
    QuotedIsToken(v, post, end);
    hide WordLoop, NextSymbol, QuotedParts, Pushed, Terminates;
    var children, buf := QuotedRun(v, Some(Token), post, end);
    StopsExactlyWhen(children, buf, Some(Token), post, end);
  }
}

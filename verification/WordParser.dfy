/**
 * The word parser (parser/word.c) on the shared character source: each method moves the cursor,
 * returns and reports an error exactly as the grammar says.
 */
module WordParser {
  import opened Chars
  import opened Parsers
  import opened Words
  import opened WordGrammar

  /** What a method of the parser returns: what it made, or a null pointer, or nothing at all. */
  datatype Return<+T> = Made(value: T) | NullPointer | Aborted | OutsideModel

  /** The error that is on record after another one may have been reported. */
  function FirstError(before: Option<string>, error: Option<string>): Option<string> {
    if before.Some? then before else error
  }

  /** The parser returned `r` and is where the grammar says. */
  ghost predicate Agrees<T>(p: Parser, r: Return<T>, o: Outcome<T>, before: Option<string>)
    reads p
  {
    match o
    case Ok(w, at) => r == Made(w) && Cursor(p.symbol, p.rest) == at && p.error == before
    case Null(error, from) => r == NullPointer && Cursor(p.symbol, p.rest) == from && p.error == FirstError(before, error)
    case Abort => r == Aborted
    case Unmodelled => r == OutsideModel
  }

  method SingleQuoteWord(p: Parser) returns (r: Return<Word>)
    requires p.Valid() && p.rest != "" && p.rest[0] == '\''
    modifies p.Repr()
    ensures p.Valid() && fresh(p.Repr() - old(p.Repr()))
    ensures Agrees(p, r, SingleQuotes(Cursor(old(p.symbol), old(p.rest))), old(p.error))
  {
    hide Parser.Valid, Parser.Buffered, PositionAfter;
    var _ := p.ReadChar();
    var buf := "";
    while true
      invariant p.Valid() && fresh(p.Repr() - old(p.Repr())) && p.symbol == old(p.symbol) && p.error == old(p.error)
      invariant SingleLoop(buf, p.rest) == SingleLoop("", old(p.rest)[1..])
      decreases |p.rest|
    {
      var c := p.PeekChar();
      if c == NUL {
        p.SetError(UNTERMINATED_SINGLE);
        return NullPointer;
      }
      if c == '\'' {
        var _ := p.ReadChar();
        break;
      }
      var _ := p.ReadChar();
      buf := buf + [c];
    }
    return Made(Str(buf, true, false));
  }

  method DollarWord(p: Parser) returns (r: Return<Word>)
    requires p.Valid() && p.rest != "" && p.rest[0] == '$'
    modifies p.Repr()
    ensures p.Valid() && fresh(p.Repr() - old(p.Repr()))
    ensures Agrees(p, r, Dollar(Cursor(old(p.symbol), old(p.rest))), old(p.error))
  {
    hide Parser.Valid, Parser.Buffered, PositionAfter, NextSymbol, NameLength;
    assert p.rest == "$" + p.rest[1..];
    var _ := p.ReadChar();
    var c := p.PeekChar();
    if c == '{' || c == '(' {
      return OutsideModel;
    }
    r := ParamWord(p, c);
  }

  /** The name or special parameter after the dollar sign. */
  method ParamWord(p: Parser, c: char) returns (r: Return<Word>)
    requires p.Valid() && c == At(p.rest, 0) && c != '{' && c != '('
    modifies p.Repr()
    ensures p.Valid() && fresh(p.Repr() - old(p.Repr()))
    ensures Agrees(p, r, Dollar(Cursor(old(p.symbol), "$" + old(p.rest))), old(p.error))
  {
    hide Parser.Valid, Parser.Buffered, PositionAfter, NextSymbol, NameLength;
    ghost var s := p.rest;
    assert ("$" + s)[1..] == s;
    var n := p.PeekName(false);
    TokenIsThere(s);
    if n == 0 {
      if IsSpecialParam(c) {
        n := 1;
      } else {
        p.SetError(INVALID_NAME);
        return NullPointer;
      }
    }
    var name := ReadToken(p, n);
    if name.None? {
      return NullPointer;
    }
    return Made(Param(name.value));
  }

  /** `read_token`: the token kind has to be looked up again after it. */
  method ReadToken(p: Parser, n: nat) returns (text: Option<string>)
    requires p.Valid()
    requires var (kind, s) := Settle(p.symbol, p.rest); kind == Token ==> n <= |s|
    modifies p.Repr()
    ensures p.Valid() && fresh(p.Repr() - old(p.Repr())) && p.error == old(p.error)
    ensures var (kind, s) := Settle(old(p.symbol), old(p.rest));
      if kind == Token then text == Some(s[..n]) && p.rest == s[n..] && p.symbol == None
      else text == None && p.rest == s && p.symbol == Some(kind)
  {
    hide Parser.Valid, Parser.Buffered, PositionAfter, NextSymbol;
    var isToken := p.IsSymbol(Token);
    if !isToken {
      return None;
    }
    var str := p.Read(n);
    p.ConsumeSymbol();
    return Some(str);
  }

  method ReadQuotedChar(p: Parser) returns (text: string)
    requires p.Valid() && p.rest != ""
    modifies p.Repr()
    ensures p.Valid() && fresh(p.Repr() - old(p.Repr())) && p.symbol == old(p.symbol) && p.error == old(p.error)
    ensures (text, p.rest) == QuotedChar(old(p.rest))
  {
    hide Parser.Valid, Parser.Buffered, PositionAfter;
    var c := p.PeekChar();
    if c == '\\' {
      var next := p.PeekAt(1);
      if IsEscapable(next) {
        var _ := p.ReadChar();
        c := next;
      }
      if next == '\n' {
        var _ := p.ReadChar();
        var _ := p.ReadChar();
        return "";
      }
    }
    var _ := p.ReadChar();
    return [c];
  }

  method DoubleQuoteWord(p: Parser) returns (r: Return<Word>)
    requires p.Valid() && p.rest != "" && p.rest[0] == '"'
    modifies p.Repr()
    ensures p.Valid() && fresh(p.Repr() - old(p.Repr()))
    ensures Agrees(p, r, DoubleQuotes(Cursor(old(p.symbol), old(p.rest))), old(p.error))
  {
    hide Parser.Valid, Parser.Buffered, PositionAfter, Dollar, QuotedChar, Pushed;
    var _ := p.ReadChar();
    var children: seq<Word>, buf := [], "";
    ghost var all := DoubleLoop([], "", Cursor(p.symbol, p.rest));
    while true
      invariant p.Valid() && fresh(p.Repr() - old(p.Repr())) && p.error == old(p.error)
      invariant DoubleLoop(children, buf, Cursor(p.symbol, p.rest)) == all
      decreases |p.rest|
    {
      var c := p.PeekChar();
      if c == NUL {
        p.SetError(UNTERMINATED_DOUBLE);
        return NullPointer;
      }
      if c == '"' {
        children := Pushed(children, buf);
        var _ := p.ReadChar();
        break;
      }
      if c == '$' {
        children := Pushed(children, buf);
        buf := "";
        var t := DollarWord(p);
        if !t.Made? {
          return t;
        }
        children := children + [t.value];
        continue;
      }
      if c == '`' {
        return OutsideModel;
      }
      var text := ReadQuotedChar(p);
      buf := buf + text;
    }
    return Made(List(children, true));
  }

  method ReadPart(p: Parser) returns (r: Return<Word>)
    requires p.Valid() && p.rest != ""
    modifies p.Repr()
    ensures p.Valid() && fresh(p.Repr() - old(p.Repr()))
    ensures Agrees(p, r, Part(Cursor(old(p.symbol), old(p.rest))), old(p.error))
  {
    hide Parser.Valid, Parser.Buffered, PositionAfter, Dollar, SingleQuotes, DoubleQuotes;
    var c := p.PeekChar();
    match c {
      case '$' => r := DollarWord(p);
      case '\'' => r := SingleQuoteWord(p);
      case '"' => r := DoubleQuoteWord(p);
      case _ => return OutsideModel;
    }
  }

  /** A character outside quotes; a backslash gives the next one, or none before a newline. */
  method ReadPlainChar(p: Parser) returns (text: Option<string>)
    requires p.Valid() && p.rest != ""
    modifies p.Repr()
    ensures p.Valid() && fresh(p.Repr() - old(p.Repr())) && p.symbol == old(p.symbol) && p.error == old(p.error)
    ensures var next := PlainChar(old(p.rest));
      if next.None? then text == None else text == Some(next.value.0) && p.rest == next.value.1
  {
    hide Parser.Valid, Parser.Buffered, PositionAfter;
    var c := p.PeekChar();
    if c == '\\' {
      var _ := p.ReadChar();
      c := p.PeekChar();
      if c == NUL {
        return None;
      }
      if c == '\n' {
        var _ := p.ReadChar();
        return Some("");
      }
    }
    var _ := p.ReadChar();
    return Some([c]);
  }

  /** The loop of `word`. */
  method ReadParts(p: Parser, end: char) returns (r: Return<seq<Word>>)
    requires p.Valid()
    modifies p.Repr()
    ensures p.Valid() && fresh(p.Repr() - old(p.Repr()))
    ensures Agrees(p, r, WordLoop([], "", Cursor(old(p.symbol), old(p.rest)), end), old(p.error))
  {
    hide Parser.Valid, Parser.Buffered, PositionAfter, Part, PlainChar, Pushed, IsOperatorStart, IsBlank, StartsPart;
    var children: seq<Word>, buf := [], "";
    ghost var all := WordLoop([], "", Cursor(p.symbol, p.rest), end);
    while true
      invariant p.Valid() && fresh(p.Repr() - old(p.Repr())) && p.error == old(p.error)
      invariant WordLoop(children, buf, Cursor(p.symbol, p.rest), end) == all
      decreases |p.rest|
    {
      var c := p.PeekChar();
      if c == NUL || c == '\n' || c == ')' || c == end {
        break;
      }
      if StartsPart(c) {
        children := Pushed(children, buf);
        buf := "";
        var t := ReadPart(p);
        match t {
          case Made(w) => children := children + [w];
          case NullPointer => return NullPointer;
          case Aborted => return Aborted;
          case OutsideModel => return OutsideModel;
        }
        continue;
      }
      if IsOperatorStart(c) || IsBlank(c) {
        break;
      }
      var text := ReadPlainChar(p);
      if text.None? {
        return Aborted;
      }
      buf := buf + text.value;
    }
    return Made(Pushed(children, buf));
  }

  /** `word` */
  method ReadWord(p: Parser, end: char) returns (r: Return<Word>)
    requires p.Valid()
    modifies p.Repr()
    ensures p.Valid() && fresh(p.Repr() - old(p.Repr()))
    ensures Agrees(p, r, ParseWord(Cursor(old(p.symbol), old(p.rest)), end), old(p.error))
  {
    hide Parser.Valid, Parser.Buffered, PositionAfter, NextSymbol, WordLoop, IsOperatorStart;
    var isToken := p.IsSymbol(Token);
    if !isToken {
      return NullPointer;
    }
    var first := p.PeekChar();
    if IsOperatorStart(first) || first == ')' || first == end {
      return NullPointer;
    }
    var parts := ReadParts(p, end);
    match parts {
      case Made(children) =>
        p.ConsumeSymbol();
        return Made(OneOrList(children));
      case NullPointer => return NullPointer;
      case Aborted => return Aborted;
      case OutsideModel => return OutsideModel;
    }
  }
}

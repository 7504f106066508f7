/** What the word parser (parser/word.c) makes of its input: quotes, `$name` and plain text. */
module WordGrammar {
  import opened Chars
  import opened Parsers
  import opened Words

  /** The state of the parser: the token kind it has looked up, if any, and the input left. */
  datatype Cursor = Cursor(symbol: Option<Symbol>, rest: string)

  /**
   * A value; a null pointer, with the error reported if there is one; an assertion that fails;
   * or an expansion outside this model (`${..}`, `$(..)` and back quotes).
   */
  datatype Outcome<T> =
    | Ok(value: T, at: Cursor)
    | Null(error: Option<string>, from: Cursor)
    | Abort
    | Unmodelled

  const UNTERMINATED_SINGLE := "single quotes not terminated"
  const UNTERMINATED_DOUBLE := "double quotes not terminated"
  const INVALID_NAME := "invalid parameter name"

  /** `push_buffer_word_string`: text read so far becomes a child, unless it is empty. */
  function Pushed(children: seq<Word>, buf: string): seq<Word> {
    if buf == "" then children else children + [Str(buf, false, false)]
  }

  /** The text up to the closing single quote, and what follows it. */
  function SingleLoop(buf: string, s: string): (r: Option<(string, string)>)
    ensures r.Some? ==> |r.value.1| < |s|
    decreases s
  {
    if s == "" then None
    else if s[0] == '\'' then Some((buf, s[1..]))
    else SingleLoop(buf + [s[0]], s[1..])
  }

  /** `single_quotes`, at the opening quote. */
  function SingleQuotes(at: Cursor): (r: Outcome<Word>)
    requires at.rest != ""
    ensures r.Ok? ==> |r.at.rest| < |at.rest|
  {
    var text := SingleLoop("", at.rest[1..]);
    if text.None? then Null(Some(UNTERMINATED_SINGLE), Cursor(at.symbol, ""))
    else Ok(Str(text.value.0, true, false), Cursor(at.symbol, text.value.1))
  }

  predicate IsSpecialParam(c: char) {
    c == '@' || c == '*' || c == '#' || c == '?' || c == '-' || c == '$' || c == '!' || IsDigit(c)
  }

  /** How many characters after the dollar sign name a parameter; `c` is the first of them. */
  function ParamLength(kind: Symbol, s: string, c: char): nat {
    var n := if kind == Token then NameLength(s, false) else 0;
    if n > 0 then n else if IsSpecialParam(c) then 1 else 0
  }

  lemma {:induction false} TokenIsThere(s: string)
    ensures NextSymbol(s).0 == Token ==> NextSymbol(s).1 != ""
    decreases |s|
  {
    hide OperatorAt, SkipComment;
    if s != "" && IsBlank(s[0]) {
      TokenIsThere(s[1..]);
    } else if s != "" && s[0] == '#' {
      TokenIsThere(SkipComment(s[1..]));
    }
    OperatorIsNoToken(s, 0);
  }

  lemma {:induction false} OperatorIsNoToken(s: string, k: nat)
    requires k <= |OPERATORS|
    ensures OperatorAt(s, k) != Some(Token)
    decreases |OPERATORS| - k
  {
    if k < |OPERATORS| {
      OperatorIsNoToken(s, k + 1);
    }
  }

  lemma {:induction false} CommentEnds(s: string)
    ensures var r := SkipComment(s); r == "" || r[0] == '\n'
  {
    if s != "" && s[0] != '\n' {
      CommentEnds(s[1..]);
    }
  }

  lemma CommentHidesToken(r: string)
    ensures r == "" || r[0] == '\n' ==> NextSymbol(r).0 != Token
  {
  }

  /**
   * `expect_dollar`, at the dollar sign. The name is a token of its own: its kind is looked up
   * unless that was done already, and afterwards no kind is known.
   */
  function Dollar(at: Cursor): (r: Outcome<Word>)
    requires at.rest != ""
    ensures r.Ok? ==> |r.at.rest| < |at.rest|
  {
    var s := at.rest[1..];
    var c := At(s, 0);
    if c == '{' || c == '(' then Unmodelled
    else
      var (kind, s') := Settle(at.symbol, s);
      var n := ParamLength(kind, s', c);
      if n == 0 then Null(Some(INVALID_NAME), Cursor(Some(kind), s'))
      else if kind != Token then Null(None, Cursor(Some(kind), s'))
      else
        TokenIsThere(s);
        Ok(Param(s'[..n]), Cursor(None, s'[n..]))
  }

  /** The characters that a backslash keeps from their meaning inside double quotes. */
  predicate IsEscapable(c: char) {
    c == '$' || c == '`' || c == '"' || c == '\\'
  }

  /** One character of the text inside double quotes, and the input after it. */
  function QuotedChar(s: string): (r: (string, string))
    requires s != ""
    ensures |r.1| < |s|
  {
    if s[0] == '\\' && At(s, 1) == '\n' then ("", s[2..])
    else if s[0] == '\\' && IsEscapable(At(s, 1)) then ([s[1]], s[2..])
    else ([s[0]], s[1..])
  }

  function DoubleLoop(children: seq<Word>, buf: string, at: Cursor): (r: Outcome<seq<Word>>)
    ensures r.Ok? ==> |r.at.rest| < |at.rest|
    decreases |at.rest|
  {
    var s := at.rest;
    if s == "" then Null(Some(UNTERMINATED_DOUBLE), at)
    else if s[0] == '"' then Ok(Pushed(children, buf), Cursor(at.symbol, s[1..]))
    else if s[0] == '$' then
      match Dollar(at)
      case Ok(w, at') => DoubleLoop(Pushed(children, buf) + [w], "", at')
      case Null(error, from) => Null(error, from)
      case Abort => Abort
      case Unmodelled => Unmodelled
    else if s[0] == '`' then Unmodelled
    else
      var (text, s') := QuotedChar(s);
      DoubleLoop(children, buf + text, Cursor(at.symbol, s'))
  }

  /** `double_quotes`, at the opening quote. */
  function DoubleQuotes(at: Cursor): (r: Outcome<Word>)
    requires at.rest != ""
    ensures r.Ok? ==> |r.at.rest| < |at.rest|
  {
    match DoubleLoop([], "", Cursor(at.symbol, at.rest[1..]))
    case Ok(children, at') => Ok(List(children, true), at')
    case Null(error, from) => Null(error, from)
    case Abort => Abort
    case Unmodelled => Unmodelled
  }

  /** One character outside quotes; None when a backslash is the last character of the input. */
  function PlainChar(s: string): (r: Option<(string, string)>)
    requires s != ""
    ensures r.Some? ==> |r.value.1| < |s|
  {
    if s[0] != '\\' then Some(([s[0]], s[1..]))
    else if |s| == 1 then None
    else Some((if s[1] == '\n' then "" else [s[1]], s[2..]))
  }

  /** Where a word ends whatever comes before. */
  predicate EndsWord(s: string, end: char) {
    s == "" || s[0] == '\n' || s[0] == ')' || s[0] == end
  }

  /** The part of a word that starts here, if it is not plain text. */
  function Part(at: Cursor): (r: Outcome<Word>)
    requires at.rest != ""
    ensures r.Ok? ==> |r.at.rest| < |at.rest|
  {
    var c := at.rest[0];
    if c == '$' then Dollar(at)
    else if c == '\'' then SingleQuotes(at)
    else if c == '"' then DoubleQuotes(at)
    else Unmodelled
  }

  predicate StartsPart(c: char) {
    c == '$' || c == '`' || c == '\'' || c == '"'
  }

  function WordLoop(children: seq<Word>, buf: string, at: Cursor, end: char): (r: Outcome<seq<Word>>)
    ensures r.Ok? ==> |r.at.rest| <= |at.rest|
    decreases |at.rest|
  {
    var s := at.rest;
    if EndsWord(s, end) then Ok(Pushed(children, buf), at)
    else if StartsPart(s[0]) then
      match Part(at)
      case Ok(w, at') => WordLoop(Pushed(children, buf) + [w], "", at', end)
      case Null(error, from) => Null(error, from)
      case Abort => Abort
      case Unmodelled => Unmodelled
    else if IsOperatorStart(s[0]) || IsBlank(s[0]) then Ok(Pushed(children, buf), at)
    else
      var next := PlainChar(s);
      if next.None? then Abort
      else WordLoop(children, buf + next.value.0, Cursor(at.symbol, next.value.1), end)
  }

  function OneOrList(children: seq<Word>): Word {
    if |children| == 1 then children[0] else List(children, false)
  }

  /** `word`: a null pointer without an error where no word starts. */
  function ParseWord(at: Cursor, end: char): Outcome<Word> {
    var (kind, s) := Settle(at.symbol, at.rest);
    var here := Cursor(Some(kind), s);
    var c := At(s, 0);
    if kind != Token || IsOperatorStart(c) || c == ')' || c == end then Null(None, here)
    else
      match WordLoop([], "", here, end)
      case Ok(children, at') => Ok(OneOrList(children), Cursor(None, at'.rest))
      case Null(error, from) => Null(error, from)
      case Abort => Abort
      case Unmodelled => Unmodelled
  }
}

/** From text to arguments: print or write a string, parse it, expand the word. */
module EndToEnd {
  import opened Chars
  import opened Words
  import opened FieldSplitting
  import opened FieldReference
  import opened Expansion
  import opened QuotedParams
  import opened WordExpansion
  import opened WordGrammar
  import opened Quoting
  import opened QuotedWords
  import ParameterArguments
  import Parsers
  import Patterns
  import WordLanguage
  import WordParser
  import WordRunner

  // -----------------------------------------------------------------------
  // Words that expansion leaves alone.

  /** No parameter, nothing to split, no tilde and no pattern character outside quotes. */
  predicate Inert(w: Word) {
    match w
    case Str(str, singleQuoted, splitFields) =>
      !splitFields && (singleQuoted || (!HasMetachar(str) && (str == "" || str[0] != '~')))
    case Param(_) => false
    case List(children, doubleQuoted) => if doubleQuoted then AllLiteral(children) else AllInert(children)
  }

  predicate AllInert(ws: seq<Word>) {
    ws == [] || (Inert(ws[0]) && AllInert(ws[1..]))
  }

  predicate AllLiteral(ws: seq<Word>) {
    ws == [] || (ws[0].Str? && !ws[0].splitFields && AllLiteral(ws[1..]))
  }

  lemma {:induction false} LiteralsStay(ws: seq<Word>, env: Env)
    requires AllLiteral(ws)
    ensures AllExpanded(ws) && !HasAt(ws) && CopyAll(ws) == ws && RunWords(ws, env, true) == Some(ws)
  {
    if ws != [] {
      LiteralsStay(ws[1..], env);
      assert ws == [ws[0]] + ws[1..];
      assert forall w <- ws :: w == ws[0] || w in ws[1..];
    }
  }

  lemma {:induction false} InertStays(w: Word, homes: map<string, string>, ifs: string, env: Env)
    requires Inert(w)
    ensures Expanded(w) && Copy(w) == w && NoTilde(w) && Quiet(w, ifs) && !NeedsPathnameExpansion(w)
    ensures RunWord(w, env, false) == Some(w)
    decreases w, 1
  {
    if w.List? {
      if w.doubleQuoted {
        LiteralsStay(w.children, env);
      } else {
        InertsStay(w.children, homes, ifs, env);
      }
    }
  }

  lemma {:induction false} InertsStay(ws: seq<Word>, homes: map<string, string>, ifs: string, env: Env)
    requires AllInert(ws)
    ensures AllExpanded(ws) && CopyAll(ws) == ws && RunWords(ws, env, false) == Some(ws)
    ensures forall w <- ws :: NoTilde(w) && Quiet(w, ifs) && !NeedsPathnameExpansion(w)
    decreases ws, 0
  {
    if ws != [] {
      InertStays(ws[0], homes, ifs, env);
      InertsStay(ws[1..], homes, ifs, env);
      assert ws == [ws[0]] + ws[1..];
    }
  }

  predicate AllKeep(atoms: seq<Atom>) {
    atoms == [] || (atoms[0].Keep? && AllKeep(atoms[1..]))
  }

  lemma {:induction false} AllKeepConcat(a: seq<Atom>, b: seq<Atom>)
    requires AllKeep(a) && AllKeep(b)
    ensures AllKeep(a + b)
  {
    if a == [] {
      assert a + b == b;
    } else {
      AllKeepConcat(a[1..], b);
      assert (a + b)[1..] == a[1..] + b;
    }
  }

  lemma {:induction false} InertFlattens(w: Word)
    requires Inert(w) && Expanded(w)
    ensures AllKeep(Flatten(w))
    decreases w, 1
  {
    if w.List? && !w.doubleQuoted {
      InertsFlatten(w.children);
    } else {
      assert Flatten(w)[1..] == [];
      assert AllKeep([]);
    }
  }

  lemma {:induction false} InertsFlatten(ws: seq<Word>)
    requires AllInert(ws) && AllExpanded(ws)
    ensures AllKeep(FlattenAll(ws))
    decreases ws, 0
  {
    if ws != [] {
      InertFlattens(ws[0]);
      InertsFlatten(ws[1..]);
      AllKeepConcat(Flatten(ws[0]), FlattenAll(ws[1..]));
    }
  }

  /** Texts that are kept whole make one field. */
  lemma {:induction false} KeepsMakeOneField(atoms: seq<Atom>, ifs: string, st: Scan)
    requires AllKeep(atoms)
    requires st.open && |st.texts| == 1
    ensures |ScanAll(atoms, ifs, st).texts| == 1
    decreases atoms
  {
    if atoms != [] {
      KeepsMakeOneField(atoms[1..], ifs, Step(atoms[0], ifs, st));
    }
  }

  lemma NothingKept(ifs: string)
    ensures Kept([], ifs) == ""
  {
  }

  lemma KeptFirst(a: seq<Atom>, ifs: string)
    requires a != []
    ensures Kept(a, ifs) == Kept([a[0]], ifs) + Kept(a[1..], ifs)
  {
    assert [a[0]][1..] == [];
  }

  lemma {:induction false} KeptConcat(a: seq<Atom>, b: seq<Atom>, ifs: string)
    ensures Kept(a + b, ifs) == Kept(a, ifs) + Kept(b, ifs)
  {
    hide Kept;
    if a == [] {
      assert a + b == b && "" + Kept(b, ifs) == Kept(b, ifs);
      NothingKept(ifs);
    } else {
      KeptConcat(a[1..], b, ifs);
      assert (a + b)[1..] == a[1..] + b && (a + b)[0] == a[0];
      KeptFirst(a, ifs);
      KeptFirst(a + b, ifs);
      var x := Kept([a[0]], ifs);
      assert x + (Kept(a[1..], ifs) + Kept(b, ifs)) == x + Kept(a[1..], ifs) + Kept(b, ifs);
    }
  }

  lemma {:induction false} InertIsKept(w: Word, ifs: string)
    requires Inert(w) && Expanded(w)
    ensures Kept(Flatten(w), ifs) == Text(w)
    decreases w, 1
  {
    if w.List? && !w.doubleQuoted {
      InertsAreKept(w.children, ifs);
    } else {
      assert Flatten(w)[1..] == [] && Kept([], ifs) == "";
      assert Text(w) + "" == Text(w);
    }
  }

  lemma {:induction false} InertsAreKept(ws: seq<Word>, ifs: string)
    requires AllInert(ws) && AllExpanded(ws)
    ensures Kept(FlattenAll(ws), ifs) == TextOf(ws)
    decreases ws, 0
  {
    if ws != [] {
      InertIsKept(ws[0], ifs);
      InertsAreKept(ws[1..], ifs);
      KeptConcat(Flatten(ws[0]), FlattenAll(ws[1..]), ifs);
    }
  }

  /** An inert word is one field, its text. */
  lemma InertIsOneField(w: Word, ifs: Option<string>)
    requires Inert(w) && Expanded(w) && Flatten(w) != [] && Copy(w) == w
    ensures FieldTexts(w, ifs) == [Text(w)]
  {
    if ifs != Some("") {
      var atoms, seps := Flatten(w), Separators(ifs);
      FieldTextsAreScan(w, ifs);
      InertFlattens(w);
      var first := Step(atoms[0], seps, SCAN_START);
      KeepsMakeOneField(atoms[1..], seps, first);
      var texts := ScanAll(atoms, seps, SCAN_START).texts;
      SplittingConservesText(w, ifs);
      InertIsKept(w, seps);
      assert texts[1..] == [] && texts[0] + "" == texts[0];
      assert texts == [texts[0]];
    }
  }

  lemma InertArgument(w: Word, env: Env, system: System)
    requires Inert(w) && Expanded(w) && Flatten(w) != []
    ensures ExpandFrom(w, env, system) == Some([Text(w)])
  {
    hide Inert, Flatten, Text, SplitWord;
    InertStays(w, system.homes, Separators(env.ifs), env);
    InertIsOneField(w, env.ifs);
    SplittingStaysExpanded(w, env.ifs);
    if env.ifs != Some("") {
      QuietWordFields(w, env.ifs, system.glob);
    } else {
      QuietPathnames([w], system.glob);
    }
  }

  /** An inert word expands to one argument, its text, with any IFS, home directories and files. */
  lemma InertExpands(w: Word, env: Env, system: System)
    requires Inert(w) && Expanded(w) && Flatten(w) != []
    ensures ExpandWord(w, env, system) == Some([Text(w)])
  {
    InertStays(w, system.homes, Separators(env.ifs), env);
    TildeLeavesAlone(w, system.homes, true, true);
    InertArgument(w, env, system);
  }

  lemma TwoStrings(a: Word, b: Word)
    requires a.Str? && b.Str? && Inert(a) && Inert(b)
    ensures var w := List([a, b], false);
      Inert(w) && Expanded(w) && Text(w) == a.str + b.str && Flatten(w) != []
  {
    var ws := [a, b];
    assert ws[1..] == [b] && [b][1..] == [];
    assert AllInert([]) && AllInert([b]) && AllInert(ws);
    assert TextOf([]) == "" && b.str + "" == b.str && TextOf([b]) == b.str;
    assert TextOf(ws) == Text(a) + TextOf([b]);
    assert FlattenAll(ws) == Flatten(a) + FlattenAll([b]);
  }

  /**
   * A tilde prefix becomes the home directory, whole: the directory is neither split nor taken
   * for a pattern, whatever characters it holds.
   */
  lemma TildeStaysWhole(s: string, env: Env, system: System)
    requires TildeAt(s, true, system.homes).Some?
    requires !HasMetachar(s[TildeAt(s, true, system.homes).value.1..])
    ensures var (dir, n) := TildeAt(s, true, system.homes).value;
      ExpandWord(Str(s, false, false), env, system) == Some([dir + s[n..]])
  {
    var (dir, n) := TildeAt(s, true, system.homes).value;
    NameEndsAtSlash(s, 1);
    var a, b := Str(dir, true, false), Str(s[n..], false, false);
    var w := List([a, b], false);
    assert ExpandTilde(Copy(Str(s, false, false)), system.homes, true, true) == w;
    TwoStrings(a, b);
    hide Inert, Flatten, Text, TildeAt, ExpandFrom;
    InertArgument(w, env, system);
  }

  lemma {:induction false} NameEndsAtSlash(s: string, i: nat)
    requires i <= |s|
    ensures var end := NameEnd(s, i); end.Some? && end.value < |s| ==> s[end.value] == '/'
    decreases |s| - i
  {
    if i < |s| && s[i] != '/' && IsLognameChar(s[i]) {
      NameEndsAtSlash(s, i + 1);
    }
  }

  // -----------------------------------------------------------------------
  // Printed strings.

  lemma {:induction false} SafeIsInert(v: string)
    requires AllSafe(v)
    ensures !HasMetachar(v) && (v == "" || v[0] != '~')
  {
    if v != "" {
      SafeIsInert(v[1..]);
      assert v == [v[0]] + v[1..];
    }
  }

  lemma {:induction false} PartsAreInert(pending: string, v: string)
    ensures var ws := Parts(pending, v);
      ws != [] && AllInert(ws) && AllExpanded(ws) && TextOf(ws) == pending + v && FlattenAll(ws) != []
    decreases v
  {
    var first := Str(pending, true, false);
    var ws := Parts(pending, v);
    assert Text(first) == pending && Flatten(first) == [Keep(pending, false)];
    if v == "" {
      assert ws[1..] == [];
      assert AllInert([]) && TextOf([]) == "" && FlattenAll([]) == [];
    } else if v[0] == '\'' {
      PartsAreInert("", v[1..]);
      var rest := Parts("", v[1..]);
      assert ws[1..] == [QUOTE] + rest && ([QUOTE] + rest)[1..] == rest;
      QuoteIsInert();
      assert AllInert([QUOTE] + rest);
      assert ws == [first] + ([QUOTE] + rest);
      assert TextOf(ws) == pending + ("'" + ("" + v[1..]));
      assert pending + v == pending + ("'" + ("" + v[1..]));
    } else {
      PartsAreInert(pending + [v[0]], v[1..]);
      assert pending + [v[0]] + v[1..] == pending + v;
    }
  }

  lemma QuoteIsInert()
    ensures Inert(QUOTE) && Expanded(QUOTE) && Text(QUOTE) == "'"
  {
    var q := Str("'", false, false);
    assert QUOTE.children[1..] == [] && AllLiteral([]) && TextOf([]) == "";
    assert Text(q) + "" == "'";
  }

  lemma QuotedIsInert(v: string)
    ensures var w := QuotedWord(v); Inert(w) && Expanded(w) && Flatten(w) != [] && Text(w) == v
  {
    if v != "" && AllSafe(v) {
      SafeIsInert(v);
    } else {
      PartsAreInert("", v);
      assert "" + v == v;
      var ws := Parts("", v);
      if |ws| == 1 {
        assert TextOf(ws[1..]) == "" && FlattenAll(ws[1..]) == [];
        assert Text(ws[0]) + "" == Text(ws[0]);
      }
    }
  }

  /**
   * A printed string is read as one word, up to its end, and that word expands to the one
   * argument it was printed from, under any IFS, with no tilde, splitting or pathname effect.
   */
  lemma PrintedStringComesBack(v: string, post: string, end: char, env: Env, system: System)
    requires Apart(end) && Terminates(post, end)
    ensures var r := ParseWord(Cursor(None, Quoted(v) + post), end);
      r.Ok? && r.at == Cursor(None, post) && ExpandWord(r.value, env, system) == Some([v])
  {
    QuotedParsesIff(v, post, end);
    QuotedIsInert(v);
    InertExpands(QuotedWord(v), env, system);
  }

  lemma {:induction false} EscapedIsNulFree(v: string)
    requires NulFree(v)
    ensures NulFree(Escaped(v))
  {
    if v != "" {
      assert NulFree(v[1..]) && v[0] in v;
      EscapedIsNulFree(v[1..]);
    }
  }

  lemma QuotedIsNulFree(v: string, post: string)
    requires NulFree(v) && NulFree(post)
    ensures NulFree(Quoted(v) + post)
  {
    hide AllSafe, Escaped;
    EscapedIsNulFree(v);
  }

  /** The operations in sequence: print a value, parse what was printed, expand the word. */
  method PrintParseExpand(value: string, post: string, env: Env, system: System) returns (args: Option<seq<string>>)
    requires NulFree(value) && NulFree(post) && Terminates(post, NUL)
    ensures args == Some([value])
  {
    var text := PrintEscaped(value);
    QuotedIsNulFree(value, post);
    PrintedStringComesBack(value, post, NUL, env, system);
    hide Quoted, ParseWord, WordExpansion.ExpandWord, Parsers.Parser.Buffered;
    var p := new Parsers.Parser.WithData(text + post);
    var r := WordParser.ReadWord(p, NUL);
    assert p.rest == post;
    args := WordRunner.ExpandWord(r.value, env, system);
  }

  // -----------------------------------------------------------------------
  // Text in double quotes.

  /** Text for the inside of double quotes: a backslash before each character that needs one. */
  function Backslashed(v: string): string {
    if v == "" then "" else BackslashedChar(v[0]) + Backslashed(v[1..])
  }

  function BackslashedChar(c: char): (s: string)
    ensures s != ""
  {
    if IsEscapable(c) then ['\\', c] else [c]
  }

  lemma CharComesBack(c: char, rest: string)
    ensures var s := BackslashedChar(c) + rest;
      QuotedChar(s) == ([c], rest) && s[0] != '"' && s[0] != '$' && s[0] != '`'
  {
    var s := BackslashedChar(c) + rest;
    if IsEscapable(c) {
      assert s[0] == '\\' && s[1] == c && s[2..] == rest;
    } else {
      assert s[0] == c && s[1..] == rest;
    }
  }

  lemma {:induction false} BackslashedRun(children: seq<Word>, buf: string, v: string, k: Option<Parsers.Symbol>, tail: string)
    ensures DoubleLoop(children, buf, Cursor(k, Backslashed(v) + tail)) == DoubleLoop(children, buf + v, Cursor(k, tail))
    decreases v
  {
    hide QuotedChar, BackslashedChar, Dollar, Pushed;
    var s := Backslashed(v) + tail;
    if v == "" {
      assert s == tail && buf + v == buf;
    } else {
      var rest := Backslashed(v[1..]) + tail;
      assert s == BackslashedChar(v[0]) + rest;
      CharComesBack(v[0], rest);
      BackslashedRun(children, buf + [v[0]], v[1..], k, tail);
      assert buf + [v[0]] + v[1..] == buf + v;
    }
  }

  /** A word that is one string in double quotes. */
  lemma DoublesMakeWord(children: seq<Word>, inner: string, at: Cursor, end: char)
    requires Apart(end) && Terminates(at.rest, end)
    requires DoubleLoop([], "", Cursor(Some(Parsers.Token), inner)) == Ok(children, at)
    ensures ParseWord(Cursor(None, "\"" + inner), end) == Ok(List(children, true), Cursor(None, at.rest))
  {
    var s := "\"" + inner;
    assert s[1..] == inner;
    assert Parsers.NextSymbol(s) == (Parsers.Token, s);
    hide DoubleLoop, Parsers.NextSymbol, Pushed, Terminates;
    var here := Cursor(Some(Parsers.Token), s);
    var w := List(children, true);
    assert Part(here) == Ok(w, at);
    WordEnds([w], "", at.symbol, at.rest, end);
    assert Pushed([], "") == [] && Pushed([w], "") == [w] by { NothingPushed([]); NothingPushed([w]); }
    assert [] + [w] == [w];
    assert WordLoop([], "", here, end) == WordLoop([w], "", at, end);
  }

  lemma NothingPushed(children: seq<Word>)
    ensures Pushed(children, "") == children
  {
  }

  /** A string in double quotes is read as one word that expands to that string. */
  lemma DoubleQuotedComesBack(v: string, post: string, end: char, env: Env, system: System)
    requires Apart(end) && Terminates(post, end)
    ensures var r := ParseWord(Cursor(None, "\"" + (Backslashed(v) + ("\"" + post))), end);
      r.Ok? && r.at == Cursor(None, post) && ExpandWord(r.value, env, system) == Some([v])
  {
    var k := Some(Parsers.Token);
    var children := Pushed([], v);
    QuotedTextParses(v, k, post);
    OneString(v);
    hide ParseWord, Inert, Pushed, Backslashed, DoubleLoop, ExpandWord, Text;
    DoublesMakeWord(children, Backslashed(v) + ("\"" + post), Cursor(k, post), end);
    InertExpands(List(children, true), env, system);
  }

  lemma QuotedTextParses(v: string, k: Option<Parsers.Symbol>, post: string)
    ensures DoubleLoop([], "", Cursor(k, Backslashed(v) + ("\"" + post))) == Ok(Pushed([], v), Cursor(k, post))
  {
    hide Dollar, QuotedChar, Backslashed, Pushed;
    var tail := "\"" + post;
    BackslashedRun([], "", v, k, tail);
    assert "" + v == v && tail[1..] == post;
    assert DoubleLoop([], v, Cursor(k, tail)) == Ok(Pushed([], v), Cursor(k, post));
  }

  /** A string in double quotes, as a word. */
  lemma OneString(v: string)
    ensures var w := List(Pushed([], v), true); Inert(w) && Expanded(w) && Text(w) == v && Flatten(w) != []
  {
    if v != "" {
      var c := Str(v, false, false);
      var w := List([c], true);
      assert Pushed([], v) == [c] && [c][1..] == [] && TextOf([]) == "" && AllLiteral([]);
      assert v + "" == v && Text(c) == v;
      assert Text(w) == TextOf([c]) && TextOf([c]) == v;
    }
  }

  /** Right after its token was looked up, a special parameter is one character long. */
  lemma SpecialDollar(c: char, s: string)
    requires c == '@' || c == '*'
    ensures Dollar(Cursor(Some(Parsers.Token), ['$', c] + s)) == Ok(Param([c]), Cursor(None, s))
  {
    var t := ['$', c] + s;
    assert t[1..] == [c] + s && ([c] + s)[..1] == [c] && ([c] + s)[1..] == s;
  }

  /** The parts of `"pre$cpost"`. */
  lemma AroundParses(pre: string, c: char, post: string, after: string)
    requires c == '@' || c == '*'
    ensures DoubleLoop([], "", Cursor(Some(Parsers.Token), Backslashed(pre) + (['$', c] + (Backslashed(post) + ("\"" + after)))))
      == Ok(Around(pre, Param([c]), post), Cursor(None, after))
  {
    hide Dollar, Backslashed, QuotedChar;
    var last := "\"" + after;
    var x := Backslashed(post) + last;
    var k := Some(Parsers.Token);
    var w := Param([c]);
    BackslashedRun([], "", pre, k, ['$', c] + x);
    assert "" + pre == pre && "" + post == post;
    SpecialDollar(c, x);
    var children := Pushed([], pre) + [w];
    assert DoubleLoop([], pre, Cursor(k, ['$', c] + x)) == DoubleLoop(children, "", Cursor(None, x));
    BackslashedRun(children, "", post, None, last);
    assert last[1..] == after;
    assert DoubleLoop(children, post, Cursor(None, last)) == Ok(Pushed(children, post), Cursor(None, after));
    assert Pushed(children, post) == Around(pre, w, post);
  }

  /** What stands for all positional parameters in the one argument of `"pre$*post"`. */
  function AllJoined(args: seq<string>, ifs: Option<string>): string {
    match ifs
    case None => JoinArgs(args, " ")
    case Some(chars) => if chars == "" then JoinArgs(args, "") else JoinArgs(args, [chars[0]])
  }

  /**
   * From the text `"pre$@post"` or `"pre$*post"` to the arguments (section 2.5.2 of POSIX.1-2017
   * XCU), whatever the IFS: one per positional parameter, or all of them joined, as also `$@` is
   * if IFS is empty.
   */
  lemma PositionalParamsEndToEnd(pre: string, c: char, post: string, after: string, end: char, env: Env, system: System)
    requires c == '@' || c == '*'
    requires Apart(end) && Terminates(after, end)
    ensures var text := "\"" + (Backslashed(pre) + (['$', c] + (Backslashed(post) + ("\"" + after))));
      var r := ParseWord(Cursor(None, text), end);
      r.Ok? && r.at == Cursor(None, after)
      && ExpandWord(r.value, env, system)
        == Some(if c == '@' && env.ifs != Some("") then Surround(pre, env.args, post)
                else [pre + AllJoined(env.args, env.ifs) + post])
  {
    var inner := Backslashed(pre) + (['$', c] + (Backslashed(post) + ("\"" + after)));
    var children := Around(pre, Param([c]), post);
    AroundParses(pre, c, post, after);
    DoublesMakeWord(children, inner, Cursor(None, after), end);
    hide ParseWord, DoubleLoop, Backslashed, ExpandWord;
    if c == '@' {
      AtSignArguments(pre, post, env, system);
    } else {
      StarArguments(pre, post, env, system);
    }
  }

  lemma StarArguments(pre: string, post: string, env: Env, system: System)
    ensures ExpandWord(List(Around(pre, Param(STAR), post), true), env, system)
      == Some([pre + AllJoined(env.args, env.ifs) + post])
  {
    FirstOfIfs(env.ifs);
    assert JoinArgs(env.args, Joiner(env.ifs)) == AllJoined(env.args, env.ifs);
    CopiesAround(pre, post);
    assert RunWord(Param(STAR), env, true).Some?;
    OneInTheMiddle(pre, JoinArgs(env.args, Joiner(env.ifs)), post);
    hide ExpandWord, RunWord, QuotedFields, Surround, Around, PlainTexts, JoinArgs;
    AroundMeans(pre, Param(STAR), post, env);
    DoubleQuotedArguments(Around(pre, Param(STAR), post), env, system);
  }

  lemma CopiesAround(pre: string, post: string)
    ensures var children := Around(pre, Param(STAR), post);
      children != [] && Copy(List(children, true)) == List(children, true)
  {
    var children := Around(pre, Param(STAR), post);
    assert CopyAll(children) == children;
  }

  lemma OneInTheMiddle(pre: string, text: string, post: string)
    ensures Surround(pre, [text], post) == [pre + text + post]
  {
  }

  // -----------------------------------------------------------------------
  // Text outside quotes.

  /** A text as tilde expansion leaves it: a directory, which is quoted, and what follows it. */
  function TildeParts(v: string, homes: map<string, string>): (string, string) {
    var t := TildeAt(v, true, homes);
    if t.None? then ("", v) else (t.value.0, v[t.value.1..])
  }

  /** What `glob` says of a directory and an unquoted text after it; nothing if it is not asked. */
  function AskedAfter(dir: string, rest: string, system: System): Option<GlobResult> {
    if !system.noGlob && exists c <- rest :: Patterns.IsPatternChar(c)
    then Some(system.glob(Patterns.Escaped(Patterns.MarksOf(dir, true)) + rest))
    else None
  }

  /** The arguments of a text outside quotes without parameters. */
  function TextArguments(v: string, system: System): Option<seq<string>> {
    var (dir, rest) := TildeParts(v, system.homes);
    match AskedAfter(dir, rest, system)
    case Some(Matches(paths)) => Some(paths)
    case Some(GlobError) => None
    case _ => Some([dir + rest])
  }

  lemma FieldOfStrings(w: Word, ifs: Option<string>)
    requires if w.Str? then !w.splitFields
      else w.List? && !w.doubleQuoted && |w.children| == 2 && forall c <- w.children :: c.Str? && !c.splitFields
    requires Expanded(w)
    ensures AllExpanded(SplitFields(w, ifs)) && |SplitFields(w, ifs)| == 1
    ensures Patterns.Marks(SplitFields(w, ifs)[0], false) == Patterns.Marks(w, false)
  {
    SplittingStaysExpanded(w, ifs);
    if w.Str? {
      assert Copy(w) == w;
      OneChild(w);
      assert START.fields + [[w]] == [[w]];
    } else {
      var a, b := w.children[0], w.children[1];
      assert w.children == [a, b];
      hide Patterns.Marks;
      CopyOfStrings(a, b);
      SplitStrings(a, b, Separators(ifs));
      assert w == List([a, b], false);
    }
  }

  lemma CopyOfStrings(a: Word, b: Word)
    requires a.Str? && !a.splitFields && b.Str? && !b.splitFields
    ensures Copy(List([a, b], false)) == List([a, b], false)
  {
    var ws := [a, b];
    assert ws[1..] == [b] && [b][1..] == [];
    assert CopyAll([b]) == [b] + CopyAll([]) && CopyAll(ws) == [a] + CopyAll([b]);
  }

  lemma SplitStrings(a: Word, b: Word, ifs: string)
    requires a.Str? && !a.splitFields && b.Str? && !b.splitFields
    ensures Expanded(List([a, b], false)) && SplitWord(List([a, b], false), ifs, START).fields == [[a, b]]
  {
    var ws := [a, b];
    assert ws[1..] == [b] && [b][1..] == [];
    var st := AddWord(START, a).(inIfs := false, inNonSpace := false);
    assert st.fields == [[a]];
    var st' := AddWord(st, b).(inIfs := false, inNonSpace := false);
    assert [a] + [b] == ws;
    assert [[a]][0 := [a] + [b]] == [ws] && st'.fields == [ws];
    assert SplitWord(a, ifs, START) == st && SplitWord(b, ifs, st) == st';
    assert SplitWords([b], ifs, st) == SplitWords([], ifs, st') == st';
    assert SplitWords(ws, ifs, START) == SplitWords([b], ifs, st);
  }

  lemma OneChild(w: Word)
    requires Expanded(w)
    ensures Patterns.Marks(List([w], false), false) == Patterns.Marks(w, false)
  {
    var ws := [w];
    assert ws[1..] == [] && ws[0] == w;
    assert Patterns.AllMarks(ws[1..], false) == [];
    assert Patterns.AllMarks(ws, false) == Patterns.Marks(w, false) + [];
    assert Patterns.Marks(List(ws, false), false) == Patterns.AllMarks(ws, false);
  }

  lemma TildeMarks(v: string, homes: map<string, string>)
    ensures var w := ExpandTilde(Str(v, false, false), homes, true, true);
      var (dir, rest) := TildeParts(v, homes);
      Expanded(w) && Patterns.Marks(w, false) == Patterns.MarksOf(dir, true) + Patterns.MarksOf(rest, false)
  {
    var w := ExpandTilde(Str(v, false, false), homes, true, true);
    var (dir, rest) := TildeParts(v, homes);
    if TildeAt(v, true, homes).None? {
      assert [] + Patterns.MarksOf(v, false) == Patterns.MarksOf(v, false);
    } else {
      var a, b := Str(dir, true, false), Str(rest, false, false);
      var ws := [a, b];
      assert w == List(ws, false) && ws[1..] == [b] && [b][1..] == [];
      assert Expanded(a) && Expanded(b) && AllExpanded(ws) && Expanded(w);
      assert Patterns.Marks(a, false) == Patterns.MarksOf(dir, true) && Patterns.Marks(b, false) == Patterns.MarksOf(rest, false);
      hide Patterns.MarksOf;
      assert Patterns.AllMarks([b], false) == Patterns.Marks(b, false) + [];
      assert Patterns.Marks(w, false) == Patterns.AllMarks(ws, false) == Patterns.Marks(a, false) + Patterns.AllMarks([b], false);
    }
  }

  lemma MarkedAfter(dir: string, rest: string, system: System)
    ensures var marks := Patterns.MarksOf(dir, true) + Patterns.MarksOf(rest, false);
      Patterns.Asked(marks, system) == AskedAfter(dir, rest, system) && Patterns.Characters(marks) == dir + rest
  {
    var a, b := Patterns.MarksOf(dir, true), Patterns.MarksOf(rest, false);
    Patterns.StringMarks(dir, true);
    Patterns.StringMarks(rest, false);
    Patterns.EscapedConcat(a, b);
    Patterns.CharactersConcat(a, b);
    QuotedMarks(dir);
    ParameterArguments.SomeMark(rest);
    hide Patterns.MarksOf, Patterns.Escaped, Patterns.Characters, EscapeMetachars;
    assert forall m :: m in a + b <==> m in a || m in b;
  }

  lemma {:induction false} QuotedMarks(s: string)
    ensures forall m <- Patterns.MarksOf(s, true) :: m.quoted
  {
    if s != "" {
      QuotedMarks(s[1..]);
    }
  }

  /**
   * A text outside quotes, as a word: a tilde prefix becomes its directory, and if what follows
   * holds a pattern character, `glob` decides.
   */
  lemma PlainTextArguments(v: string, env: Env, system: System)
    ensures ExpandWord(Str(v, false, false), env, system) == TextArguments(v, system)
  {
    var (dir, rest) := TildeParts(v, system.homes);
    var f := PlainTextField(v, env, system.homes);
    assert Copy(Str(v, false, false)) == Str(v, false, false);
    hide ExpandTilde, RunWord, SplitFields, ArgumentsOf, TildeParts, AskedAfter, Patterns.Asked, Patterns.Marks, Patterns.MarksOf,
      Patterns.Characters, Patterns.Flat, Patterns.OwnOfEach, Patterns.SomeGlobFails;
    assert ExpandWord(Str(v, false, false), env, system) == ArgumentsOf([f], system);
    Patterns.PathnamesAre([f], system);
    OneField([f], system);
    MarkedAfter(dir, rest, system);
  }

  lemma PlainTextField(v: string, env: Env, homes: map<string, string>) returns (f: Word)
    ensures var w := ExpandTilde(Str(v, false, false), homes, true, true);
      Expanded(w) && RunWord(w, env, false) == Some(w) && SplitFields(w, env.ifs) == [f] && Expanded(f)
    ensures var (dir, rest) := TildeParts(v, homes);
      Patterns.Marks(f, false) == Patterns.MarksOf(dir, true) + Patterns.MarksOf(rest, false)
  {
    var w := ExpandTilde(Str(v, false, false), homes, true, true);
    TildeMarks(v, homes);
    WordRunner.RunExpanded(w, env, false);
    FieldOfStrings(w, env.ifs);
    hide ExpandTilde, RunWord, SplitFields, TildeParts, Patterns.Marks, Patterns.MarksOf;
    f := SplitFields(w, env.ifs)[0];
  }

  lemma OneField(fields: seq<Word>, system: System)
    requires AllExpanded(fields) && |fields| == 1
    ensures Patterns.Flat(Patterns.OwnOfEach(fields, system)) == Patterns.Own(fields[0], system)
    ensures Patterns.SomeGlobFails(fields, system) <==> Patterns.Asked(Patterns.Marks(fields[0], false), system) == Some(GlobError)
  {
    hide Patterns.Own, Patterns.Asked, Patterns.Marks;
    var own := Patterns.Own(fields[0], system);
    assert Patterns.OwnOfEach(fields, system) == [own] && [own][1..] == [] && own + [] == own;
    assert fields[0] in fields && forall f <- fields :: f == fields[0];
  }

  /**
   * A string with a backslash before each character comes back exactly if `glob` is not asked, or
   * finds nothing, and a tilde prefix stands for itself, or if the string is the one path found.
   */
  lemma BackslashesComeBackIff(v: string, post: string, end: char, env: Env, system: System)
    requires v != "" && '\n' !in v && WordLanguage.Closes(end) && Terminates(post, end)
    ensures var r := ParseWord(Cursor(None, WordLanguage.Backslashes(v) + post), end);
      r == Ok(Str(v, false, false), Cursor(None, post))
    ensures var (dir, rest) := TildeParts(v, system.homes);
      var asked := AskedAfter(dir, rest, system);
      ExpandWord(Str(v, false, false), env, system) == Some([v]) <==>
        asked == Some(Matches([v])) || ((asked == None || asked == Some(NoMatch)) && dir + rest == v)
  {
    WordLanguage.BackslashesParseIff(v, post, end);
    PlainTextArguments(v, env, system);
    hide ParseWord, ExpandWord, TildeParts, AskedAfter;
  }

  /** `\*` is the pattern `*`: it becomes the paths found. */
  lemma BackslashedStarIsPattern(post: string, end: char, env: Env, system: System)
    requires WordLanguage.Closes(end) && Terminates(post, end)
    requires !system.noGlob && system.glob("*").Matches?
    ensures var r := ParseWord(Cursor(None, "\\*" + post), end);
      r.Ok? && ExpandWord(r.value, env, system) == Some(system.glob("*").paths)
  {
    OneBackslash('*');
    WordLanguage.BackslashesParseIff("*", post, end);
    PlainTextArguments("*", env, system);
    hide ParseWord, ExpandWord;
    assert "*"[0] == '*' && '*' in "*";
    assert Patterns.MarksOf("", true) == [] && Patterns.Escaped([]) == "" && "" + "*" == "*";
  }

  /** `\~` is the home directory. */
  lemma BackslashedTildeIsHome(post: string, end: char, env: Env, system: System)
    requires WordLanguage.Closes(end) && Terminates(post, end) && "" in system.homes
    ensures var r := ParseWord(Cursor(None, "\\~" + post), end);
      r.Ok? && ExpandWord(r.value, env, system) == Some([system.homes[""]])
  {
    OneBackslash('~');
    WordLanguage.BackslashesParseIff("~", post, end);
    PlainTextArguments("~", env, system);
    hide ParseWord, ExpandWord;
    var dir := system.homes[""];
    assert "~"[1..1] == "" && "~"[1..] == "" && NameEnd("~", 1) == Some(1);
    assert TildeParts("~", system.homes) == (dir, "") && dir + "" == dir;
  }

  lemma OneBackslash(c: char)
    ensures WordLanguage.Backslashes([c]) == ['\\', c]
  {
    assert [c][1..] == "";
  }

  // -----------------------------------------------------------------------
  // A parameter after a parameter.

  /** The word or the error, without where the parser is left. */
  function Result(o: Outcome<Word>): (Option<Word>, Option<string>) {
    match o
    case Ok(w, _) => (Some(w), None)
    case Null(error, _) => (None, error)
    case Abort => (None, None)
    case Unmodelled => (None, None)
  }

  function SkipBlanks(s: string): (r: string)
    ensures |r| <= |s|
  {
    if s != "" && IsBlank(s[0]) then SkipBlanks(s[1..]) else s
  }

  /** Does a name start here? */
  predicate StartsName(s: string) {
    s != "" && (IsAlpha(s[0]) || s[0] == '_')
  }

  /** The text after a dollar sign is a comment sign, or blanks and then a name. */
  predicate LooksPastDollar(s: string) {
    s != "" && (s[0] == '#' || (IsBlank(s[0]) && StartsName(SkipBlanks(s))))
  }

  /** What the look-up of a token makes of that text. */
  lemma {:induction false} LookUpFindsName(s: string)
    ensures StartsName(SkipBlanks(s)) <==>
      Parsers.NextSymbol(s).0 == Parsers.Token && Parsers.NameLength(Parsers.NextSymbol(s).1, false) > 0
  {
    if s != "" && IsBlank(s[0]) {
      LookUpFindsName(s[1..]);
    } else if s != "" && s[0] == '#' {
      CommentEnds(s[1..]);
      CommentHidesToken(Parsers.SkipComment(s[1..]));
    }
  }

  /**
   * A second parameter in a word is read as the first would be, except where the look-up skips
   * blanks and finds a name, or takes `$#` for the start of a comment.
   */
  lemma SecondDollarExactlyWhen(s: string)
    ensures Result(Dollar(Cursor(None, "$" + s))) == Result(Dollar(Cursor(Some(Parsers.Token), "$" + s)))
      <==> !LooksPastDollar(s)
  {
    var t := "$" + s;
    assert t[1..] == s;
    var (kind, s') := Parsers.NextSymbol(s);
    TokenIsThere(s);
    LookUpFindsName(s);
    if s != "" && s[0] == '#' {
      CommentHidesToken(Parsers.SkipComment(s[1..]));
      CommentEnds(s[1..]);
    }
    hide Parsers.OperatorAt, Parsers.SkipComment;
    if s != "" && Parsers.NameLength(s, false) > 0 {
      assert s' == s && kind == Parsers.Token;
    }
  }

  /** The word that starts with a double-quoted list. */
  function WordOfDoubles(doubles: Outcome<seq<Word>>, end: char): Outcome<Word> {
    match doubles
    case Ok(children, at) => WordLanguage.WordOfParts(WordLoop([List(children, true)], "", at, end))
    case Null(error, from) => Null(error, from)
    case Abort => Abort
    case Unmodelled => Unmodelled
  }

  lemma DoublesFirst(inner: string, k: Option<Parsers.Symbol>, end: char)
    requires end != '"'
    ensures WordLanguage.WordOfParts(WordLoop([], "", Cursor(k, "\"" + inner), end))
      == WordOfDoubles(DoubleLoop([], "", Cursor(k, inner)), end)
  {
    var text := "\"" + inner;
    assert text[1..] == inner && text[0] == '"';
    hide DoubleLoop;
    var doubles := DoubleQuotes(Cursor(k, text));
    if doubles.Ok? {
      assert Pushed([], "") + [doubles.value] == [doubles.value];
    }
    hide DoubleQuotes;
  }

  /** A parameter in double quotes, with another dollar sign after it. */
  lemma FirstParameter(name: string, s: string, end: char)
    requires Parsers.IsName(name) && end != '"'
    ensures ParseWord(Cursor(None, "\"$" + name + "$" + s), end)
      == WordOfDoubles(DoubleLoop([Param(name)], "", Cursor(None, "$" + s)), end)
  {
    var rest := "$" + s;
    var inner := "$" + name + rest;
    var text := "\"" + inner;
    assert text == "\"$" + name + "$" + s;
    assert Parsers.NextSymbol(text) == (Parsers.Token, text);
    var k := Some(Parsers.Token);
    NameInDoubles(name, rest, k);
    DoublesFirst(inner, k, end);
    hide DoubleLoop, WordLoop, Parsers.NextSymbol, Parsers.NameLength;
    assert ParseWord(Cursor(None, text), end) == WordLanguage.WordOfParts(WordLoop([], "", Cursor(k, text), end));
  }

  lemma NameInDoubles(name: string, rest: string, k: Option<Parsers.Symbol>)
    requires Parsers.IsName(name) && rest != "" && rest[0] == '$' && k == Some(Parsers.Token)
    ensures DoubleLoop([], "", Cursor(k, "$" + name + rest)) == DoubleLoop([Param(name)], "", Cursor(None, rest))
  {
    var s := "$" + name + rest;
    assert s[1..] == name + rest && (name + rest)[0] == name[0];
    Parsers.NameCharsAppend(name, rest);
    assert (name + rest)[..|name|] == name && (name + rest)[|name|..] == rest;
    hide Parsers.NextSymbol, Parsers.NameChars;
    assert Dollar(Cursor(k, s)) == Ok(Param(name), Cursor(None, rest));
    assert Pushed([], "") + [Param(name)] == [Param(name)];
  }

  /** `"$a$#..."` is rejected without an error: the look-up takes `#` for the start of a comment. */
  lemma SecondHashIsRejected(name: string, s: string, end: char)
    requires Parsers.IsName(name) && end != '"'
    ensures var r := ParseWord(Cursor(None, "\"$" + name + "$#" + s), end);
      r.Null? && r.error == None
  {
    var hash := "#" + s;
    assert "\"$" + name + "$#" + s == "\"$" + name + "$" + hash;
    FirstParameter(name, hash, end);
    var at := Cursor(None, "$" + hash);
    assert at.rest[1..] == hash && hash[1..] == s;
    CommentEnds(s);
    CommentHidesToken(Parsers.SkipComment(s));
    hide Parsers.SkipComment, Parsers.OperatorAt;
    assert Dollar(at).Null? && Dollar(at).error == None;
  }

  /** `"$a$ b..."` is read as `"$a$b..."`: the look-up skips blanks. */
  lemma SecondDollarSkipsBlank(name: string, s: string, end: char)
    requires Parsers.IsName(name) && end != '"'
    requires s != "" && Parsers.NameLength(s, false) > 0
    ensures ParseWord(Cursor(None, "\"$" + name + "$ " + s), end) == ParseWord(Cursor(None, "\"$" + name + "$" + s), end)
  {
    hide *;
    var blank, start := " " + s, "\"$" + name;
    assert start + "$ " + s == start + "$" + blank && "$" + blank == "$ " + s;
    FirstParameter(name, blank, end);
    FirstParameter(name, s, end);
    SkipsOneBlank(s);
    SameDollar([Param(name)], blank, s);
  }

  lemma SameDollar(children: seq<Word>, s: string, s': string)
    requires Dollar(Cursor(None, "$" + s)) == Dollar(Cursor(None, "$" + s'))
    ensures DoubleLoop(children, "", Cursor(None, "$" + s)) == DoubleLoop(children, "", Cursor(None, "$" + s'))
  {
    hide Dollar;
  }

  /** The look-up finds the same name with a blank before it. */
  lemma LookUpSkipsBlank(s: string)
    requires s != "" && Parsers.NameLength(s, false) > 0
    ensures Parsers.NextSymbol(s) == (Parsers.Token, s) && Parsers.NextSymbol(" " + s) == (Parsers.Token, s)
  {
    hide Parsers.OperatorAt, Parsers.SkipComment;
    assert (" " + s)[1..] == s;
  }

  lemma SkipsOneBlank(s: string)
    requires s != "" && Parsers.NameLength(s, false) > 0
    ensures Dollar(Cursor(None, "$ " + s)) == Dollar(Cursor(None, "$" + s))
  {
    hide Parsers.NextSymbol, Parsers.NameLength, Parsers.OperatorAt;
    LookUpSkipsBlank(s);
    NoBraces(s);
    var blank := " " + s;
    assert "$ " + s == "$" + blank && ("$" + blank)[1..] == blank && ("$" + s)[1..] == s;
  }

  lemma NoBraces(s: string)
    requires s != "" && Parsers.NameLength(s, false) > 0
    ensures s[0] != '{' && s[0] != '('
  {
  }
}

/** Parameter expansion of words (`run_word`), and the fields that come out of it. */
module Expansion {
  import opened Chars
  import opened Words
  import opened FieldSplitting
  import opened FieldReference

  /**
   * What expansion reads of the shell: positional parameters, IFS, the value of any other
   * parameter, and whether an unset parameter is an error.
   */
  datatype Env = Env(args: seq<string>, ifs: Option<string>, vars: map<string, string>, nounset: bool)

  const AT := "@"
  const STAR := "*"

  predicate IsAt(w: Word) {
    w == Param(AT)
  }

  predicate HasAt(ws: seq<Word>) {
    exists w <- ws :: IsAt(w)
  }

  /** What goes between two positional parameters: a blank, or the first IFS character if any. */
  function Separator(ifs: Option<string>): string {
    if ifs.None? then " " else if ifs.value == "" then "" else [ifs.value[0]]
  }

  function PositionalWords(args: seq<string>, sep: string, quoteArgs: bool): seq<Word> {
    if args == [] then []
    else
      var init, last := args[..|args| - 1], args[|args| - 1];
      PositionalWords(init, sep, quoteArgs)
      + (if init != [] && sep != "" then [Str(sep, false, true)] else [])
      + [Str(last, quoteArgs, true)]
  }

  /** The word that `$@` or `$*` becomes (`expand_positional_params`). */
  function PositionalParams(env: Env, quoteArgs: bool): Word {
    List(PositionalWords(env.args, Separator(env.ifs), quoteArgs), false)
  }

  /** The word that a parameter becomes; None is the unbound variable error. */
  function RunParam(name: string, env: Env, doubleQuoted: bool): Option<Word> {
    if name == AT then Some(PositionalParams(env, doubleQuoted))
    else if name == STAR then Some(PositionalParams(env, false))
    else if name in env.vars then Some(Str(env.vars[name], false, true))
    else if env.nounset then None
    else Some(Str("", false, true))
  }

  /** Moves the expansions of `$@` out of the double quotes and quotes what lies between them. */
  function Unquote(children: seq<Word>, results: seq<Word>, quoted: seq<Word>): seq<Word>
    requires |children| == |results|
  {
    var flushed := if quoted == [] then [] else [List(quoted, true)];
    if children == [] then flushed
    else if IsAt(children[0]) then flushed + [results[0]] + Unquote(children[1..], results[1..], [])
    else Unquote(children[1..], results[1..], quoted + [results[0]])
  }

  function RunWord(w: Word, env: Env, doubleQuoted: bool): Option<Word>
    decreases w, 1
  {
    match w
    case Str(_, _, _) => Some(w)
    case Param(name) => RunParam(name, env, doubleQuoted)
    case List(children, dq) =>
      var results := RunWords(children, env, doubleQuoted || dq);
      if results.None? then None
      else if dq && HasAt(children) then Some(List(Unquote(children, results.value, []), false))
      else Some(List(results.value, dq))
  }

  function RunWords(ws: seq<Word>, env: Env, doubleQuoted: bool): (r: Option<seq<Word>>)
    ensures r.Some? ==> |r.value| == |ws|
    decreases ws, 0
  {
    if ws == [] then Some([])
    else
      var first := RunWord(ws[0], env, doubleQuoted);
      if first.None? then None
      else
        var rest := RunWords(ws[1..], env, doubleQuoted);
        if rest.None? then None else Some([first.value] + rest.value)
  }

  // -----------------------------------------------------------------------
  // Reference: the stream of atoms that expansion stands for.

  /**
   * What stands between joined parameters (`$*` in section 2.5.2 of POSIX.1-2017 XCU): a blank if
   * IFS is unset, nothing if it is empty, and else the first character of it.
   */
  function Joiner(ifs: Option<string>): string {
    match ifs
    case None => " "
    case Some(chars) => chars[..if chars == "" then 0 else 1]
  }

  lemma SeparatorIsJoiner(ifs: Option<string>)
    ensures Separator(ifs) == Joiner(ifs)
  {
  }

  lemma JoinerSeparates(ifs: Option<string>)
    requires ifs != Some("")
    ensures |Joiner(ifs)| == 1 && Joiner(ifs)[0] in Separators(ifs)
  {
  }

  function JoinArgs(args: seq<string>, sep: string): string {
    if args == [] then ""
    else if |args| == 1 then args[0]
    else JoinArgs(args[..|args| - 1], sep) + sep + args[|args| - 1]
  }

  /** One positional parameter after another, quoted or not, with splittable separators between. */
  function ArgAtoms(args: seq<string>, sep: string, quoteArgs: bool): seq<Atom> {
    if args == [] then []
    else
      var init, last := args[..|args| - 1], args[|args| - 1];
      ArgAtoms(init, sep, quoteArgs)
      + (if init != [] then Splittable(sep) else [])
      + (if quoteArgs then [Keep(last, false)] else Splittable(last))
  }

  function ParamAtoms(name: string, env: Env, doubleQuoted: bool): seq<Atom> {
    if name == AT then ArgAtoms(env.args, Joiner(env.ifs), doubleQuoted)
    else if name == STAR then ArgAtoms(env.args, Joiner(env.ifs), false)
    else Splittable(if name in env.vars then env.vars[name] else "")
  }

  /** The plain text that a word expands to. */
  function PlainText(w: Word, env: Env): string
    decreases w, 1
  {
    match w
    case Str(str, _, _) => str
    case Param(name) =>
      if name == AT || name == STAR then JoinArgs(env.args, Joiner(env.ifs))
      else if name in env.vars then env.vars[name] else ""
    case List(children, _) => PlainTexts(children, env)
  }

  function PlainTexts(ws: seq<Word>, env: Env): string
    decreases ws, 0
  {
    if ws == [] then "" else PlainText(ws[0], env) + PlainTexts(ws[1..], env)
  }

  /** Double quotes keep a text whole, except that each `$@` stays a stream of its own. */
  function QuotedAtoms(children: seq<Word>, env: Env, pending: Option<string>): seq<Atom> {
    var flushed := if pending.None? then [] else [Keep(pending.value, true)];
    if children == [] then flushed
    else if IsAt(children[0]) then
      flushed + ArgAtoms(env.args, Joiner(env.ifs), true) + QuotedAtoms(children[1..], env, None)
    else
      var text := if pending.None? then "" else pending.value;
      QuotedAtoms(children[1..], env, Some(text + PlainText(children[0], env)))
  }

  function WordAtoms(w: Word, env: Env, doubleQuoted: bool): seq<Atom>
    decreases w, 1
  {
    match w
    case Str(str, singleQuoted, splitFields) =>
      if singleQuoted || !splitFields then [Keep(str, false)] else Splittable(str)
    case Param(name) => ParamAtoms(name, env, doubleQuoted)
    case List(children, dq) =>
      if !dq then WordsAtoms(children, env, doubleQuoted)
      else if HasAt(children) then QuotedAtoms(children, env, None)
      else [Keep(PlainTexts(children, env), true)]
  }

  function WordsAtoms(ws: seq<Word>, env: Env, doubleQuoted: bool): seq<Atom>
    decreases ws, 0
  {
    if ws == [] then [] else WordAtoms(ws[0], env, doubleQuoted) + WordsAtoms(ws[1..], env, doubleQuoted)
  }

  lemma {:induction false} FlattenAllConcat(a: seq<Word>, b: seq<Word>)
    requires AllExpanded(a) && AllExpanded(b)
    ensures AllExpanded(a + b) && FlattenAll(a + b) == FlattenAll(a) + FlattenAll(b)
  {
    if a == [] {
      assert a + b == b;
    } else {
      FlattenAllConcat(a[1..], b);
      assert (a + b)[1..] == a[1..] + b;
    }
  }

  /** The words made for the positional parameters, as text and as atoms. */
  lemma {:induction false} PositionalWordsMean(args: seq<string>, sep: string, quoteArgs: bool)
    ensures var ws := PositionalWords(args, sep, quoteArgs);
      && AllExpanded(ws)
      && TextOf(ws) == JoinArgs(args, sep)
      && FlattenAll(ws) == ArgAtoms(args, sep, quoteArgs)
  {
    if args != [] {
      var init, last := args[..|args| - 1], args[|args| - 1];
      PositionalWordsMean(init, sep, quoteArgs);
      var ws := PositionalWords(init, sep, quoteArgs);
      var mid: seq<Word> := if init != [] && sep != "" then [Str(sep, false, true)] else [];
      var end: seq<Word> := [Str(last, quoteArgs, true)];
      TextOfConcat(ws, mid);
      TextOfConcat(ws + mid, end);
      FlattenAllConcat(ws, mid);
      FlattenAllConcat(ws + mid, end);
      assert TextOf(end) == last && FlattenAll(end) == Flatten(end[0]);
      if init != [] {
        assert mid == [] ==> Splittable(sep) == [];
        assert TextOf(mid) == sep && FlattenAll(mid) == Splittable(sep);
      }
    }
  }

  /** An expansion without error has the plain text and the atoms of its word. */
  lemma {:induction false} RunWordMeans(w: Word, env: Env, doubleQuoted: bool)
    requires RunWord(w, env, doubleQuoted).Some?
    ensures var r := RunWord(w, env, doubleQuoted).value;
      && Expanded(r)
      && Text(r) == PlainText(w, env)
      && Flatten(r) == WordAtoms(w, env, doubleQuoted)
    decreases w, 1
  {
    match w
    case Str(_, _, _) =>
    case Param(name) => RunParameterMeans(name, env, doubleQuoted);
    case List(children, dq) =>
      RunWordsMean(children, env, doubleQuoted || dq);
      RunListMeans(children, dq, env, doubleQuoted);
  }

  lemma RunParameterMeans(name: string, env: Env, doubleQuoted: bool)
    requires RunParam(name, env, doubleQuoted).Some?
    ensures var r := RunParam(name, env, doubleQuoted).value;
      && Expanded(r)
      && Text(r) == PlainText(Param(name), env)
      && Flatten(r) == WordAtoms(Param(name), env, doubleQuoted)
  {
    SeparatorIsJoiner(env.ifs);
    hide PositionalWords, JoinArgs, ArgAtoms, Separator, Joiner;
    PositionalWordsMean(env.args, Joiner(env.ifs), doubleQuoted);
    PositionalWordsMean(env.args, Joiner(env.ifs), false);
  }

  lemma {:induction false} RunListMeans(children: seq<Word>, dq: bool, env: Env, doubleQuoted: bool)
    requires RunWords(children, env, doubleQuoted || dq).Some?
    requires var r := RunWords(children, env, doubleQuoted || dq).value;
      AllExpanded(r) && TextOf(r) == PlainTexts(children, env) && FlattenAll(r) == WordsAtoms(children, env, doubleQuoted || dq)
    ensures var w := List(children, dq);
      var r := RunWord(w, env, doubleQuoted).value;
      && Expanded(r)
      && Text(r) == PlainText(w, env)
      && Flatten(r) == WordAtoms(w, env, doubleQuoted)
    decreases children, 3
  {
    hide RunWords, PlainTexts, WordsAtoms, QuotedAtoms, TextOf, FlattenAll, HasAt, Unquote;
    if dq && HasAt(children) {
      UnquoteMeans(children, env, []);
      NothingPending();
    }
  }

  lemma NothingPending()
    ensures AllExpanded([]) && TextOf([]) == ""
  {
  }

  lemma {:induction false} RunWordsMean(ws: seq<Word>, env: Env, doubleQuoted: bool)
    requires RunWords(ws, env, doubleQuoted).Some?
    ensures var r := RunWords(ws, env, doubleQuoted).value;
      && AllExpanded(r)
      && TextOf(r) == PlainTexts(ws, env)
      && FlattenAll(r) == WordsAtoms(ws, env, doubleQuoted)
    decreases ws, 0
  {
    if ws != [] {
      RunWordMeans(ws[0], env, doubleQuoted);
      RunWordsMean(ws[1..], env, doubleQuoted);
    }
  }

  ghost predicate MeansQuoted(ws: seq<Word>, quoted: seq<Word>, children: seq<Word>, env: Env)
    requires AllExpanded(quoted)
  {
    && AllExpanded(ws)
    && TextOf(ws) == TextOf(quoted) + PlainTexts(children, env)
    && FlattenAll(ws) == QuotedAtoms(children, env, if quoted == [] then None else Some(TextOf(quoted)))
  }

  lemma OneWord(w: Word)
    requires Expanded(w)
    ensures TextOf([w]) == Text(w) && FlattenAll([w]) == Flatten(w)
  {
  }

  lemma Flushed(quoted: seq<Word>)
    requires AllExpanded(quoted)
    ensures var flushed: seq<Word> := if quoted == [] then [] else [List(quoted, true)];
      && AllExpanded(flushed) && TextOf(flushed) == TextOf(quoted)
      && FlattenAll(flushed) == if quoted == [] then [] else [Keep(TextOf(quoted), true)]
  {
    if quoted != [] {
      OneWord(List(quoted, true));
    }
  }

  /** A `$@` moved out of the quotes, between what was quoted before and what follows. */
  lemma MeansAt(quoted: seq<Word>, r: Word, rest: seq<Word>, children: seq<Word>, env: Env)
    requires AllExpanded(quoted) && Expanded(r) && children != [] && IsAt(children[0])
    requires Text(r) == PlainText(children[0], env)
    requires Flatten(r) == ArgAtoms(env.args, Joiner(env.ifs), true)
    requires MeansQuoted(rest, [], children[1..], env)
    ensures MeansQuoted((if quoted == [] then [] else [List(quoted, true)]) + [r] + rest, quoted, children, env)
  {
    var flushed: seq<Word> := if quoted == [] then [] else [List(quoted, true)];
    assert TextOf([]) == "" && TextOf([]) + PlainTexts(children[1..], env) == PlainTexts(children[1..], env);
    assert PlainTexts(children, env) == Text(r) + PlainTexts(children[1..], env);
    hide TextOf, Text, FlattenAll, Flatten, ArgAtoms, PlainTexts;
    Flushed(quoted);
    OneWord(r);
    TextOfConcat(flushed, [r]);
    TextOfConcat(flushed + [r], rest);
    FlattenAllConcat(flushed, [r]);
    FlattenAllConcat(flushed + [r], rest);
    assert TextOf(quoted) + (Text(r) + TextOf(rest)) == TextOf(quoted) + Text(r) + TextOf(rest);
  }

  lemma {:induction false} UnquoteMeans(children: seq<Word>, env: Env, quoted: seq<Word>)
    requires AllExpanded(quoted)
    requires RunWords(children, env, true).Some?
    ensures MeansQuoted(Unquote(children, RunWords(children, env, true).value, quoted), quoted, children, env)
    decreases children, 2
  {
    if children == [] {
      Flushed(quoted);
      assert TextOf(quoted) + "" == TextOf(quoted);
    } else {
      var results := RunWords(children, env, true).value;
      RunWordMeans(children[0], env, true);
      assert results[1..] == RunWords(children[1..], env, true).value;
      if IsAt(children[0]) {
        UnquoteMeans(children[1..], env, []);
        MeansAt(quoted, results[0], Unquote(children[1..], results[1..], []), children, env);
      } else {
        var one := [results[0]];
        OneWord(results[0]);
        TextOfConcat(quoted, one);
        UnquoteMeans(children[1..], env, quoted + one);
        var a, b, c := TextOf(quoted), Text(results[0]), PlainTexts(children[1..], env);
        assert a + b + c == a + (b + c);
      }
    }
  }

  /** The parameters that a word mentions. */
  function Names(w: Word): set<string>
    decreases w, 1
  {
    match w
    case Str(_, _, _) => {}
    case Param(name) => {name}
    case List(children, _) => AllNames(children)
  }

  function AllNames(ws: seq<Word>): set<string>
    decreases ws, 0
  {
    if ws == [] then {} else Names(ws[0]) + AllNames(ws[1..])
  }

  predicate SomeUnset(names: set<string>, env: Env) {
    exists name <- names :: name != "@" && name != "*" && name !in env.vars
  }

  lemma SomeUnsetUnion(a: set<string>, b: set<string>, env: Env)
    ensures SomeUnset(a + b, env) <==> SomeUnset(a, env) || SomeUnset(b, env)
  {
  }

  /** Expansion fails exactly if unset parameters are errors and the word mentions one, anywhere in it. */
  lemma {:induction false} UnboundIff(w: Word, env: Env, doubleQuoted: bool)
    ensures RunWord(w, env, doubleQuoted).None? <==> env.nounset && SomeUnset(Names(w), env)
    decreases w, 1
  {
    match w
    case Str(_, _, _) =>
    case Param(name) => assert name in Names(w);
    case List(children, dq) => SomeUnboundIff(children, env, doubleQuoted || dq);
  }

  lemma {:induction false} SomeUnboundIff(ws: seq<Word>, env: Env, doubleQuoted: bool)
    ensures RunWords(ws, env, doubleQuoted).None? <==> env.nounset && SomeUnset(AllNames(ws), env)
    decreases ws, 0
  {
    if ws != [] {
      UnboundIff(ws[0], env, doubleQuoted);
      SomeUnboundIff(ws[1..], env, doubleQuoted);
      SomeUnsetUnion(Names(ws[0]), AllNames(ws[1..]), env);
    }
  }

  /** Main result: expand, re-nest, split and read the text is one scan of the atoms of the word. */
  lemma ExpansionIsScan(w: Word, env: Env)
    requires env.ifs != Some("") && RunWord(w, env, false).Some?
    ensures var r := RunWord(w, env, false).value;
      && Expanded(r)
      && FieldTexts(r, env.ifs) == ScanAll(WordAtoms(w, env, false), Separators(env.ifs), SCAN_START).texts
  {
    RunWordMeans(w, env, false);
    FieldTextsAreScan(RunWord(w, env, false).value, env.ifs);
  }
}

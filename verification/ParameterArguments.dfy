/** The arguments that an unquoted parameter becomes, from the word to the last expansion. */
module ParameterArguments {
  import opened Chars
  import opened Words
  import opened FieldSplitting
  import opened FieldReference
  import opened Expansion
  import opened WordExpansion
  import opened Patterns
  import UnquotedParams

  // -----------------------------------------------------------------------
  // Words without quotes: a field is known by its text.

  predicate Unquoted(w: Word) {
    match w
    case Str(_, singleQuoted, _) => !singleQuoted
    case Param(_) => true
    case List(children, doubleQuoted) => !doubleQuoted && forall c <- children :: Unquoted(c)
  }

  lemma {:induction false} MarksOfConcat(a: string, b: string, quoted: bool)
    ensures MarksOf(a + b, quoted) == MarksOf(a, quoted) + MarksOf(b, quoted)
  {
    if a == "" {
      assert a + b == b;
    } else {
      MarksOfConcat(a[1..], b, quoted);
      assert (a + b)[1..] == a[1..] + b && (a + b)[0] == a[0];
    }
  }

  lemma {:induction false} UnquotedMarks(w: Word)
    requires Expanded(w) && Unquoted(w)
    ensures Marks(w, false) == MarksOf(Text(w), false)
    decreases w, 1
  {
    if w.List? {
      AllUnquotedMarks(w.children);
    }
  }

  lemma {:induction false} AllUnquotedMarks(ws: seq<Word>)
    requires AllExpanded(ws) && forall w <- ws :: Unquoted(w)
    ensures AllMarks(ws, false) == MarksOf(TextOf(ws), false)
    decreases ws, 0
  {
    if ws != [] {
      UnquotedMarks(ws[0]);
      AllUnquotedMarks(ws[1..]);
      MarksOfConcat(Text(ws[0]), TextOf(ws[1..]), false);
    }
  }

  lemma {:induction false} CopyKeepsUnquoted(w: Word)
    ensures Unquoted(Copy(w)) <==> Unquoted(w)
  {
    if w.List? {
      var copies := CopyAll(w.children);
      forall i | 0 <= i < |copies| ensures Unquoted(copies[i]) <==> Unquoted(w.children[i]) {
        CopyKeepsUnquoted(w.children[i]);
      }
    }
  }

  ghost predicate UnquotedFields(fields: seq<seq<Word>>) {
    forall f <- fields :: forall w <- f :: Unquoted(w)
  }

  lemma AddWordUnquoted(st: Split, w: Word)
    requires st.open ==> st.fields != []
    requires UnquotedFields(st.fields) && Unquoted(w)
    ensures UnquotedFields(AddWord(st, w).fields)
  {
    var r := AddWord(st, w).fields;
    forall i, x | 0 <= i < |r| && x in r[i] ensures Unquoted(x) {
      if x != w {
        assert st.fields[i] in st.fields && x in st.fields[i];
      }
    }
  }

  lemma {:induction false} SplitCharsUnquoted(s: string, ifs: string, buf: string, st: Split)
    requires st.open ==> st.fields != []
    requires UnquotedFields(st.fields)
    ensures UnquotedFields(SplitChars(s, ifs, buf, st).fields)
  {
    hide IsSpace;
    var w := Str(buf, false, false);
    if s == "" {
      AddWordUnquoted(st, w);
    } else if s[0] !in ifs {
      SplitCharsUnquoted(s[1..], ifs, buf + [s[0]], st.(inIfs := false, inNonSpace := false));
    } else if Delimits(st.inIfs, st.inNonSpace, s[0]) {
      AddWordUnquoted(st, w);
      SplitCharsUnquoted(s[1..], ifs, "", AddWord(st, w).(open := false, inIfs := true));
    } else {
      SplitCharsUnquoted(s[1..], ifs, buf, if IsSpace(s[0]) then st else st.(inNonSpace := true));
    }
  }

  lemma {:induction false} SplitWordUnquoted(w: Word, ifs: string, st: Split)
    requires Expanded(w) && Unquoted(w)
    requires st.open ==> st.fields != []
    requires UnquotedFields(st.fields)
    ensures UnquotedFields(SplitWord(w, ifs, st).fields)
    decreases w, 1
  {
    if w.List? {
      SplitWordsUnquoted(w.children, ifs, st);
    } else if w.splitFields {
      SplitCharsUnquoted(w.str, ifs, "", st);
    } else {
      AddWordUnquoted(st, Copy(w));
    }
  }

  lemma {:induction false} SplitWordsUnquoted(ws: seq<Word>, ifs: string, st: Split)
    requires AllExpanded(ws) && forall w <- ws :: Unquoted(w)
    requires st.open ==> st.fields != []
    requires UnquotedFields(st.fields)
    ensures UnquotedFields(SplitWords(ws, ifs, st).fields)
    decreases ws, 0
  {
    if ws != [] {
      SplitWordUnquoted(ws[0], ifs, st);
      SplitWordsUnquoted(ws[1..], ifs, SplitWord(ws[0], ifs, st));
    }
  }

  lemma FieldsStayUnquoted(w: Word, ifs: Option<string>)
    requires Expanded(w) && Unquoted(w)
    ensures forall f <- SplitFields(w, ifs) :: Unquoted(f)
  {
    if ifs == Some("") {
      CopyKeepsUnquoted(w);
    } else {
      SplitWordUnquoted(w, Separators(ifs), START);
      var lists := SplitWord(w, Separators(ifs), START).fields;
      forall i | 0 <= i < |lists| ensures Unquoted(AsLists(lists)[i]) {
        assert lists[i] in lists;
      }
    }
  }

  // -----------------------------------------------------------------------
  // Arguments by texts.

  /** What `glob` says of an unquoted text; nothing if it is not asked. */
  function AskedText(text: string, system: System): Option<GlobResult> {
    if !system.noGlob && exists c <- text :: IsPatternChar(c) then Some(system.glob(text)) else None
  }

  function OwnText(text: string, system: System): seq<string> {
    match AskedText(text, system)
    case Some(Matches(paths)) => paths
    case _ => [text]
  }

  /** Unquoted texts, each replaced by the paths that it matches, if any. */
  function TextsArguments(texts: seq<string>, system: System): Option<seq<string>> {
    if exists t <- texts :: AskedText(t, system) == Some(GlobError) then None
    else Some(Flat(seq(|texts|, i requires 0 <= i < |texts| => OwnText(texts[i], system))))
  }

  lemma {:induction false} SomeMark(s: string)
    ensures (exists m <- MarksOf(s, false) :: !m.quoted && IsPatternChar(m.c)) <==> exists c <- s :: IsPatternChar(c)
  {
    if s != "" {
      SomeMark(s[1..]);
      var marks := MarksOf(s, false);
      assert marks[0] == Mark(s[0], false) && marks[1..] == MarksOf(s[1..], false);
      assert forall m :: m in marks <==> m == marks[0] || m in marks[1..];
      assert forall c :: c in s <==> c == s[0] || c in s[1..];
    }
  }

  lemma OwnByText(f: Word, system: System)
    requires Expanded(f) && Unquoted(f)
    ensures Asked(Marks(f, false), system) == AskedText(Text(f), system) && Own(f, system) == OwnText(Text(f), system)
  {
    UnquotedMarks(f);
    StringMarks(Text(f), false);
    SomeMark(Text(f));
  }

  lemma UnquotedArguments(w: Word, ifs: Option<string>, system: System)
    requires Expanded(w) && Unquoted(w)
    ensures AllExpanded(SplitFields(w, ifs))
    ensures ArgumentsOf(SplitFields(w, ifs), system) == TextsArguments(FieldTexts(w, ifs), system)
  {
    SplittingStaysExpanded(w, ifs);
    FieldsStayUnquoted(w, ifs);
    var fields, texts := SplitFields(w, ifs), FieldTexts(w, ifs);
    hide SplitFields, FieldTexts, ArgumentsOf, AskedText, OwnText, Asked, Own, Marks, Text, Flat;
    PathnamesAre(fields, system);
    forall i | 0 <= i < |fields|
      ensures Asked(Marks(fields[i], false), system) == AskedText(texts[i], system) && Own(fields[i], system) == OwnText(texts[i], system)
    {
      OwnByText(fields[i], system);
      FieldText(w, ifs, i);
    }
    assert OwnOfEach(fields, system) == seq(|texts|, i requires 0 <= i < |texts| => OwnText(texts[i], system));
    assert SomeGlobFails(fields, system) <==> exists t <- texts :: AskedText(t, system) == Some(GlobError);
  }

  lemma FieldText(w: Word, ifs: Option<string>, i: nat)
    requires Expanded(w) && AllExpanded(SplitFields(w, ifs)) && i < |SplitFields(w, ifs)|
    ensures |FieldTexts(w, ifs)| == |SplitFields(w, ifs)| && FieldTexts(w, ifs)[i] == Text(SplitFields(w, ifs)[i])
  {
  }

  // -----------------------------------------------------------------------
  // Parameters.

  /** All of a text if IFS is empty, and else its fields. */
  function Cut(s: string, ifs: Option<string>): seq<string> {
    if ifs == Some("") then [s] else SplitText(s, Separators(ifs))
  }

  lemma {:induction false} PositionalWordsUnquoted(args: seq<string>, sep: string)
    ensures forall w <- PositionalWords(args, sep, false) :: Unquoted(w)
  {
    if args != [] {
      PositionalWordsUnquoted(args[..|args| - 1], sep);
    }
  }

  lemma ParameterIsUnquoted(name: string, env: Env)
    requires RunWord(Param(name), env, false).Some?
    ensures Unquoted(RunWord(Param(name), env, false).value)
  {
    PositionalWordsUnquoted(env.args, Separator(env.ifs));
  }

  lemma ParameterTexts(name: string, env: Env)
    requires RunWord(Param(name), env, false).Some?
    ensures var r := RunWord(Param(name), env, false).value;
      Expanded(r) && FieldTexts(r, env.ifs) == Cut(PlainText(Param(name), env), env.ifs)
  {
    var r, text := RunWord(Param(name), env, false).value, PlainText(Param(name), env);
    RunWordMeans(Param(name), env, false);
    hide RunParam;
    if env.ifs == Some("") {
      CopyKeepsText(r);
    } else {
      UnquotedParams.ArgsAreSplittable(env.args, Joiner(env.ifs));
      SplittableWordFields(r, text, env.ifs);
    }
  }

  /** An unquoted parameter: its value is cut into fields, and each is taken for a pattern. */
  lemma UnquotedValueArguments(name: string, env: Env, system: System)
    requires name != AT && name != STAR
    ensures ExpandWord(Param(name), env, system) ==
      if name in env.vars then TextsArguments(Cut(env.vars[name], env.ifs), system)
      else if env.nounset then None
      else TextsArguments(Cut("", env.ifs), system)
  {
    if RunWord(Param(name), env, false).Some? {
      ParameterArguments(name, env, system);
    }
  }

  /**
   * Unquoted `$@` and `$*`: the parameters with a blank between them if IFS is unset, nothing if
   * it is empty, and else its first character, cut into fields, each taken for a pattern.
   */
  lemma UnquotedPositionalArguments(name: string, env: Env, system: System)
    requires name == AT || name == STAR
    ensures env.ifs == None ==>
      ExpandWord(Param(name), env, system) == TextsArguments(SplitText(JoinArgs(env.args, " "), " \t\n"), system)
    ensures env.ifs == Some("") ==>
      ExpandWord(Param(name), env, system) == TextsArguments([JoinArgs(env.args, "")], system)
    ensures env.ifs.Some? && env.ifs.value != "" ==>
      ExpandWord(Param(name), env, system)
        == TextsArguments(SplitText(JoinArgs(env.args, [env.ifs.value[0]]), env.ifs.value), system)
  {
    ParameterArguments(name, env, system);
    if env.ifs.Some? && env.ifs.value != "" {
      assert Joiner(env.ifs) == [env.ifs.value[0]];
    }
  }

  lemma ParameterArguments(name: string, env: Env, system: System)
    requires RunWord(Param(name), env, false).Some?
    ensures ExpandWord(Param(name), env, system) == TextsArguments(Cut(PlainText(Param(name), env), env.ifs), system)
  {
    var r := RunWord(Param(name), env, false).value;
    ParameterIsUnquoted(name, env);
    ParameterTexts(name, env);
    UnquotedArguments(r, env.ifs, system);
    hide RunWord, ArgumentsOf, TextsArguments, FieldTexts, SplitFields, Cut, PlainText;
    assert ExpandTilde(Copy(Param(name)), system.homes, true, true) == Param(name);
  }
}

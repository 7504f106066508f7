/** All expansions of a command word (`expand_word`): tilde, parameters, fields, pathnames. */
module WordExpansion {
  import opened Chars
  import opened Words
  import opened FieldSplitting
  import opened FieldReference
  import opened Expansion
  import opened QuotedParams

  datatype GlobResult = Matches(paths: seq<string>) | NoMatch | GlobError

  /** The system around the shell: home directories by login name ("" is $HOME), and `glob`. */
  datatype System = System(homes: map<string, string>, noGlob: bool, glob: string -> GlobResult)

  // -----------------------------------------------------------------------
  // Tilde expansion.

  predicate IsLognameChar(c: char) {
    IsAlnum(c) || c == '.' || c == '_' || c == '-'
  }

  /** Where the login name that starts at `i` ends, if only login-name characters come before a slash. */
  function NameEnd(str: string, i: nat): (r: Option<nat>)
    requires i <= |str|
    ensures r.Some? ==> i <= r.value <= |str|
    decreases |str| - i
  {
    if i == |str| || str[i] == '/' then Some(i)
    else if IsLognameChar(str[i]) then NameEnd(str, i + 1)
    else None
  }

  /** The directory for a tilde prefix of `str`, and the length of that prefix. */
  function TildeAt(str: string, last: bool, homes: map<string, string>): (r: Option<(string, nat)>)
    ensures r.Some? ==> r.value.1 <= |str|
  {
    if str == "" || str[0] != '~' then None
    else
      var end := NameEnd(str, 1);
      if end.None? || (end.value == |str| && !last) then None
      else if str[1..end.value] !in homes then None
      else Some((homes[str[1..end.value]], end.value))
  }

  function ExpandTilde(w: Word, homes: map<string, string>, first: bool, last: bool): Word
    decreases w, 1
  {
    match w
    case Str(str, singleQuoted, _) =>
      var t := TildeAt(str, last, homes);
      if !singleQuoted && first && t.Some? then
        List([Str(t.value.0, true, false), Str(str[t.value.1..], false, false)], false)
      else w
    case Param(_) => w
    case List(children, doubleQuoted) =>
      if doubleQuoted then w else List(ExpandTildes(children, homes, first, last), false)
  }

  function ExpandTildes(ws: seq<Word>, homes: map<string, string>, first: bool, last: bool): seq<Word>
    decreases ws, 0
  {
    if ws == [] then []
    else [ExpandTilde(ws[0], homes, first, last && |ws| == 1)] + ExpandTildes(ws[1..], homes, false, last)
  }

  /** No unquoted string starts with a tilde. */
  predicate NoTilde(w: Word) {
    match w
    case Str(str, singleQuoted, _) => singleQuoted || str == "" || str[0] != '~'
    case Param(_) => true
    case List(children, doubleQuoted) => doubleQuoted || forall c <- children :: NoTilde(c)
  }

  lemma {:induction false} TildeLeavesAlone(w: Word, homes: map<string, string>, first: bool, last: bool)
    requires NoTilde(w)
    ensures ExpandTilde(w, homes, first, last) == w
    decreases w, 1
  {
    if w.List? && !w.doubleQuoted {
      TildesLeaveAlone(w.children, homes, first, last);
    }
  }

  lemma {:induction false} TildesLeaveAlone(ws: seq<Word>, homes: map<string, string>, first: bool, last: bool)
    requires forall w <- ws :: NoTilde(w)
    ensures ExpandTildes(ws, homes, first, last) == ws
    decreases ws, 0
  {
    if ws != [] {
      TildeLeavesAlone(ws[0], homes, first, last && |ws| == 1);
      TildesLeaveAlone(ws[1..], homes, false, last);
    }
  }

  /** The portable characters of a login name (section 3.282 of POSIX.1-2017 XBD). */
  predicate IsPortable(c: char) {
    'A' <= c <= 'Z' || 'a' <= c <= 'z' || '0' <= c <= '9' || c in "._-"
  }

  lemma {:induction false} NameEndIff(str: string, i: nat, end: nat)
    requires i <= |str|
    ensures NameEnd(str, i) == Some(end)
      <==> i <= end <= |str| && (forall k :: i <= k < end ==> IsPortable(str[k])) && (end == |str| || str[end] == '/')
    decreases |str| - i
  {
    if i < |str| && str[i] != '/' {
      NameEndIff(str, i + 1, end);
    }
  }

  /**
   * A tilde prefix ends before the first slash, or with the string where that is the last part of
   * the word; the login name in it has portable characters only and a known home directory.
   */
  lemma TildeIff(str: string, last: bool, homes: map<string, string>, dir: string, n: nat)
    ensures TildeAt(str, last, homes) == Some((dir, n)) <==>
      && 1 <= n <= |str| && str[0] == '~' && (forall k :: 1 <= k < n ==> IsPortable(str[k]))
      && (if n == |str| then last else str[n] == '/')
      && str[1..n] in homes && homes[str[1..n]] == dir
  {
    if str != "" && str[0] == '~' {
      NameEndIff(str, 1, n);
      if TildeAt(str, last, homes).Some? {
        NameEndIff(str, 1, TildeAt(str, last, homes).value.1);
      }
    }
  }

  lemma {:induction false} LaterStringsStay(w: Word, homes: map<string, string>, last: bool)
    ensures ExpandTilde(w, homes, false, last) == w
    decreases w, 1
  {
    if w.List? && !w.doubleQuoted {
      LaterListsStay(w.children, homes, last);
    }
  }

  lemma {:induction false} LaterListsStay(ws: seq<Word>, homes: map<string, string>, last: bool)
    ensures ExpandTildes(ws, homes, false, last) == ws
    decreases ws, 0
  {
    if ws != [] {
      LaterStringsStay(ws[0], homes, last && |ws| == 1);
      LaterListsStay(ws[1..], homes, last);
    }
  }

  /** Only the first part of a list is looked at, and it is the last part too if it is the only one. */
  lemma TildeInFirstPart(ws: seq<Word>, homes: map<string, string>, first: bool, last: bool)
    requires ws != []
    ensures ExpandTilde(List(ws, false), homes, first, last)
      == List([ExpandTilde(ws[0], homes, first, if |ws| == 1 then last else false)] + ws[1..], false)
  {
    LaterListsStay(ws[1..], homes, last);
  }

  // -----------------------------------------------------------------------
  // Pathname expansion.

  predicate IsPathnameMetachar(c: char) {
    c == '*' || c == '?' || c == '[' || c == ']'
  }

  predicate HasMetachar(s: string) {
    exists c <- s :: IsPathnameMetachar(c)
  }

  /** Is there a pattern character outside quotes? */
  predicate NeedsPathnameExpansion(w: Word) {
    match w
    case Str(str, singleQuoted, _) => !singleQuoted && HasMetachar(str)
    case Param(_) => false
    case List(children, doubleQuoted) => !doubleQuoted && exists c <- children :: NeedsPathnameExpansion(c)
  }

  function EscapeMetachars(s: string): string {
    if s == "" then "" else (if IsPathnameMetachar(s[0]) then ['\\', s[0]] else [s[0]]) + EscapeMetachars(s[1..])
  }

  /** The pattern of a word: quoted pattern characters get a backslash. */
  function Pattern(w: Word, quoted: bool): string
    requires Expanded(w)
    decreases w, 1
  {
    match w
    case Str(str, singleQuoted, _) => if quoted || singleQuoted then EscapeMetachars(str) else str
    case List(children, doubleQuoted) => Patterns(children, quoted || doubleQuoted)
  }

  function Patterns(ws: seq<Word>, quoted: bool): string
    requires AllExpanded(ws)
    decreases ws, 0
  {
    if ws == [] then "" else Pattern(ws[0], quoted) + Patterns(ws[1..], quoted)
  }

  /** The arguments for the fields; None when `glob` fails. */
  function ExpandPathnames(fields: seq<Word>, glob: string -> GlobResult): Option<seq<string>>
    requires AllExpanded(fields)
  {
    if fields == [] then Some([])
    else
      var own :=
        if !NeedsPathnameExpansion(fields[0]) then Some([Text(fields[0])])
        else match glob(Pattern(fields[0], false))
          case Matches(paths) => Some(paths)
          case NoMatch => Some([Text(fields[0])])
          case GlobError => None;
      var rest := ExpandPathnames(fields[1..], glob);
      if own.None? || rest.None? then None else Some(own.value + rest.value)
  }

  /** The last step; none if pathname expansion is switched off. */
  function ArgumentsOf(fields: seq<Word>, system: System): Option<seq<string>>
    requires AllExpanded(fields)
  {
    if system.noGlob then Some(FieldsStr(fields)) else ExpandPathnames(fields, system.glob)
  }

  /** The expansions after that of the tilde. */
  function ExpandFrom(w: Word, env: Env, system: System): Option<seq<string>> {
    var r := RunWord(w, env, false);
    if r.None? then None
    else
      RunWordMeans(w, env, false);
      SplittingStaysExpanded(r.value, env.ifs);
      ArgumentsOf(SplitFields(r.value, env.ifs), system)
  }

  function ExpandWord(w: Word, env: Env, system: System): Option<seq<string>> {
    ExpandFrom(ExpandTilde(Copy(w), system.homes, true, true), env, system)
  }

  // -----------------------------------------------------------------------
  // Quoted text is safe from pathname expansion.

  /** Unquoted pattern characters are only found among the separators that will be split away. */
  predicate Quiet(w: Word, ifs: string) {
    match w
    case Str(str, singleQuoted, splitFields) =>
      singleQuoted || forall c <- str :: IsPathnameMetachar(c) ==> splitFields && c in ifs
    case Param(_) => true
    case List(children, doubleQuoted) => doubleQuoted || forall c <- children :: Quiet(c, ifs)
  }

  ghost predicate QuietFields(fields: seq<seq<Word>>) {
    forall f <- fields :: forall w <- f :: !NeedsPathnameExpansion(w)
  }

  lemma {:induction false} CopyKeepsQuiet(w: Word)
    ensures NeedsPathnameExpansion(Copy(w)) <==> NeedsPathnameExpansion(w)
    ensures NoTilde(Copy(w)) <==> NoTilde(w)
  {
    if w.List? && !w.doubleQuoted {
      var copies := CopyAll(w.children);
      forall i | 0 <= i < |copies|
        ensures NeedsPathnameExpansion(copies[i]) <==> NeedsPathnameExpansion(w.children[i])
        ensures NoTilde(copies[i]) <==> NoTilde(w.children[i])
      {
        CopyKeepsQuiet(w.children[i]);
      }
    }
  }

  lemma AddWordQuiet(st: Split, w: Word)
    requires st.open ==> st.fields != []
    requires QuietFields(st.fields) && !NeedsPathnameExpansion(w)
    ensures QuietFields(AddWord(st, w).fields)
  {
    var r := AddWord(st, w).fields;
    forall i, x | 0 <= i < |r| && x in r[i] ensures !NeedsPathnameExpansion(x) {
      if x != w {
        assert st.fields[i] in st.fields && x in st.fields[i];
      }
    }
  }

  lemma {:induction false} SplitCharsQuiet(s: string, ifs: string, buf: string, st: Split)
    requires st.open ==> st.fields != []
    requires QuietFields(st.fields) && !HasMetachar(buf)
    requires forall c <- s :: IsPathnameMetachar(c) ==> c in ifs
    ensures QuietFields(SplitChars(s, ifs, buf, st).fields)
  {
    var w := Str(buf, false, false);
    if s == "" {
      AddWordQuiet(st, w);
    } else if s[0] !in ifs {
      SplitCharsQuiet(s[1..], ifs, buf + [s[0]], st.(inIfs := false, inNonSpace := false));
    } else if Delimits(st.inIfs, st.inNonSpace, s[0]) {
      AddWordQuiet(st, w);
      SplitCharsQuiet(s[1..], ifs, "", AddWord(st, w).(open := false, inIfs := true));
    } else {
      SplitCharsQuiet(s[1..], ifs, buf, if IsSpace(s[0]) then st else st.(inNonSpace := true));
    }
  }

  lemma {:induction false} SplitWordQuiet(w: Word, ifs: string, st: Split)
    requires Expanded(w) && Quiet(w, ifs)
    requires st.open ==> st.fields != []
    requires QuietFields(st.fields)
    ensures QuietFields(SplitWord(w, ifs, st).fields)
    decreases w, 1
  {
    if w.Str? && !w.singleQuoted && w.splitFields {
      SplitCharsQuiet(w.str, ifs, "", st);
    } else if w.List? && !w.doubleQuoted {
      SplitWordsQuiet(w.children, ifs, st);
    } else {
      CopyKeepsQuiet(w);
      AddWordQuiet(st, Copy(w));
    }
  }

  lemma {:induction false} SplitWordsQuiet(ws: seq<Word>, ifs: string, st: Split)
    requires AllExpanded(ws) && forall w <- ws :: Quiet(w, ifs)
    requires st.open ==> st.fields != []
    requires QuietFields(st.fields)
    ensures QuietFields(SplitWords(ws, ifs, st).fields)
    decreases ws, 0
  {
    if ws != [] {
      SplitWordQuiet(ws[0], ifs, st);
      SplitWordsQuiet(ws[1..], ifs, SplitWord(ws[0], ifs, st));
    }
  }

  lemma {:induction false} QuietPathnames(fields: seq<Word>, glob: string -> GlobResult)
    requires AllExpanded(fields)
    requires forall f <- fields :: !NeedsPathnameExpansion(f)
    ensures ExpandPathnames(fields, glob) == Some(FieldsStr(fields))
  {
    if fields != [] {
      QuietPathnames(fields[1..], glob);
      assert FieldsStr(fields) == [Text(fields[0])] + FieldsStr(fields[1..]);
    }
  }

  /** A word whose pattern characters are quoted or split away becomes its field texts, whatever `glob` does. */
  lemma QuietWordFields(w: Word, ifs: Option<string>, glob: string -> GlobResult)
    requires Expanded(w) && ifs != Some("") && Quiet(w, Separators(ifs))
    ensures AllExpanded(SplitFields(w, ifs))
    ensures ExpandPathnames(SplitFields(w, ifs), glob) == Some(FieldTexts(w, ifs))
  {
    SplitWordQuiet(w, Separators(ifs), START);
    SplittingStaysExpanded(w, ifs);
    var lists := SplitWord(w, Separators(ifs), START).fields;
    forall i | 0 <= i < |lists| ensures !NeedsPathnameExpansion(AsLists(lists)[i]) {
      assert lists[i] in lists;
    }
    QuietPathnames(SplitFields(w, ifs), glob);
  }

  lemma {:induction false} PositionalWordsQuiet(args: seq<string>, sep: string, ifs: string)
    requires forall c <- sep :: c in ifs
    ensures forall w <- PositionalWords(args, sep, true) :: Quiet(w, ifs)
  {
    if args != [] {
      PositionalWordsQuiet(args[..|args| - 1], sep, ifs);
    }
  }

  lemma {:induction false} UnquoteQuiet(children: seq<Word>, results: seq<Word>, quoted: seq<Word>, ifs: string)
    requires |children| == |results|
    requires forall i :: 0 <= i < |children| && IsAt(children[i]) ==> Quiet(results[i], ifs)
    ensures forall w <- Unquote(children, results, quoted) :: Quiet(w, ifs)
  {
    if children != [] {
      if IsAt(children[0]) {
        UnquoteQuiet(children[1..], results[1..], [], ifs);
      } else {
        UnquoteQuiet(children[1..], results[1..], quoted + [results[0]], ifs);
      }
    }
  }

  lemma {:induction false} RunWordsAt(ws: seq<Word>, env: Env, i: nat)
    requires RunWords(ws, env, true).Some? && i < |ws|
    ensures RunWord(ws[i], env, true) == Some(RunWords(ws, env, true).value[i])
  {
    if i > 0 {
      RunWordsAt(ws[1..], env, i - 1);
    }
  }

  lemma DoubleQuotedIsQuiet(children: seq<Word>, env: Env)
    requires RunWord(List(children, true), env, false).Some?
    ensures Quiet(RunWord(List(children, true), env, false).value, Separators(env.ifs))
  {
    SeparatorIsJoiner(env.ifs);
    if HasAt(children) {
      var results := RunWords(children, env, true).value;
      forall i | 0 <= i < |children| && IsAt(children[i]) ensures Quiet(results[i], Separators(env.ifs)) {
        RunWordsAt(children, env, i);
        PositionalWordsQuiet(env.args, Joiner(env.ifs), Separators(env.ifs));
      }
      UnquoteQuiet(children, results, [], Separators(env.ifs));
    }
  }

  lemma {:induction false} CopyChangesNoMeaning(w: Word, env: Env)
    ensures PlainText(Copy(w), env) == PlainText(w, env)
    ensures IsAt(Copy(w)) <==> IsAt(w)
    decreases w, 1
  {
    if w.List? {
      CopiesChangeNoMeaning(w.children, env);
    }
  }

  lemma {:induction false} CopiesChangeNoMeaning(ws: seq<Word>, env: Env)
    ensures PlainTexts(CopyAll(ws), env) == PlainTexts(ws, env)
    ensures QuotedFields(CopyAll(ws), env) == QuotedFields(ws, env)
    decreases ws, 0
  {
    if ws != [] {
      CopyChangesNoMeaning(ws[0], env);
      CopiesChangeNoMeaning(ws[1..], env);
      assert CopyAll(ws)[1..] == CopyAll(ws[1..]);
    }
  }

  /**
   * A double-quoted word gives the glued fields of its parts as arguments, or all its text if IFS
   * is empty: neither tilde nor pathname expansion changes them, with globbing on or off.
   */
  lemma DoubleQuotedArguments(children: seq<Word>, env: Env, system: System)
    ensures var w := List(children, true);
      ExpandWord(w, env, system) ==
        if RunWord(Copy(w), env, false).None? then None
        else Some(if env.ifs == Some("") then [PlainTexts(children, env)]
                  else if children == [] then [""]
                  else QuotedFields(children, env))
  {
    var copy := List(CopyAll(children), true);
    if RunWord(copy, env, false).Some? {
      var r := RunWord(copy, env, false).value;
      CopiesChangeNoMeaning(children, env);
      DoubleQuotedIsQuiet(copy.children, env);
      if env.ifs == Some("") {
        RunWordMeans(copy, env, false);
        WholeArgument(r, env, system);
      } else {
        DoubleQuotedFields(copy.children, env);
        QuietWordFields(r, env.ifs, system.glob);
      }
    }
  }

  /** Without a pattern character outside quotes, a word that is not split is one argument. */
  lemma WholeArgument(r: Word, env: Env, system: System)
    requires Expanded(r) && Quiet(r, "") && env.ifs == Some("")
    ensures AllExpanded(SplitFields(r, env.ifs)) && ArgumentsOf(SplitFields(r, env.ifs), system) == Some([Text(r)])
  {
    CopyKeepsText(r);
    CopyKeepsQuiet(r);
    QuietIsInactive(r);
    var fields := [Copy(r)];
    assert FieldsStr(fields) == [Text(r)];
    QuietPathnames(fields, system.glob);
  }

  lemma {:induction false} QuietIsInactive(w: Word)
    requires Quiet(w, "")
    ensures !NeedsPathnameExpansion(w)
  {
    if w.List? && !w.doubleQuoted {
      forall c | c in w.children ensures !NeedsPathnameExpansion(c) {
        QuietIsInactive(c);
      }
    }
  }

  /** `"pre$@post"` as a command argument. */
  lemma AtSignArguments(pre: string, post: string, env: Env, system: System)
    ensures ExpandWord(List(Around(pre, Param(AT), post), true), env, system)
      == Some(if env.ifs == Some("") then [pre + JoinArgs(env.args, "") + post] else Surround(pre, env.args, post))
  {
    var children := Around(pre, Param(AT), post);
    assert CopyAll(children) == children;
    AroundMeans(pre, Param(AT), post, env);
    DoubleQuotedArguments(children, env, system);
  }
}

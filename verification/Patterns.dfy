/** What the pattern handed to `glob` means: which of its characters are active. */
module Patterns {
  import opened Chars
  import opened Words
  import opened FieldSplitting
  import opened FieldReference
  import opened Expansion
  import opened WordExpansion

  /** The characters that make a string a pattern. */
  predicate IsPatternChar(c: char) {
    c == '*' || c == '?' || c == '[' || c == ']'
  }

  /** A character of a word, quoted or not. */
  datatype Mark = Mark(c: char, quoted: bool)

  /** A character of a pattern: it stands for itself, or it is one of the pattern characters at work. */
  datatype Piece = Piece(c: char, active: bool)

  function MarksOf(s: string, quoted: bool): (r: seq<Mark>)
    ensures |r| == |s|
  {
    if s == "" then [] else [Mark(s[0], quoted)] + MarksOf(s[1..], quoted)
  }

  /** The characters of an expanded word in order, each quoted if a part around it is. */
  function Marks(w: Word, quoted: bool): seq<Mark>
    requires Expanded(w)
    decreases w, 1
  {
    match w
    case Str(str, singleQuoted, _) => MarksOf(str, quoted || singleQuoted)
    case List(children, doubleQuoted) => AllMarks(children, quoted || doubleQuoted)
  }

  function AllMarks(ws: seq<Word>, quoted: bool): seq<Mark>
    requires AllExpanded(ws)
    decreases ws, 0
  {
    if ws == [] then [] else Marks(ws[0], quoted) + AllMarks(ws[1..], quoted)
  }

  /** The pattern is meant to have exactly the unquoted pattern characters active. */
  function Meant(marks: seq<Mark>): (r: seq<Piece>)
    ensures |r| == |marks|
  {
    if marks == [] then []
    else [Piece(marks[0].c, !marks[0].quoted && IsPatternChar(marks[0].c))] + Meant(marks[1..])
  }

  /**
   * What a pattern says (section 2.13.1 of POSIX.1-2017 XCU): a backslash makes the next
   * character stand for itself and goes away; one at the end, which the standard leaves open,
   * stands for itself.
   */
  function Read(pattern: string): seq<Piece> {
    if pattern == "" then []
    else if pattern[0] == '\\' && |pattern| > 1 then [Piece(pattern[1], false)] + Read(pattern[2..])
    else [Piece(pattern[0], IsPatternChar(pattern[0]))] + Read(pattern[1..])
  }

  // -----------------------------------------------------------------------
  // The pattern of a word, mark by mark.

  function Escaped(marks: seq<Mark>): string {
    if marks == [] then ""
    else
      var m := marks[0];
      (if m.quoted && IsPatternChar(m.c) then ['\\', m.c] else [m.c]) + Escaped(marks[1..])
  }

  function Characters(marks: seq<Mark>): (s: string)
    ensures |s| == |marks|
  {
    if marks == [] then "" else [marks[0].c] + Characters(marks[1..])
  }

  lemma {:induction false} EscapedConcat(a: seq<Mark>, b: seq<Mark>)
    ensures Escaped(a + b) == Escaped(a) + Escaped(b)
  {
    hide Escaped;
    if a == [] {
      assert a + b == b && "" + Escaped(b) == Escaped(b);
      NothingWritten();
    } else {
      EscapedConcat(a[1..], b);
      assert (a + b)[1..] == a[1..] + b && (a + b)[0] == a[0];
      EscapedFirst(a);
      EscapedFirst(a + b);
      var x := Escaped([a[0]]);
      assert x + (Escaped(a[1..]) + Escaped(b)) == x + Escaped(a[1..]) + Escaped(b);
    }
  }

  lemma {:induction false} CharactersConcat(a: seq<Mark>, b: seq<Mark>)
    ensures Characters(a + b) == Characters(a) + Characters(b)
  {
    if a == [] {
      assert a + b == b && "" + Characters(b) == Characters(b);
    } else {
      assert Characters(a) == [a[0].c] + Characters(a[1..]) && Characters(a + b) == [(a + b)[0].c] + Characters((a + b)[1..]);
      hide Characters;
      CharactersConcat(a[1..], b);
      assert (a + b)[1..] == a[1..] + b && (a + b)[0] == a[0];
      assert [a[0].c] + (Characters(a[1..]) + Characters(b)) == [a[0].c] + Characters(a[1..]) + Characters(b);
    }
  }

  lemma EscapedFirst(marks: seq<Mark>)
    requires marks != []
    ensures Escaped(marks) == Escaped([marks[0]]) + Escaped(marks[1..])
  {
    assert [marks[0]][1..] == [];
  }

  lemma {:induction false} StringMarks(s: string, quoted: bool)
    ensures Escaped(MarksOf(s, quoted)) == if quoted then EscapeMetachars(s) else s
    ensures Characters(MarksOf(s, quoted)) == s
  {
    if s != "" {
      StringMarks(s[1..], quoted);
      assert MarksOf(s, quoted)[1..] == MarksOf(s[1..], quoted);
    }
  }

  lemma {:induction false} PatternIsEscaped(w: Word, quoted: bool)
    requires Expanded(w)
    ensures Pattern(w, quoted) == Escaped(Marks(w, quoted)) && Characters(Marks(w, quoted)) == Text(w)
    decreases w, 1
  {
    match w
    case Str(str, singleQuoted, _) => StringMarks(str, quoted || singleQuoted);
    case List(children, doubleQuoted) => PatternsAreEscaped(children, quoted || doubleQuoted);
  }

  lemma {:induction false} PatternsAreEscaped(ws: seq<Word>, quoted: bool)
    requires AllExpanded(ws)
    ensures Patterns(ws, quoted) == Escaped(AllMarks(ws, quoted)) && Characters(AllMarks(ws, quoted)) == TextOf(ws)
    decreases ws, 0
  {
    if ws != [] {
      PatternIsEscaped(ws[0], quoted);
      PatternsAreEscaped(ws[1..], quoted);
      EscapedConcat(Marks(ws[0], quoted), AllMarks(ws[1..], quoted));
      CharactersConcat(Marks(ws[0], quoted), AllMarks(ws[1..], quoted));
    }
  }

  // -----------------------------------------------------------------------
  // Reading the escapes back.

  /** Every backslash in the text is its last character. */
  predicate BackslashLast(s: string) {
    forall i :: 0 <= i < |s| - 1 ==> s[i] != '\\'
  }

  /** An unescaped backslash takes the next character of the pattern. */
  lemma ReadAfterBackslash(c: char, rest: string)
    ensures Read(['\\', c] + rest) == [Piece(c, false)] + Read(rest)
  {
    var p := ['\\', c] + rest;
    assert p[0] == '\\' && p[1] == c && p[2..] == rest;
  }

  lemma ReadPlain(c: char, rest: string)
    requires c != '\\' || rest == ""
    ensures Read([c] + rest) == [Piece(c, IsPatternChar(c))] + Read(rest)
  {
    var p := [c] + rest;
    assert p[0] == c && p[1..] == rest;
  }

  predicate HasEscape(m: Mark) {
    m.quoted && IsPatternChar(m.c)
  }

  /** What the next character of a backslash is: the backslash of an escape, or a character of the text. */
  lemma BackslashFirst(m: Mark, m': Mark, rest: seq<Mark>)
    requires m.c == '\\'
    ensures HasEscape(m') ==> Read(Escaped([m, m'] + rest)) == [Piece('\\', false)] + Read([m'.c] + Escaped(rest))
    ensures !HasEscape(m') ==> Read(Escaped([m, m'] + rest)) == [Piece(m'.c, false)] + Read(Escaped(rest))
  {
    var marks := [m, m'] + rest;
    assert marks[1..] == [m'] + rest && ([m'] + rest)[1..] == rest;
    if HasEscape(m') {
      assert Escaped(marks) == ['\\', '\\'] + ([m'.c] + Escaped(rest));
      ReadAfterBackslash('\\', [m'.c] + Escaped(rest));
    } else {
      assert Escaped(marks) == ['\\', m'.c] + Escaped(rest);
      ReadAfterBackslash(m'.c, Escaped(rest));
    }
  }

  lemma OtherFirst(m: Mark, rest: seq<Mark>)
    requires m.c != '\\' || rest == []
    ensures Read(Escaped([m] + rest)) == [Piece(m.c, !m.quoted && IsPatternChar(m.c))] + Read(Escaped(rest))
  {
    assert ([m] + rest)[1..] == rest;
    if HasEscape(m) {
      ReadAfterBackslash(m.c, Escaped(rest));
    } else {
      ReadPlain(m.c, Escaped(rest));
    }
  }

  /** A pattern never says more characters than were written. */
  lemma {:induction false} ReadIsShorter(marks: seq<Mark>)
    ensures |Read(Escaped(marks))| <= |marks|
    decreases |marks|
  {
    hide Read, Escaped, HasEscape;
    if |marks| >= 2 && marks[0].c == '\\' {
      var m, m', rest := marks[0], marks[1], marks[2..];
      assert marks == [m, m'] + rest;
      BackslashFirst(m, m', rest);
      ReadIsShorter(rest);
      if HasEscape(m') {
        EscapedIsNoBackslash(m');
        ReadPlain(m'.c, Escaped(rest));
      }
    } else if marks != [] {
      assert marks == [marks[0]] + marks[1..];
      OtherFirst(marks[0], marks[1..]);
      ReadIsShorter(marks[1..]);
    } else {
      NothingWritten();
    }
  }

  lemma NothingWritten()
    ensures Escaped([]) == "" && Read("") == []
  {
  }

  lemma EscapedIsNoBackslash(m: Mark)
    requires HasEscape(m)
    ensures m.c != '\\' && IsPatternChar(m.c)
  {
  }

  /** A backslash that is not the last character is lost, or lets the quoted character after it go. */
  lemma BackslashIsLost(m: Mark, m': Mark, rest: seq<Mark>)
    requires m.c == '\\'
    ensures Read(Escaped([m, m'] + rest)) != Meant([m, m'] + rest)
  {
    hide Read, Escaped, HasEscape;
    var marks := [m, m'] + rest;
    BackslashFirst(m, m', rest);
    ReadIsShorter(rest);
    if HasEscape(m') {
      EscapedIsNoBackslash(m');
      ReadPlain(m'.c, Escaped(rest));
      assert Read(Escaped(marks))[1] == Piece(m'.c, true);
      SecondMeant(marks);
    }
  }

  lemma SecondMeant(marks: seq<Mark>)
    requires |marks| >= 2 && HasEscape(marks[1])
    ensures Meant(marks)[1] == Piece(marks[1].c, false)
  {
    assert marks[1..] != [];
  }

  lemma {:induction false} ReadsBackIff(marks: seq<Mark>)
    ensures Read(Escaped(marks)) == Meant(marks) <==> BackslashLast(Characters(marks))
    decreases |marks|
  {
    if marks != [] {
      var s := Characters(marks);
      assert s[0] == marks[0].c && s[1..] == Characters(marks[1..]);
      assert Meant(marks) == [Piece(marks[0].c, !marks[0].quoted && IsPatternChar(marks[0].c))] + Meant(marks[1..]);
      hide Read, Escaped, Meant, Characters, BackslashLast;
      if marks[0].c == '\\' && |marks| >= 2 {
        assert marks == [marks[0], marks[1]] + marks[2..];
        BackslashIsLost(marks[0], marks[1], marks[2..]);
        BackslashNotLast(s);
      } else {
        assert marks == [marks[0]] + marks[1..];
        OtherFirst(marks[0], marks[1..]);
        ReadsBackIff(marks[1..]);
        BackslashTail(s);
        SameTail(Meant(marks)[0], Read(Escaped(marks[1..])), Meant(marks[1..]));
      }
    }
  }

  lemma SameTail(p: Piece, a: seq<Piece>, b: seq<Piece>)
    ensures [p] + a == [p] + b <==> a == b
  {
    assert ([p] + a)[1..] == a && ([p] + b)[1..] == b;
  }

  lemma BackslashNotLast(s: string)
    requires |s| >= 2 && s[0] == '\\'
    ensures !BackslashLast(s)
  {
  }

  lemma BackslashTail(s: string)
    requires s != "" && (s[0] != '\\' || |s| == 1)
    ensures BackslashLast(s) <==> BackslashLast(s[1..])
  {
    if BackslashLast(s[1..]) {
      forall i | 0 <= i < |s| - 1 ensures s[i] != '\\' {
        assert i > 0 ==> s[i] == s[1..][i - 1];
      }
    } else {
      var i :| 0 <= i < |s[1..]| - 1 && s[1..][i] == '\\';
      assert s[i + 1] == '\\';
    }
  }

  /**
   * Read with its escapes, the pattern of a word is the word's text with exactly the unquoted
   * pattern characters active, if and only if every backslash in the text is its last character:
   * quoted backslashes get no backslash of their own.
   */
  lemma PatternMeansWordIff(w: Word)
    requires Expanded(w)
    ensures Read(Pattern(w, false)) == Meant(Marks(w, false)) <==> BackslashLast(Text(w))
  {
    PatternIsEscaped(w, false);
    ReadsBackIff(Marks(w, false));
  }

  /** The word `'\'*`: its pattern is an escaped star, so that the unquoted star stands for itself and the backslash is gone. */
  lemma QuotedBackslashHidesStar()
    ensures var w := List([Str("\\", true, false), Str("*", false, false)], false);
      Expanded(w) && NeedsPathnameExpansion(w) && Pattern(w, false) == "\\*"
      && Read(Pattern(w, false)) == [Piece('*', false)] && Meant(Marks(w, false)) == [Piece('\\', false), Piece('*', true)]
  {
    var a, b := Str("\\", true, false), Str("*", false, false);
    var w := List([a, b], false);
    assert [a, b][1..] == [b] && [b][1..] == [];
    assert EscapeMetachars("\\") == "\\";
    assert Patterns([b], false) == "*";
    assert Pattern(w, false) == Patterns([a, b], false) == "\\*";
    assert "\\*"[2..] == "";
    assert Read("\\*") == [Piece('*', false)] + Read("");
    assert b in w.children && NeedsPathnameExpansion(b) by { assert '*' in "*" by { assert "*"[0] == '*'; } }
    assert Marks(a, false) == [Mark('\\', true)] && Marks(b, false) == [Mark('*', false)];
    assert AllMarks([b], false) == [Mark('*', false)];
    var marks := [Mark('\\', true), Mark('*', false)];
    assert Marks(w, false) == AllMarks([a, b], false) == marks;
    assert marks[1..] == [Mark('*', false)];
  }

  // -----------------------------------------------------------------------
  // When `glob` is asked.

  lemma MeantFirst(marks: seq<Mark>)
    requires marks != []
    ensures Meant(marks) == Meant([marks[0]]) + Meant(marks[1..])
  {
    assert [marks[0]][1..] == [];
  }

  lemma {:induction false} MeantConcat(a: seq<Mark>, b: seq<Mark>)
    ensures Meant(a + b) == Meant(a) + Meant(b)
  {
    if a == [] {
      assert a + b == b && [] + Meant(b) == Meant(b);
    } else {
      hide Meant;
      MeantConcat(a[1..], b);
      assert (a + b)[1..] == a[1..] + b && (a + b)[0] == a[0];
      MeantFirst(a);
      MeantFirst(a + b);
      var x := Meant([a[0]]);
      assert x + (Meant(a[1..]) + Meant(b)) == x + Meant(a[1..]) + Meant(b);
    }
  }

  predicate AnyActive(pieces: seq<Piece>) {
    exists p <- pieces :: p.active
  }

  lemma AnyActiveConcat(a: seq<Piece>, b: seq<Piece>)
    ensures AnyActive(a + b) <==> AnyActive(a) || AnyActive(b)
  {
    assert forall p :: p in a + b <==> p in a || p in b;
  }

  lemma {:induction false} StringActive(s: string, quoted: bool)
    ensures AnyActive(Meant(MarksOf(s, quoted))) <==> !quoted && HasMetachar(s)
  {
    if s != "" {
      StringActive(s[1..], quoted);
      var first := Piece(s[0], !quoted && IsPatternChar(s[0]));
      assert MarksOf(s, quoted)[1..] == MarksOf(s[1..], quoted);
      assert Meant(MarksOf(s, quoted)) == [first] + Meant(MarksOf(s[1..], quoted));
      AnyActiveConcat([first], Meant(MarksOf(s[1..], quoted)));
      assert AnyActive([first]) <==> first.active by { assert first in [first]; }
      HasMetacharTail(s);
    }
  }

  lemma HasMetacharTail(s: string)
    requires s != ""
    ensures HasMetachar(s) <==> IsPatternChar(s[0]) || HasMetachar(s[1..])
  {
    assert s[0] in s;
    assert forall c :: c in s <==> c == s[0] || c in s[1..];
  }

  lemma {:induction false} QuotedIsInactive(w: Word)
    requires Expanded(w)
    ensures !AnyActive(Meant(Marks(w, true)))
    decreases w, 1
  {
    match w
    case Str(str, _, _) => StringActive(str, true);
    case List(children, _) => AllQuotedAreInactive(children);
  }

  lemma {:induction false} AllQuotedAreInactive(ws: seq<Word>)
    requires AllExpanded(ws)
    ensures !AnyActive(Meant(AllMarks(ws, true)))
    decreases ws, 0
  {
    if ws != [] {
      QuotedIsInactive(ws[0]);
      AllQuotedAreInactive(ws[1..]);
      MeantConcat(Marks(ws[0], true), AllMarks(ws[1..], true));
      AnyActiveConcat(Meant(Marks(ws[0], true)), Meant(AllMarks(ws[1..], true)));
    }
  }

  /** Pathname expansion is wanted exactly when some pattern character is meant to be active. */
  lemma {:induction false} GlobIsAskedIff(w: Word)
    requires Expanded(w)
    ensures NeedsPathnameExpansion(w) <==> AnyActive(Meant(Marks(w, false)))
    decreases w, 1
  {
    match w
    case Str(str, singleQuoted, _) => StringActive(str, singleQuoted);
    case List(children, doubleQuoted) =>
      if doubleQuoted {
        QuotedIsInactive(w.(doubleQuoted := true));
        assert Marks(w, true) == Marks(w, false);
      } else {
        SomeGlobIsAskedIff(children);
      }
  }

  lemma {:induction false} SomeGlobIsAskedIff(ws: seq<Word>)
    requires AllExpanded(ws)
    ensures (exists w <- ws :: NeedsPathnameExpansion(w)) <==> AnyActive(Meant(AllMarks(ws, false)))
    decreases ws, 0
  {
    if ws != [] {
      GlobIsAskedIff(ws[0]);
      SomeGlobIsAskedIff(ws[1..]);
      MeantConcat(Marks(ws[0], false), AllMarks(ws[1..], false));
      AnyActiveConcat(Meant(Marks(ws[0], false)), Meant(AllMarks(ws[1..], false)));
      assert forall w :: w in ws <==> w == ws[0] || w in ws[1..];
    }
  }

  // -----------------------------------------------------------------------
  // The arguments of a field, by its characters.

  /** What `glob` says of a field; nothing if it is not asked. */
  function Asked(marks: seq<Mark>, system: System): Option<GlobResult> {
    if !system.noGlob && exists m <- marks :: !m.quoted && IsPatternChar(m.c) then Some(system.glob(Escaped(marks))) else None
  }

  /** The arguments of one field: the paths found, or its text if `glob` is not asked or finds nothing. */
  function Own(f: Word, system: System): seq<string>
    requires Expanded(f)
  {
    match Asked(Marks(f, false), system)
    case Some(Matches(paths)) => paths
    case _ => [Characters(Marks(f, false))]
  }

  function OwnOfEach(fields: seq<Word>, system: System): (r: seq<seq<string>>)
    requires AllExpanded(fields)
  {
    seq(|fields|, i requires 0 <= i < |fields| => Own(fields[i], system))
  }

  function Flat(lists: seq<seq<string>>): seq<string> {
    if lists == [] then [] else lists[0] + Flat(lists[1..])
  }

  ghost predicate SomeGlobFails(fields: seq<Word>, system: System)
    requires AllExpanded(fields)
  {
    exists f <- fields :: Asked(Marks(f, false), system) == Some(GlobError)
  }

  lemma {:induction false} ActiveByMarks(marks: seq<Mark>)
    ensures AnyActive(Meant(marks)) <==> exists m <- marks :: !m.quoted && IsPatternChar(m.c)
  {
    if marks != [] {
      ActiveByMarks(marks[1..]);
      var first := Piece(marks[0].c, !marks[0].quoted && IsPatternChar(marks[0].c));
      AnyActiveConcat([first], Meant(marks[1..]));
      assert AnyActive([first]) <==> first.active by { assert first in [first]; }
      assert forall m :: m in marks <==> m == marks[0] || m in marks[1..];
    }
  }

  /** What a single field does in the recursion. */
  lemma OwnIs(f: Word, system: System)
    requires Expanded(f)
    ensures Characters(Marks(f, false)) == Text(f)
    ensures Asked(Marks(f, false), system)
      == if !system.noGlob && NeedsPathnameExpansion(f) then Some(system.glob(Pattern(f, false))) else None
  {
    PatternIsEscaped(f, false);
    GlobIsAskedIff(f);
    ActiveByMarks(Marks(f, false));
  }

  lemma ArgumentsFirst(fields: seq<Word>, system: System)
    requires AllExpanded(fields) && fields != []
    ensures var rest := ArgumentsOf(fields[1..], system);
      ArgumentsOf(fields, system) ==
        if Asked(Marks(fields[0], false), system) == Some(GlobError) || rest.None? then None
        else Some(Own(fields[0], system) + rest.value)
  {
    hide Marks, Escaped, Characters, Pattern, NeedsPathnameExpansion, Text, Asked;
    OwnIs(fields[0], system);
    if system.noGlob {
      assert FieldsStr(fields) == [Text(fields[0])] + FieldsStr(fields[1..]);
    } else {
      hide FieldsStr, SomeGlobFails, OwnOfEach, Flat;
    }
  }

  lemma OwnOfFirst(fields: seq<Word>, system: System)
    requires AllExpanded(fields) && fields != []
    ensures Flat(OwnOfEach(fields, system)) == Own(fields[0], system) + Flat(OwnOfEach(fields[1..], system))
    ensures SomeGlobFails(fields, system)
      <==> Asked(Marks(fields[0], false), system) == Some(GlobError) || SomeGlobFails(fields[1..], system)
  {
    hide Own, Asked;
    assert OwnOfEach(fields, system)[1..] == OwnOfEach(fields[1..], system);
    assert forall f :: f in fields <==> f == fields[0] || f in fields[1..];
  }

  /**
   * All fields: the arguments are those of each field, one list after another; an error exactly
   * if `glob` fails for a field it is asked about.
   */
  lemma {:induction false} PathnamesAre(fields: seq<Word>, system: System)
    requires AllExpanded(fields)
    ensures ArgumentsOf(fields, system)
      == if SomeGlobFails(fields, system) then None else Some(Flat(OwnOfEach(fields, system)))
  {
    if fields == [] {
      assert FieldsStr(fields) == [] && OwnOfEach(fields, system) == [];
    } else {
      hide ArgumentsOf, Own, Asked, OwnOfEach, Flat, SomeGlobFails;
      PathnamesAre(fields[1..], system);
      ArgumentsFirst(fields, system);
      OwnOfFirst(fields, system);
    }
  }

  lemma StringsNameNothing(a: Word, b: Word)
    requires a.Str? && b.Str?
    ensures Names(List([a, b], false)) == {}
  {
    var ws := [a, b];
    assert ws[1..] == [b] && [b][1..] == [];
    assert AllNames([b]) == Names(b) + AllNames([]) && AllNames(ws) == Names(a) + AllNames([b]);
  }

  lemma {:induction false} TildeKeepsNames(w: Word, homes: map<string, string>, first: bool, last: bool)
    ensures Names(ExpandTilde(Copy(w), homes, first, last)) == Names(w)
    decreases w, 1
  {
    match w
    case Str(str, _, _) =>
      var t := TildeAt(str, last, homes);
      if t.Some? {
        StringsNameNothing(Str(t.value.0, true, false), Str(str[t.value.1..], false, false));
      }
    case Param(_) =>
    case List(children, doubleQuoted) =>
      if doubleQuoted {
        CopiesKeepNames(children);
      } else {
        TildesKeepNames(children, homes, first, last);
      }
  }

  lemma {:induction false} TildesKeepNames(ws: seq<Word>, homes: map<string, string>, first: bool, last: bool)
    ensures AllNames(ExpandTildes(CopyAll(ws), homes, first, last)) == AllNames(ws)
    decreases ws, 0
  {
    if ws != [] {
      TildeKeepsNames(ws[0], homes, first, last && |ws| == 1);
      TildesKeepNames(ws[1..], homes, false, last);
      assert CopyAll(ws)[1..] == CopyAll(ws[1..]);
    }
  }

  /** The copy of a word has the same characters, quoted where they were. */
  lemma {:induction false} CopyKeepsMarks(w: Word, quoted: bool)
    requires Expanded(w)
    ensures Expanded(Copy(w)) && Marks(Copy(w), quoted) == Marks(w, quoted)
    decreases w, 1
  {
    if w.List? {
      CopiesKeepMarks(w.children, quoted || w.doubleQuoted);
    }
  }

  lemma {:induction false} CopiesKeepMarks(ws: seq<Word>, quoted: bool)
    requires AllExpanded(ws)
    ensures AllExpanded(CopyAll(ws)) && AllMarks(CopyAll(ws), quoted) == AllMarks(ws, quoted)
    decreases ws, 0
  {
    if ws != [] {
      CopyKeepsMarks(ws[0], quoted);
      CopiesKeepMarks(ws[1..], quoted);
      assert CopyAll(ws)[1..] == CopyAll(ws[1..]);
    }
  }

  lemma {:induction false} CopiesKeepNames(ws: seq<Word>)
    ensures AllNames(CopyAll(ws)) == AllNames(ws)
    decreases ws, 0
  {
    if ws != [] {
      if ws[0].List? {
        CopiesKeepNames(ws[0].children);
      }
      CopiesKeepNames(ws[1..]);
      assert CopyAll(ws)[1..] == CopyAll(ws[1..]);
    }
  }

  /** From the word: the fields are those that splitting makes of the expanded word. */
  lemma ExpandWordArguments(w: Word, env: Env, system: System)
    ensures var r := RunWord(ExpandTilde(Copy(w), system.homes, true, true), env, false);
      if env.nounset && SomeUnset(Names(w), env) then ExpandWord(w, env, system) == None
      else
        r.Some? && Expanded(r.value) && AllExpanded(SplitFields(r.value, env.ifs))
        && var fields := SplitFields(r.value, env.ifs);
          ExpandWord(w, env, system)
            == if SomeGlobFails(fields, system) then None else Some(Flat(OwnOfEach(fields, system)))
  {
    var t := ExpandTilde(Copy(w), system.homes, true, true);
    var r := RunWord(t, env, false);
    UnboundIff(t, env, false);
    TildeKeepsNames(w, system.homes, true, true);
    if r.Some? {
      RunWordMeans(t, env, false);
      SplittingStaysExpanded(r.value, env.ifs);
      PathnamesAre(SplitFields(r.value, env.ifs), system);
    }
  }
}

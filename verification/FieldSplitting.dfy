/** Field splitting (`split_fields`), section 2.6.5 of POSIX.1-2017 XCU. */
module FieldSplitting {
  import opened Chars
  import opened Words

  const DEFAULT_IFS := " \t\n"

  /** `split_fields_data`: fields so far, is one of them still open, and the two flags. */
  datatype Split = Split(fields: seq<seq<Word>>, open: bool, inIfs: bool, inNonSpace: bool)

  const START := Split([], false, true, false)

  ghost predicate Coherent(st: Split) {
    && (st.open ==> st.fields != [])
    && (!st.inIfs ==> st.open)
    && forall f <- st.fields :: AllExpanded(f)
  }

  function AddWord(st: Split, w: Word): (r: Split)
    requires st.open ==> st.fields != []
    ensures r.open && r.fields != []
  {
    if st.open then
      var last := |st.fields| - 1;
      st.(fields := st.fields[last := st.fields[last] + [w]])
    else
      st.(fields := st.fields + [[w]], open := true)
  }

  /** Is IFS character `c` met in state `st` the end of a field? */
  predicate Delimits(inIfs: bool, inNonSpace: bool, c: char) {
    !inIfs || (!IsSpace(c) && inNonSpace)
  }

  /** The loop over a splittable string, with the text `buf` read since the last delimiter. */
  function SplitChars(s: string, ifs: string, buf: string, st: Split): (r: Split)
    requires st.open ==> st.fields != []
    ensures r.open ==> r.fields != []
  {
    if s == [] then
      if st.inIfs then st else AddWord(st, Str(buf, false, false))
    else if s[0] !in ifs then
      SplitChars(s[1..], ifs, buf + [s[0]], st.(inIfs := false, inNonSpace := false))
    else if Delimits(st.inIfs, st.inNonSpace, s[0]) then
      SplitChars(s[1..], ifs, "", AddWord(st, Str(buf, false, false)).(open := false, inIfs := true))
    else
      SplitChars(s[1..], ifs, buf, if IsSpace(s[0]) then st else st.(inNonSpace := true))
  }

  function SplitWord(w: Word, ifs: string, st: Split): (r: Split)
    requires Expanded(w)
    requires st.open ==> st.fields != []
    ensures r.open ==> r.fields != []
    decreases w, 1
  {
    match w
    case Str(str, singleQuoted, splitFields) =>
      if singleQuoted || !splitFields then
        AddWord(st, Copy(w)).(inIfs := false, inNonSpace := false)
      else
        SplitChars(str, ifs, "", st)
    case List(children, doubleQuoted) =>
      if doubleQuoted then AddWord(st, Copy(w)) else SplitWords(children, ifs, st)
  }

  function SplitWords(ws: seq<Word>, ifs: string, st: Split): (r: Split)
    requires AllExpanded(ws)
    requires st.open ==> st.fields != []
    ensures r.open ==> r.fields != []
    decreases ws, 0
  {
    if ws == [] then st else SplitWords(ws[1..], ifs, SplitWord(ws[0], ifs, st))
  }

  function AsLists(fields: seq<seq<Word>>): seq<Word> {
    seq(|fields|, i requires 0 <= i < |fields| => List(fields[i], false))
  }

  /** The whole operation: IFS unset means blanks and newlines, IFS empty means no splitting. */
  function SplitFields(w: Word, ifs: Option<string>): seq<Word>
    requires Expanded(w)
  {
    if ifs == Some("") then [Copy(w)]
    else AsLists(SplitWord(w, if ifs.Some? then ifs.value else DEFAULT_IFS, START).fields)
  }

  // -----------------------------------------------------------------------
  // Reference: one left-to-right scan of the flattened word.

  /** The characters that separate fields: a blank, a tab and a newline if IFS is unset. */
  function Separators(ifs: Option<string>): string {
    match ifs
    case None => " \t\n"
    case Some(chars) => chars
  }

  /** A character that may be split, or a text that may not. */
  datatype Atom = Ch(c: char) | Keep(text: string, inDoubleQuotes: bool)

  function Splittable(s: string): seq<Atom> {
    seq(|s|, i requires 0 <= i < |s| => Ch(s[i]))
  }

  function Flatten(w: Word): seq<Atom>
    requires Expanded(w)
    decreases w, 1
  {
    match w
    case Str(str, singleQuoted, splitFields) =>
      if singleQuoted || !splitFields then [Keep(str, false)] else Splittable(str)
    case List(children, doubleQuoted) =>
      if doubleQuoted then [Keep(TextOf(children), true)] else FlattenAll(children)
  }

  function FlattenAll(ws: seq<Word>): seq<Atom>
    requires AllExpanded(ws)
    decreases ws, 0
  {
    if ws == [] then [] else Flatten(ws[0]) + FlattenAll(ws[1..])
  }

  /** The scan only keeps the field texts. */
  datatype Scan = Scan(texts: seq<string>, open: bool, inIfs: bool, inNonSpace: bool)

  function AddText(st: Scan, text: string): (r: Scan)
    requires st.open ==> st.texts != []
    ensures r.open && r.texts != []
  {
    if st.open then
      var last := |st.texts| - 1;
      st.(texts := st.texts[last := st.texts[last] + text])
    else
      st.(texts := st.texts + [text], open := true)
  }

  function Step(a: Atom, ifs: string, st: Scan): (r: Scan)
    requires st.open ==> st.texts != []
    ensures r.open ==> r.texts != []
  {
    match a
    case Keep(text, inDoubleQuotes) =>
      var st' := AddText(st, text);
      if inDoubleQuotes then st' else st'.(inIfs := false, inNonSpace := false)
    case Ch(c) =>
      if c !in ifs then
        AddText(st, [c]).(inIfs := false, inNonSpace := false)
      else if Delimits(st.inIfs, st.inNonSpace, c) then
        AddText(st, "").(open := false, inIfs := true)
      else if IsSpace(c) then st
      else st.(inNonSpace := true)
  }

  function ScanAll(atoms: seq<Atom>, ifs: string, st: Scan): (r: Scan)
    requires st.open ==> st.texts != []
    ensures r.open ==> r.texts != []
  {
    if atoms == [] then st else ScanAll(atoms[1..], ifs, Step(atoms[0], ifs, st))
  }

  const SCAN_START := Scan([], false, true, false)

  lemma {:induction false} ScanConcat(a: seq<Atom>, b: seq<Atom>, ifs: string, st: Scan)
    requires st.open ==> st.texts != []
    ensures ScanAll(a + b, ifs, st) == ScanAll(b, ifs, ScanAll(a, ifs, st))
  {
    if a == [] {
      assert a + b == b;
    } else {
      ScanConcat(a[1..], b, ifs, Step(a[0], ifs, st));
      assert (a + b)[1..] == a[1..] + b;
    }
  }

  // -----------------------------------------------------------------------
  // The tree walk computes the same field texts as the scan.

  function TextsOf(fields: seq<seq<Word>>): (r: seq<string>)
    requires forall f <- fields :: AllExpanded(f)
    ensures |r| == |fields|
  {
    seq(|fields|, i requires 0 <= i < |fields| => TextOf(fields[i]))
  }

  function ScanOf(st: Split): Scan
    requires forall f <- st.fields :: AllExpanded(f)
  {
    Scan(TextsOf(st.fields), st.open, st.inIfs, st.inNonSpace)
  }

  lemma AddWordIsAddText(st: Split, w: Word)
    requires st.open ==> st.fields != []
    requires forall f <- st.fields :: AllExpanded(f)
    requires Expanded(w)
    ensures forall f <- AddWord(st, w).fields :: AllExpanded(f)
    ensures ScanOf(AddWord(st, w)) == AddText(ScanOf(st), Text(w))
  {
    var r := AddWord(st, w);
    assert TextOf([w]) == Text(w);
    if st.open {
      TextOfConcat(st.fields[|st.fields| - 1], [w]);
      assert r.fields[|st.fields| - 1] == st.fields[|st.fields| - 1] + [w];
    }
    assert TextsOf(r.fields) == AddText(ScanOf(st), Text(w)).texts;
  }

  /** The scan state that corresponds to the string loop with `buf` still unflushed. */
  function Pending(st: Split, buf: string): Scan
    requires st.open ==> st.fields != []
    requires forall f <- st.fields :: AllExpanded(f)
  {
    if st.inIfs then ScanOf(st) else AddText(ScanOf(st), buf)
  }

  lemma PlainCharIsStep(c: char, ifs: string, buf: string, st: Split)
    requires st.open ==> st.fields != []
    requires forall f <- st.fields :: AllExpanded(f)
    requires (if st.inIfs then buf == "" else st.open || buf != "") && c !in ifs
    ensures Pending(st.(inIfs := false, inNonSpace := false), buf + [c]) == Step(Ch(c), ifs, Pending(st, buf))
  {
    if st.inIfs {
      assert buf + [c] == [c];
    } else {
      AddTextTwice(ScanOf(st), buf, [c]);
    }
  }

  lemma DelimiterIsStep(c: char, ifs: string, buf: string, st: Split)
    requires st.open ==> st.fields != []
    requires forall f <- st.fields :: AllExpanded(f)
    requires (if st.inIfs then buf == "" else st.open || buf != "") && c in ifs && Delimits(st.inIfs, st.inNonSpace, c)
    ensures var st' := AddWord(st, Str(buf, false, false)).(open := false, inIfs := true);
      (forall f <- st'.fields :: AllExpanded(f)) && Pending(st', "") == Step(Ch(c), ifs, Pending(st, buf))
  {
    hide IsSpace;
    AddWordIsAddText(st, Str(buf, false, false));
    if !st.inIfs {
      var t := AddText(ScanOf(st), buf);
      assert t.texts[|t.texts| - 1] + "" == t.texts[|t.texts| - 1];
      assert AddText(t, "") == t;
    }
  }

  lemma OtherSeparatorIsStep(c: char, ifs: string, buf: string, st: Split)
    requires st.open ==> st.fields != []
    requires forall f <- st.fields :: AllExpanded(f)
    requires (if st.inIfs then buf == "" else st.open || buf != "") && c in ifs && !Delimits(st.inIfs, st.inNonSpace, c)
    ensures var st' := if IsSpace(c) then st else st.(inNonSpace := true);
      Pending(st', buf) == Step(Ch(c), ifs, Pending(st, buf))
  {
    hide IsSpace;
  }

  lemma {:induction false} SplitCharsIsScan(s: string, ifs: string, buf: string, st: Split)
    requires st.open ==> st.fields != []
    requires forall f <- st.fields :: AllExpanded(f)
    requires if st.inIfs then buf == "" else st.open || buf != ""
    ensures Coherent(SplitChars(s, ifs, buf, st))
    ensures ScanOf(SplitChars(s, ifs, buf, st)) == ScanAll(Splittable(s), ifs, Pending(st, buf))
  {
    hide IsSpace;
    var w := Str(buf, false, false);
    if s == [] {
      AddWordIsAddText(st, w);
    } else {
      assert Splittable(s)[0] == Ch(s[0]) && Splittable(s)[1..] == Splittable(s[1..]);
      hide Pending, Step, Coherent, ScanOf, Splittable;
      if s[0] !in ifs {
        PlainCharIsStep(s[0], ifs, buf, st);
        SplitCharsIsScan(s[1..], ifs, buf + [s[0]], st.(inIfs := false, inNonSpace := false));
      } else if Delimits(st.inIfs, st.inNonSpace, s[0]) {
        DelimiterIsStep(s[0], ifs, buf, st);
        SplitCharsIsScan(s[1..], ifs, "", AddWord(st, w).(open := false, inIfs := true));
      } else {
        OtherSeparatorIsStep(s[0], ifs, buf, st);
        SplitCharsIsScan(s[1..], ifs, buf, if IsSpace(s[0]) then st else st.(inNonSpace := true));
      }
    }
  }

  /** Main result: walking the tree gives the field texts of one scan of the flattened word. */
  lemma {:induction false} WalkIsScan(w: Word, ifs: string, st: Split)
    requires Expanded(w) && Coherent(st)
    ensures Coherent(SplitWord(w, ifs, st))
    ensures ScanOf(SplitWord(w, ifs, st)) == ScanAll(Flatten(w), ifs, ScanOf(st))
    decreases w, 1
  {
    hide IsSpace;
    match w
    case Str(str, singleQuoted, splitFields) =>
      if singleQuoted || !splitFields {
        AddWordIsAddText(st, Copy(w));
        assert ScanAll([Keep(str, false)], ifs, ScanOf(st)) == Step(Keep(str, false), ifs, ScanOf(st));
      } else {
        SplitCharsIsScan(str, ifs, "", st);
        if !st.inIfs {
          AddEmptyText(ScanOf(st));
        }
      }
    case List(children, doubleQuoted) =>
      if doubleQuoted {
        CopyKeepsText(w);
        AddWordIsAddText(st, Copy(w));
        var k := Keep(TextOf(children), true);
        assert ScanAll([k], ifs, ScanOf(st)) == Step(k, ifs, ScanOf(st));
      } else {
        WalksAreScan(children, ifs, st);
      }
  }

  lemma {:induction false} WalksAreScan(ws: seq<Word>, ifs: string, st: Split)
    requires AllExpanded(ws) && Coherent(st)
    ensures Coherent(SplitWords(ws, ifs, st))
    ensures ScanOf(SplitWords(ws, ifs, st)) == ScanAll(FlattenAll(ws), ifs, ScanOf(st))
    decreases ws, 0
  {
    if ws != [] {
      WalkIsScan(ws[0], ifs, st);
      WalksAreScan(ws[1..], ifs, SplitWord(ws[0], ifs, st));
      ScanConcat(Flatten(ws[0]), FlattenAll(ws[1..]), ifs, ScanOf(st));
    }
  }

  lemma AddTextTwice(st: Scan, a: string, b: string)
    requires st.open ==> st.texts != []
    ensures AddText(AddText(st, a), b) == AddText(st, a + b)
  {
    if st.open {
      var last := st.texts[|st.texts| - 1];
      assert last + a + b == last + (a + b);
    }
    assert AddText(AddText(st, a), b).texts == AddText(st, a + b).texts;
  }

  lemma AddEmptyText(st: Scan)
    requires st.open && st.texts != []
    ensures AddText(st, "") == st
  {
    assert st.texts[|st.texts| - 1] + "" == st.texts[|st.texts| - 1];
  }
}

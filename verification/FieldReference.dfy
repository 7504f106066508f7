/**
 * What field splitting promises, against references that know nothing of its flags:
 * conservation of text, quoted parts left whole, and section 2.6.5 of POSIX.1-2017 XCU.
 */
module FieldReference {
  import opened Chars
  import opened Words
  import opened FieldSplitting

  /** The field texts of a word (`split_fields`, then `get_fields_str`). */
  function FieldTexts(w: Word, ifs: Option<string>): (r: seq<string>)
    requires Expanded(w)
  {
    SplittingStaysExpanded(w, ifs);
    FieldsStr(SplitFields(w, ifs))
  }

  function FieldsStr(fields: seq<Word>): (r: seq<string>)
    requires AllExpanded(fields)
  {
    seq(|fields|, i requires 0 <= i < |fields| => Text(fields[i]))
  }

  lemma ListsAreExpanded(fields: seq<seq<Word>>)
    requires forall f <- fields :: AllExpanded(f)
    ensures AllExpanded(AsLists(fields)) && FieldsStr(AsLists(fields)) == TextsOf(fields)
  {
    var lists := AsLists(fields);
    forall i | 0 <= i < |fields| ensures Expanded(lists[i]) && Text(lists[i]) == TextOf(fields[i]) {
      assert lists[i] == List(fields[i], false) && fields[i] in fields;
    }
  }

  /** The fields themselves hold no parameter. */
  lemma SplittingStaysExpanded(w: Word, ifs: Option<string>)
    requires Expanded(w)
    ensures AllExpanded(SplitFields(w, ifs))
  {
    CopyKeepsText(w);
    WalkIsScan(w, Separators(ifs), START);
    ListsAreExpanded(SplitWord(w, Separators(ifs), START).fields);
  }

  /** The field texts are those of one scan of the flattened word. */
  lemma FieldTextsAreScan(w: Word, ifs: Option<string>)
    requires Expanded(w) && ifs != Some("")
    ensures FieldTexts(w, ifs) == ScanAll(Flatten(w), Separators(ifs), SCAN_START).texts
  {
    WalkIsScan(w, Separators(ifs), START);
    assert ScanOf(START) == SCAN_START;
    ListsAreExpanded(SplitWord(w, Separators(ifs), START).fields);
  }

  /** Cutting splittable text into children, nesting or padding it changes no field. */
  lemma SameFlatteningSameFields(w: Word, w': Word, ifs: Option<string>)
    requires Expanded(w) && Expanded(w') && ifs != Some("")
    requires Flatten(w) == Flatten(w')
    ensures FieldTexts(w, ifs) == FieldTexts(w', ifs)
  {
    FieldTextsAreScan(w, ifs);
    FieldTextsAreScan(w', ifs);
  }

  // -----------------------------------------------------------------------
  // Conservation.

  function Joined(texts: seq<string>): string {
    if texts == [] then "" else texts[0] + Joined(texts[1..])
  }

  /** The text of the atoms without the IFS characters that may be split on. */
  function Kept(atoms: seq<Atom>, ifs: string): string {
    if atoms == [] then "" else
      (match atoms[0]
       case Keep(text, _) => text
       case Ch(c) => if c in ifs then "" else [c]) + Kept(atoms[1..], ifs)
  }

  lemma {:induction false} JoinedConcat(a: seq<string>, b: seq<string>)
    ensures Joined(a + b) == Joined(a) + Joined(b)
  {
    if a == [] {
      assert a + b == b;
    } else {
      JoinedConcat(a[1..], b);
      assert (a + b)[1..] == a[1..] + b && (a + b)[0] == a[0];
      assert a[0] + (Joined(a[1..]) + Joined(b)) == a[0] + Joined(a[1..]) + Joined(b);
    }
  }

  lemma JoinedAddText(st: Scan, text: string)
    requires st.open ==> st.texts != []
    ensures Joined(AddText(st, text).texts) == Joined(st.texts) + text
  {
    hide IsSpace, Empties;
    assert Joined([text]) == text;
    if st.open {
      var init, last := st.texts[..|st.texts| - 1], st.texts[|st.texts| - 1];
      assert st.texts == init + [last];
      assert AddText(st, text).texts == init + [last + text];
      JoinedConcat(init, [last]);
      JoinedConcat(init, [last + text]);
      assert Joined([last]) == last && Joined([last + text]) == last + text;
      assert Joined(init) + last + text == Joined(init) + (last + text);
    } else {
      JoinedConcat(st.texts, [text]);
    }
  }

  lemma {:induction false} ScanConserves(atoms: seq<Atom>, ifs: string, st: Scan)
    requires st.open ==> st.texts != []
    ensures Joined(ScanAll(atoms, ifs, st).texts) == Joined(st.texts) + Kept(atoms, ifs)
  {
    hide IsSpace, Empties;
    if atoms != [] {
      ScanConserves(atoms[1..], ifs, Step(atoms[0], ifs, st));
      match atoms[0]
      case Keep(text, _) => JoinedAddText(st, text);
      case Ch(c) => JoinedAddText(st, if c in ifs then "" else [c]);
    }
  }

  /** Exactly the IFS characters of splittable unquoted strings are deleted. */
  lemma SplittingConservesText(w: Word, ifs: Option<string>)
    requires Expanded(w) && ifs != Some("")
    ensures Joined(FieldTexts(w, ifs)) == Kept(Flatten(w), Separators(ifs))
  {
    FieldTextsAreScan(w, ifs);
    ScanConserves(Flatten(w), Separators(ifs), SCAN_START);
  }

  /** Only the last field may still grow, at its end; the others stay as they are. */
  ghost predicate Extends(texts: seq<string>, texts': seq<string>) {
    texts == [] ||
    var n := |texts| - 1;
    |texts| <= |texts'| && texts'[..n] == texts[..n] && texts[n] <= texts'[n]
  }

  lemma StepExtends(a: Atom, ifs: string, st: Scan)
    requires st.open ==> st.texts != []
    ensures Extends(st.texts, Step(a, ifs, st).texts)
  {
    hide IsSpace;
  }

  lemma ExtendsTwice(a: seq<string>, b: seq<string>, c: seq<string>)
    requires Extends(a, b) && Extends(b, c)
    ensures Extends(a, c)
  {
    if a != [] {
      var n, m := |a| - 1, |b| - 1;
      assert c[..n] == c[..m][..n] && b[..n] == b[..m][..n];
      assert n < m ==> c[n] == c[..m][n] && b[n] == b[..m][n];
    }
  }

  lemma {:induction false} ScanExtends(atoms: seq<Atom>, ifs: string, st: Scan)
    requires st.open ==> st.texts != []
    ensures Extends(st.texts, ScanAll(atoms, ifs, st).texts)
  {
    if atoms != [] {
      var st' := Step(atoms[0], ifs, st);
      assert ScanAll(atoms, ifs, st) == ScanAll(atoms[1..], ifs, st');
      StepExtends(atoms[0], ifs, st);
      hide *;
      ScanExtends(atoms[1..], ifs, st');
      ExtendsTwice(st.texts, st'.texts, ScanAll(atoms, ifs, st).texts);
    }
  }

  /** Kept text goes, whole, to the end of the last field, after all text kept before it. */
  lemma KeepGoesLast(before: Scan, text: string) returns (i: nat, a: string)
    requires before.open ==> before.texts != []
    ensures var texts := AddText(before, text).texts;
      |texts| == i + 1 && texts[i] == a + text && Joined(texts[..i]) + a == Joined(before.texts)
  {
    if before.open {
      i := |before.texts| - 1;
      a := before.texts[i];
      assert before.texts == before.texts[..i] + [a];
      JoinedConcat(before.texts[..i], [a]);
      assert [a][1..] == [] && Joined([]) == "" && a + "" == a;
      assert AddText(before, text).texts[..i] == before.texts[..i];
    } else {
      i, a := |before.texts|, "";
      assert AddText(before, text).texts[..i] == before.texts;
      assert Joined(before.texts) + "" == Joined(before.texts);
    }
  }

  lemma KeepStaysWhole(atoms: seq<Atom>, k: nat, ifs: string) returns (i: nat, a: string, b: string)
    requires k < |atoms| && atoms[k].Keep?
    ensures var texts := ScanAll(atoms, ifs, SCAN_START).texts;
      i < |texts| && texts[i] == a + atoms[k].text + b && Joined(texts[..i]) + a == Kept(atoms[..k], ifs)
  {
    var before := ScanAll(atoms[..k], ifs, SCAN_START);
    var after := Step(atoms[k], ifs, before);
    var rest := atoms[k + 1..];
    ScanConserves(atoms[..k], ifs, SCAN_START);
    ScanConcat(atoms[..k], atoms[k..], ifs, SCAN_START);
    assert atoms == atoms[..k] + atoms[k..] && atoms[k..][1..] == rest && atoms[k..][0] == atoms[k];
    var texts := ScanAll(atoms, ifs, SCAN_START).texts;
    assert texts == ScanAll(rest, ifs, after).texts;
    assert Joined([]) == "" && "" + Kept(atoms[..k], ifs) == Kept(atoms[..k], ifs);
    ScanExtends(rest, ifs, after);
    i, a := KeepGoesLast(before, atoms[k].text);
    hide ScanAll, AddText, Joined, Kept;
    assert texts[..i] == after.texts[..i];
    b := texts[i][|after.texts[i]|..];
  }

  /**
   * A quoted part is found whole inside one field, and exactly in its place: the fields before
   * and what comes before it in its own field are the text kept of what comes before it.
   */
  lemma QuotedPartsStayWhole(w: Word, ifs: Option<string>, k: nat)
    requires Expanded(w) && ifs != Some("")
    requires k < |Flatten(w)| && Flatten(w)[k].Keep?
    ensures exists i, a, b ::
      0 <= i < |FieldTexts(w, ifs)| && FieldTexts(w, ifs)[i] == a + Flatten(w)[k].text + b
      && Joined(FieldTexts(w, ifs)[..i]) + a == Kept(Flatten(w)[..k], Separators(ifs))
  {
    FieldTextsAreScan(w, ifs);
    var i, a, b := KeepStaysWhole(Flatten(w), k, Separators(ifs));
    assert FieldTexts(w, ifs)[i] == a + Flatten(w)[k].text + b;
  }

  // -----------------------------------------------------------------------
  // Words made only of splittable text.

  /** The fields of the unquoted result `s` of an expansion. */
  function SplitText(s: string, ifs: string): seq<string> {
    ScanAll(Splittable(s), ifs, SCAN_START).texts
  }

  /** A word made only of splittable text, however it is cut up and nested. */
  lemma SplittableWordFields(w: Word, s: string, ifs: Option<string>)
    requires Expanded(w) && ifs != Some("") && Flatten(w) == Splittable(s)
    ensures FieldTexts(w, ifs) == SplitText(s, Separators(ifs))
  {
    FieldTextsAreScan(w, ifs);
  }

  predicate AllIn(s: string, ifs: string) {
    s == "" || (s[0] in ifs && AllIn(s[1..], ifs))
  }

  predicate NoneIn(s: string, ifs: string) {
    s == "" || (s[0] !in ifs && NoneIn(s[1..], ifs))
  }

  /** The length of the longest prefix without IFS characters. */
  function Span(s: string, ifs: string): (n: nat)
    ensures n <= |s|
  {
    if s == "" || s[0] in ifs then 0 else 1 + Span(s[1..], ifs)
  }

  /** The length of the longest prefix of IFS characters. */
  function RunLength(s: string, ifs: string): (n: nat)
    ensures n <= |s|
  {
    if s == "" || s[0] !in ifs then 0 else 1 + RunLength(s[1..], ifs)
  }

  lemma {:induction false} SpanIsLongest(s: string, ifs: string)
    ensures var n := Span(s, ifs);
      && NoneIn(s[..n], ifs)
      && (n < |s| ==> s[n] in ifs)
  {
    if s != "" && s[0] !in ifs {
      SpanIsLongest(s[1..], ifs);
      var n := Span(s[1..], ifs);
      assert s[..n + 1] == [s[0]] + s[1..][..n];
    }
  }

  lemma {:induction false} RunIsLongest(s: string, ifs: string)
    ensures var n := RunLength(s, ifs);
      && AllIn(s[..n], ifs)
      && (n < |s| ==> s[n] !in ifs)
  {
    if s != "" && s[0] in ifs {
      RunIsLongest(s[1..], ifs);
      var n := RunLength(s[1..], ifs);
      assert s[..n + 1] == [s[0]] + s[1..][..n];
    }
  }

  /** How many IFS characters of a run are not white space. */
  function NonSpaces(run: string): nat {
    if run == "" then 0 else (if IsSpace(run[0]) then 0 else 1) + NonSpaces(run[1..])
  }

  function Empties(n: int): (r: seq<string>)
    ensures |r| == if n <= 0 then 0 else n
    ensures forall x <- r :: x == ""
  {
    seq(if n <= 0 then 0 else n, _ => "")
  }

  /** A run of IFS characters that ends a field makes this many more: its first character is that end. */
  function ExtraFields(run: string): int {
    if run == "" then 0 else NonSpaces(run[1..]) - 1
  }

  function FieldsOfRun(run: string): seq<string> {
    Empties(ExtraFields(run))
  }

  /** The fields from `s` on, where a field is about to start. */
  function FieldsFrom(s: string, ifs: string): seq<string> {
    if s == "" then []
    else
      var n := Span(s, ifs);
      var m := RunLength(s[n..], ifs);
      assert n == 0 ==> s[n..] == s && m > 0;
      [s[..n]] + FieldsOfRun(s[n..][..m]) + FieldsFrom(s[n..][m..], ifs)
  }

  lemma ScanTwo(a: string, b: string, ifs: string, st: Scan)
    requires st.open ==> st.texts != []
    ensures ScanAll(Splittable(a + b), ifs, st) == ScanAll(Splittable(b), ifs, ScanAll(Splittable(a), ifs, st))
  {
    assert Splittable(a + b) == Splittable(a) + Splittable(b);
    ScanConcat(Splittable(a), Splittable(b), ifs, st);
  }

  lemma {:induction false} ScanSpan(s: string, ifs: string, st: Scan)
    requires st.open ==> st.texts != []
    requires s != "" && NoneIn(s, ifs)
    ensures ScanAll(Splittable(s), ifs, st) == AddText(st, s).(inIfs := false, inNonSpace := false)
  {
    assert Splittable(s)[1..] == Splittable(s[1..]);
    var st' := Step(Ch(s[0]), ifs, st);
    if |s| > 1 {
      ScanSpan(s[1..], ifs, st');
      AddTextTwice(st, [s[0]], s[1..]);
      assert [s[0]] + s[1..] == s;
    } else {
      assert s == [s[0]];
    }
  }

  lemma EmptiesNext(n: nat)
    ensures [""] + Empties(n) == Empties(n + 1)
  {
  }

  /** Between fields a run of IFS characters only adds empty fields. */
  lemma {:induction false} ScanRun(run: string, ifs: string, st: Scan)
    requires st.inIfs && !st.open
    requires AllIn(run, ifs)
    ensures var r := ScanAll(Splittable(run), ifs, st);
      && r.inIfs && !r.open
      && r.texts == st.texts + Empties(NonSpaces(run) - if st.inNonSpace then 0 else 1)
  {
    hide IsSpace, Empties;
    if run != "" {
      assert Splittable(run)[1..] == Splittable(run[1..]);
      var st' := Step(Ch(run[0]), ifs, st);
      ScanRun(run[1..], ifs, st');
      if !IsSpace(run[0]) && st.inNonSpace {
        var n := NonSpaces(run[1..]);
        EmptiesNext(n);
        assert st.texts + [""] + Empties(n) == st.texts + ([""] + Empties(n));
      }
    }
  }

  lemma ScanFieldAndRun(field: string, run: string, ifs: string, st: Scan)
    requires st.inIfs && !st.open
    requires field != "" && NoneIn(field, ifs)
    requires AllIn(run, ifs)
    ensures var r := ScanAll(Splittable(field + run), ifs, st);
      && r.texts == st.texts + [field] + FieldsOfRun(run)
      && (run != "" ==> r.inIfs && !r.open)
  {
    hide IsSpace, Empties;
    ScanTwo(field, run, ifs, st);
    ScanSpan(field, ifs, st);
    if run != "" {
      var st1 := AddText(st, field).(inIfs := false, inNonSpace := false);
      AddEmptyText(st1);
      assert Splittable(run)[1..] == Splittable(run[1..]);
      ScanRun(run[1..], ifs, st1.(open := false, inIfs := true));
    }
  }

  /** A text that starts with a field is that field, the run that ends it, and the rest. */
  lemma CutField(s: string, ifs: string) returns (field: string, run: string, rest: string)
    requires s != "" && s[0] !in ifs
    ensures s == field + run + rest && field != "" && (run == "" ==> rest == "")
    ensures NoneIn(field, ifs) && AllIn(run, ifs)
    ensures rest == "" || rest[0] !in ifs
    ensures FieldsFrom(s, ifs) == [field] + FieldsOfRun(run) + FieldsFrom(rest, ifs)
  {
    hide IsSpace, Empties;
    var n := Span(s, ifs);
    var m := RunLength(s[n..], ifs);
    SpanIsLongest(s, ifs);
    RunIsLongest(s[n..], ifs);
    field, run, rest := s[..n], s[n..][..m], s[n..][m..];
  }

  lemma Regroup(a: seq<string>, b: seq<string>, c: seq<string>, d: seq<string>)
    ensures a + b + c + d == a + (b + c + d)
  {
  }

  /** Scanning from a closed state where the text goes on with a field. */
  lemma {:induction false} ScanFields(s: string, ifs: string, st: Scan)
    requires st.inIfs && !st.open
    requires s == "" || s[0] !in ifs
    ensures ScanAll(Splittable(s), ifs, st).texts == st.texts + FieldsFrom(s, ifs)
    decreases |s|
  {
    hide IsSpace, Empties;
    if s != "" {
      var field, run, rest := CutField(s, ifs);
      ScanFieldAndRun(field, run, ifs, st);
      ScanTwo(field + run, rest, ifs, st);
      Regroup(st.texts, [field], FieldsOfRun(run), FieldsFrom(rest, ifs));
      var st' := ScanAll(Splittable(field + run), ifs, st);
      if run != "" {
        ScanFields(rest, ifs, st');
      } else {
        assert Splittable(rest) == [] && FieldsFrom(rest, ifs) == [];
        assert st'.texts + [] == st'.texts;
      }
    }
  }

  /** The code's fields: a leading run of `k` non-white-space separators makes `k - 1` empty fields. */
  lemma SplitTextByRuns(run: string, rest: string, ifs: string)
    requires AllIn(run, ifs)
    requires rest == "" || rest[0] !in ifs
    ensures SplitText(run + rest, ifs) == Empties(NonSpaces(run) - 1) + FieldsFrom(rest, ifs)
  {
    hide IsSpace, Empties;
    ScanRun(run, ifs, SCAN_START);
    var st := ScanAll(Splittable(run), ifs, SCAN_START);
    assert st.texts == Empties(NonSpaces(run) - 1);
    ScanFields(rest, ifs, st);
    ScanTwo(run, rest, ifs, SCAN_START);
  }
}

/**
 * Section 2.6.5 of POSIX.1-2017 XCU for words that mix quoted and splittable text, and exactly
 * when `split_fields` agrees with it.
 */
module PosixSplitting {
  import opened Chars
  import opened Words
  import opened FieldSplitting
  import opened FieldReference
  import opened Expansion

  // -----------------------------------------------------------------------
  // The standard.

  predicate IsSeparator(a: Atom, ifs: string) {
    a.Ch? && a.c in ifs
  }

  /** IFS white space. */
  predicate IsBlank(a: Atom, ifs: string) {
    IsSeparator(a, ifs) && IsSpace(a.c)
  }

  function AtomText(a: Atom): string {
    match a case Ch(c) => [c] case Keep(text, _) => text
  }

  /** Drops the IFS white space at the front. */
  function SkipBlanks(atoms: seq<Atom>, ifs: string): (r: seq<Atom>)
    ensures |r| <= |atoms|
    ensures r != [] ==> !IsBlank(r[0], ifs)
  {
    if atoms != [] && IsBlank(atoms[0], ifs) then SkipBlanks(atoms[1..], ifs) else atoms
  }

  /** One delimiter: IFS white space, or another IFS character with the IFS white space around it. */
  function SkipDelimiter(atoms: seq<Atom>, ifs: string): (r: seq<Atom>)
    ensures |r| <= |atoms|
    ensures atoms != [] && IsSeparator(atoms[0], ifs) ==> |r| < |atoms|
  {
    var t := SkipBlanks(atoms, ifs);
    if t != [] && IsSeparator(t[0], ifs) then SkipBlanks(t[1..], ifs) else t
  }

  /** How many atoms at the front belong to a field. */
  function ContentLength(atoms: seq<Atom>, ifs: string): (n: nat)
    ensures n <= |atoms|
    ensures n < |atoms| ==> IsSeparator(atoms[n], ifs)
  {
    if atoms == [] || IsSeparator(atoms[0], ifs) then 0 else 1 + ContentLength(atoms[1..], ifs)
  }

  function ContentText(atoms: seq<Atom>): string {
    if atoms == [] then "" else AtomText(atoms[0]) + ContentText(atoms[1..])
  }

  function Fields(atoms: seq<Atom>, ifs: string): seq<string>
    decreases |atoms|
  {
    if atoms == [] then []
    else
      var n := ContentLength(atoms, ifs);
      [ContentText(atoms[..n])] + Fields(SkipDelimiter(atoms[n..], ifs), ifs)
  }

  /** The fields that the standard asks for: a quoted text belongs to its field even when it is empty. */
  function PosixSplit(atoms: seq<Atom>, ifs: string): seq<string> {
    Fields(SkipBlanks(atoms, ifs), ifs)
  }

  // -----------------------------------------------------------------------
  // The standard, one atom at a time.

  datatype Mode = InField | AfterBlank | AfterDelimiter

  function Prepend(text: string, fields: seq<string>): (r: seq<string>)
    requires fields != []
    ensures |r| == |fields|
  {
    [text + fields[0]] + fields[1..]
  }

  /** The fields from here on; inside a field the first of them is what that field still gets. */
  function From(atoms: seq<Atom>, ifs: string, mode: Mode): (r: seq<string>)
    ensures mode.InField? ==> r != []
  {
    if atoms == [] then if mode.InField? then [""] else []
    else if !IsSeparator(atoms[0], ifs) then Prepend(AtomText(atoms[0]), From(atoms[1..], ifs, InField))
    else if IsSpace(atoms[0].c) then
      if mode.InField? then [""] + From(atoms[1..], ifs, AfterBlank) else From(atoms[1..], ifs, mode)
    else
      (if mode.AfterBlank? then [] else [""]) + From(atoms[1..], ifs, AfterDelimiter)
  }

  lemma {:induction false} FromSkipsBlanks(atoms: seq<Atom>, ifs: string, mode: Mode)
    requires !mode.InField?
    ensures From(SkipBlanks(atoms, ifs), ifs, mode) == From(atoms, ifs, mode)
  {
    if atoms != [] && IsBlank(atoms[0], ifs) {
      FromSkipsBlanks(atoms[1..], ifs, mode);
    }
  }

  lemma FromSkipsDelimiter(atoms: seq<Atom>, ifs: string)
    ensures From(SkipDelimiter(atoms, ifs), ifs, AfterDelimiter) == From(atoms, ifs, AfterBlank)
  {
    var t := SkipBlanks(atoms, ifs);
    FromSkipsBlanks(atoms, ifs, AfterBlank);
    if t != [] && IsSeparator(t[0], ifs) {
      FromSkipsBlanks(t[1..], ifs, AfterDelimiter);
      assert [] + From(t[1..], ifs, AfterDelimiter) == From(t[1..], ifs, AfterDelimiter);
    }
  }

  /** At the end of a field. */
  lemma FieldEnds(atoms: seq<Atom>, ifs: string)
    requires atoms != [] ==> IsSeparator(atoms[0], ifs)
    ensures From(atoms, ifs, InField) == [""] + From(SkipDelimiter(atoms, ifs), ifs, AfterDelimiter)
  {
    if atoms != [] {
      if IsSpace(atoms[0].c) {
        FromSkipsDelimiter(atoms[1..], ifs);
        assert SkipDelimiter(atoms, ifs) == SkipDelimiter(atoms[1..], ifs);
      } else {
        FromSkipsBlanks(atoms[1..], ifs, AfterDelimiter);
      }
    }
  }

  lemma {:induction false} ContentFirst(atoms: seq<Atom>, ifs: string)
    ensures var n := ContentLength(atoms, ifs);
      From(atoms, ifs, InField) == Prepend(ContentText(atoms[..n]), From(atoms[n..], ifs, InField))
  {
    var n := ContentLength(atoms, ifs);
    if n == 0 {
      assert atoms[..0] == [] && atoms[0..] == atoms;
      assert "" + From(atoms, ifs, InField)[0] == From(atoms, ifs, InField)[0];
    } else {
      ContentFirst(atoms[1..], ifs);
      assert atoms[..n][1..] == atoms[1..][..n - 1] && atoms[n..] == atoms[1..][n - 1..];
      var a, b, c := AtomText(atoms[0]), ContentText(atoms[1..][..n - 1]), From(atoms[n..], ifs, InField)[0];
      assert a + b + c == a + (b + c);
    }
  }

  lemma {:induction false} FieldsAreFrom(atoms: seq<Atom>, ifs: string)
    requires atoms != [] ==> !IsBlank(atoms[0], ifs)
    ensures Fields(atoms, ifs) == From(atoms, ifs, AfterDelimiter)
    decreases |atoms|
  {
    if atoms != [] {
      var n := ContentLength(atoms, ifs);
      var tail := SkipDelimiter(atoms[n..], ifs);
      assert n == 0 ==> atoms[0..] == atoms;
      assert From(atoms, ifs, AfterDelimiter) == From(atoms, ifs, InField);
      hide IsSpace, ContentText;
      ContentFirst(atoms, ifs);
      FieldEnds(atoms[n..], ifs);
      assert tail != [] ==> !IsBlank(tail[0], ifs);
      FieldsAreFrom(tail, ifs);
      var text, rest := ContentText(atoms[..n]), From(tail, ifs, AfterDelimiter);
      assert text + "" == text && ([""] + rest)[1..] == rest;
      assert Prepend(text, [""] + rest) == [text] + rest;
    }
  }

  lemma PosixSplitIsFrom(atoms: seq<Atom>, ifs: string)
    ensures PosixSplit(atoms, ifs) == From(atoms, ifs, AfterDelimiter)
  {
    FieldsAreFrom(SkipBlanks(atoms, ifs), ifs);
    FromSkipsBlanks(atoms, ifs, AfterDelimiter);
  }

  // -----------------------------------------------------------------------
  // The code, one atom at a time.

  /** The fields from here on, by the code's flags; of an open field, what it still gets. */
  function CodeFrom(atoms: seq<Atom>, ifs: string, open: bool, inIfs: bool, inNonSpace: bool): (r: seq<string>)
    ensures open ==> r != []
  {
    if atoms == [] then if open then [""] else []
    else match atoms[0]
      case Keep(text, inDoubleQuotes) =>
        Prepend(text, CodeFrom(atoms[1..], ifs, true, inDoubleQuotes && inIfs, inDoubleQuotes && inNonSpace))
      case Ch(c) =>
        if c !in ifs then Prepend([c], CodeFrom(atoms[1..], ifs, true, false, false))
        else if Delimits(inIfs, inNonSpace, c) then [""] + CodeFrom(atoms[1..], ifs, false, true, inNonSpace)
        else CodeFrom(atoms[1..], ifs, open, inIfs, inNonSpace || !IsSpace(c))
  }

  /** Fields that go on after those of a scan state. */
  function GoOn(st: Scan, fields: seq<string>): seq<string>
    requires st.open ==> st.texts != [] && fields != []
  {
    if st.open then
      var n := |st.texts| - 1;
      st.texts[..n] + [st.texts[n] + fields[0]] + fields[1..]
    else st.texts + fields
  }

  lemma GoOnAddText(st: Scan, text: string, fields: seq<string>)
    requires (st.open ==> st.texts != []) && fields != []
    ensures GoOn(AddText(st, text), fields) == GoOn(st, Prepend(text, fields))
  {
    if st.open {
      var n := |st.texts| - 1;
      assert st.texts[n] + text + fields[0] == st.texts[n] + (text + fields[0]);
    }
  }

  lemma GoOnClosed(st: Scan, fields: seq<string>)
    requires st.open ==> st.texts != []
    ensures AddText(st, "").texts + fields == GoOn(st, [""] + fields)
  {
    if st.open {
      var n := |st.texts| - 1;
      assert st.texts[n] + "" == st.texts[n];
    }
  }

  lemma StepGoesOn(a: Atom, rest: seq<Atom>, ifs: string, st: Scan)
    requires st.open ==> st.texts != []
    ensures var st' := Step(a, ifs, st);
      GoOn(st, CodeFrom([a] + rest, ifs, st.open, st.inIfs, st.inNonSpace))
        == GoOn(st', CodeFrom(rest, ifs, st'.open, st'.inIfs, st'.inNonSpace))
  {
    hide IsSpace, Delimits, GoOn;
    assert ([a] + rest)[1..] == rest;
    var st' := Step(a, ifs, st);
    var fields := CodeFrom(rest, ifs, st'.open, st'.inIfs, st'.inNonSpace);
    match a
    case Keep(text, _) =>
      GoOnAddText(st, text, fields);
      GoOnSame(AddText(st, text), st', fields);
    case Ch(c) =>
      if c !in ifs {
        GoOnAddText(st, [c], fields);
        GoOnSame(AddText(st, [c]), st', fields);
      } else if Delimits(st.inIfs, st.inNonSpace, c) {
        GoOnClosed(st, fields);
        GoOnSame(AddText(st, "").(open := false), st', fields);
        GoOnNothingOpen(AddText(st, "").(open := false), fields);
      } else {
        GoOnSame(st, st', fields);
      }
  }

  lemma GoOnSame(st: Scan, st': Scan, fields: seq<string>)
    requires st.texts == st'.texts && st.open == st'.open && (st.open ==> st.texts != [] && fields != [])
    ensures GoOn(st, fields) == GoOn(st', fields)
  {
  }

  lemma GoOnNothingOpen(st: Scan, fields: seq<string>)
    requires !st.open
    ensures GoOn(st, fields) == st.texts + fields
  {
  }

  lemma {:induction false} ScanIsCodeFrom(atoms: seq<Atom>, ifs: string, st: Scan)
    requires st.open ==> st.texts != []
    ensures ScanAll(atoms, ifs, st).texts == GoOn(st, CodeFrom(atoms, ifs, st.open, st.inIfs, st.inNonSpace))
  {
    if atoms == [] {
      if st.open {
        var n := |st.texts| - 1;
        assert st.texts[n] + "" == st.texts[n];
      }
    } else {
      hide GoOn, CodeFrom, IsSpace, Delimits;
      assert atoms == [atoms[0]] + atoms[1..];
      ScanIsCodeFrom(atoms[1..], ifs, Step(atoms[0], ifs, st));
      StepGoesOn(atoms[0], atoms[1..], ifs, st);
    }
  }

  // -----------------------------------------------------------------------
  // The two side by side.

  /**
   * Where the code and the standard are. In the last two stages the standard has ended a field
   * of double-quoted text, after blanks or after a delimiter, and the code has not.
   */
  datatype Stage =
    | InPlain
    | InQuoted(nonSpace: bool)
    | Blanks
    | Delimited(nonSpace: bool)
    | Late(nonSpace: bool)
    | LateDelimited
  {
    predicate Open() { InPlain? || InQuoted? || Late? || LateDelimited? }

    predicate NonSpace() {
      match this
      case InPlain | Blanks => false
      case InQuoted(nonSpace) => nonSpace
      case Delimited(nonSpace) => nonSpace
      case Late(nonSpace) => nonSpace
      case LateDelimited => true
    }

    function Mode(): Mode {
      match this
      case InPlain | InQuoted(_) => InField
      case Blanks | Late(_) => AfterBlank
      case Delimited(_) | LateDelimited => AfterDelimiter
    }
  }

  function Code(atoms: seq<Atom>, ifs: string, stage: Stage): seq<string> {
    CodeFrom(atoms, ifs, stage.Open(), !stage.InPlain?, stage.NonSpace())
  }

  function Standard(atoms: seq<Atom>, ifs: string, stage: Stage): seq<string> {
    (if stage.Late? || stage.LateDelimited? then [""] else []) + From(atoms, ifs, stage.Mode())
  }

  /** The next stage; None where the standard has one more field than the code from there on. */
  function Next(stage: Stage, a: Atom, ifs: string): Option<Stage> {
    if !IsSeparator(a, ifs) then
      if stage.Late? || stage.LateDelimited? then None
      else if a.Keep? && a.inDoubleQuotes && !stage.InPlain? then Some(InQuoted(stage.NonSpace()))
      else Some(InPlain)
    else if IsSpace(a.c) then
      match stage
      case InPlain => Some(Blanks)
      case InQuoted(nonSpace) => Some(Late(nonSpace))
      case _ => Some(stage)
    else
      match stage
      case InPlain => Some(Delimited(false))
      case InQuoted(nonSpace) => Some(if nonSpace then Delimited(true) else LateDelimited)
      case Blanks => Some(Delimited(true))
      case Delimited(nonSpace) => if nonSpace then Some(stage) else None
      case Late(nonSpace) => Some(if nonSpace then Delimited(true) else LateDelimited)
      case LateDelimited => None
  }

  predicate Agrees(atoms: seq<Atom>, ifs: string, stage: Stage) {
    atoms == [] || (var next := Next(stage, atoms[0], ifs); next.Some? && Agrees(atoms[1..], ifs, next.value))
  }

  /** Where the code goes next, whether or not the standard goes with it. */
  function After(stage: Stage, a: Atom, ifs: string): Stage {
    var next := Next(stage, a, ifs);
    if next.Some? then next.value
    else if IsSeparator(a, ifs) then Delimited(true)
    else if a.Keep? && a.inDoubleQuotes then InQuoted(stage.NonSpace())
    else InPlain
  }

  /** What one atom adds where the code and the standard go on together. */
  function OwnStep(a: Atom, ifs: string, stage: Stage, fields: seq<string>): seq<string>
    requires !IsSeparator(a, ifs) ==> fields != []
  {
    if !IsSeparator(a, ifs) then Prepend(AtomText(a), fields)
    else if Delimits(!stage.InPlain?, stage.NonSpace(), a.c) then [""] + fields
    else fields
  }

  /** One atom in the code. */
  lemma CodeStep(atoms: seq<Atom>, ifs: string, stage: Stage)
    requires atoms != []
    ensures var fields := Code(atoms[1..], ifs, After(stage, atoms[0], ifs));
      (!IsSeparator(atoms[0], ifs) ==> fields != []) && Code(atoms, ifs, stage) == OwnStep(atoms[0], ifs, stage, fields)
  {
    hide IsSpace;
  }

  lemma StandardContent(atoms: seq<Atom>, ifs: string, stage: Stage)
    requires atoms != [] && !IsSeparator(atoms[0], ifs)
    ensures var fields := Standard(atoms[1..], ifs, After(stage, atoms[0], ifs));
      fields != [] && (if Next(stage, atoms[0], ifs).Some?
        then Standard(atoms, ifs, stage) == Prepend(AtomText(atoms[0]), fields)
        else |Standard(atoms, ifs, stage)| == |fields| + 1)
  {
    hide AtomText;
    var own := From(atoms[1..], ifs, InField);
    assert From(atoms, ifs, stage.Mode()) == Prepend(AtomText(atoms[0]), own);
    assert [] + own == own;
    assert [] + From(atoms, ifs, stage.Mode()) == From(atoms, ifs, stage.Mode());
  }

  lemma StandardBlank(atoms: seq<Atom>, ifs: string, stage: Stage)
    requires atoms != [] && IsSeparator(atoms[0], ifs) && IsSpace(atoms[0].c)
    ensures Next(stage, atoms[0], ifs).Some?
    ensures Standard(atoms, ifs, stage)
      == (if stage.InPlain? then [""] else []) + Standard(atoms[1..], ifs, Next(stage, atoms[0], ifs).value)
  {
    hide IsSpace;
    var late := From(atoms[1..], ifs, AfterBlank);
    assert [] + ([""] + late) == [""] + late && [] + ([] + late) == late;
  }

  lemma StandardDelimiter(atoms: seq<Atom>, ifs: string, stage: Stage)
    requires atoms != [] && IsSeparator(atoms[0], ifs) && !IsSpace(atoms[0].c)
    ensures var fields := Standard(atoms[1..], ifs, After(stage, atoms[0], ifs));
      var own := (if stage.InPlain? || stage.NonSpace() then [""] else []) + fields;
      if Next(stage, atoms[0], ifs).Some? then Standard(atoms, ifs, stage) == own
      else |Standard(atoms, ifs, stage)| == |own| + 1
  {
    hide IsSpace, Prepend, AtomText;
    var late := From(atoms[1..], ifs, AfterDelimiter);
    assert [] + late == late && [] + ([""] + late) == [""] + late;
    assert From(atoms, ifs, stage.Mode()) == if stage.Mode().AfterBlank? then late else [""] + late;
  }

  /** One atom in the standard; where it goes on alone it has a field more. */
  lemma StandardStep(atoms: seq<Atom>, ifs: string, stage: Stage)
    requires atoms != []
    ensures var a, fields := atoms[0], Standard(atoms[1..], ifs, After(stage, atoms[0], ifs));
      (!IsSeparator(a, ifs) ==> fields != []) &&
      if Next(stage, a, ifs).Some? then Standard(atoms, ifs, stage) == OwnStep(a, ifs, stage, fields)
      else |Standard(atoms, ifs, stage)| == |OwnStep(a, ifs, stage, fields)| + 1
  {
    hide IsSpace, Standard;
    var fields := Standard(atoms[1..], ifs, After(stage, atoms[0], ifs));
    assert [] + fields == fields;
    if !IsSeparator(atoms[0], ifs) {
      StandardContent(atoms, ifs, stage);
    } else if IsSpace(atoms[0].c) {
      StandardBlank(atoms, ifs, stage);
    } else {
      StandardDelimiter(atoms, ifs, stage);
    }
  }

  /** The code never makes more fields, and the same ones where it makes as many. */
  lemma {:induction false} Compare(atoms: seq<Atom>, ifs: string, stage: Stage)
    ensures if Agrees(atoms, ifs, stage) then Code(atoms, ifs, stage) == Standard(atoms, ifs, stage)
            else |Code(atoms, ifs, stage)| < |Standard(atoms, ifs, stage)|
  {
    if atoms == [] {
      assert [""] + [] == [""];
    } else {
      CodeStep(atoms, ifs, stage);
      StandardStep(atoms, ifs, stage);
      Compare(atoms[1..], ifs, After(stage, atoms[0], ifs));
      hide Code, Standard, IsSpace;
    }
  }

  // -----------------------------------------------------------------------
  // Exactly when they agree.

  /** How many atoms at the front are separators. */
  function SeparatorsLength(atoms: seq<Atom>, ifs: string): (n: nat)
    ensures n <= |atoms|
    ensures n < |atoms| ==> !IsSeparator(atoms[n], ifs)
  {
    if atoms == [] || !IsSeparator(atoms[0], ifs) then 0 else 1 + SeparatorsLength(atoms[1..], ifs)
  }

  predicate AllSeparators(atoms: seq<Atom>, ifs: string) {
    atoms == [] || (IsSeparator(atoms[0], ifs) && AllSeparators(atoms[1..], ifs))
  }

  predicate AllContent(atoms: seq<Atom>, ifs: string) {
    atoms == [] || (!IsSeparator(atoms[0], ifs) && AllContent(atoms[1..], ifs))
  }

  /** How many of the atoms are characters other than white space. */
  function NonSpaceCount(atoms: seq<Atom>): nat {
    if atoms == [] then 0 else (if atoms[0].Ch? && !IsSpace(atoms[0].c) then 1 else 0) + NonSpaceCount(atoms[1..])
  }

  predicate OnlyDoubleQuoted(atoms: seq<Atom>) {
    atoms == [] || (atoms[0].Keep? && atoms[0].inDoubleQuotes && OnlyDoubleQuoted(atoms[1..]))
  }

  /**
   * From the start of a field on, after separators of which one that ended no field was not
   * white space (`nonSpace`) or none was.
   *
   * A field with text outside double quotes is ended properly, unless the separators after it
   * start with one that is not white space and hold another. A field of double-quoted text only
   * is ended by separators if `nonSpace` holds and one of them is not white space; or the word
   * ends there, and no second one of them asks for an empty field.
   */
  predicate ConformsFrom(atoms: seq<Atom>, ifs: string, nonSpace: bool)
    requires atoms != [] ==> !IsSeparator(atoms[0], ifs)
    decreases |atoms|
  {
    atoms == [] ||
    var n := ContentLength(atoms, ifs);
    var m := SeparatorsLength(atoms[n..], ifs);
    var run, rest := atoms[n..][..m], atoms[n..][m..];
    if !OnlyDoubleQuoted(atoms[..n]) then
      (NonSpaceCount(run) <= 1 || NonSpaceCount(run[..1]) == 0)
      && ConformsFrom(rest, ifs, run != [] && NonSpaceCount(run[1..]) > 0)
    else if rest == [] then nonSpace || NonSpaceCount(run) <= 1
    else nonSpace && NonSpaceCount(run) >= 1 && ConformsFrom(rest, ifs, true)
  }

  /** Moreover all separators before the first field are white space. */
  predicate Conforms(atoms: seq<Atom>, ifs: string) {
    var m := SeparatorsLength(atoms, ifs);
    NonSpaceCount(atoms[..m]) == 0 && ConformsFrom(atoms[m..], ifs, false)
  }

  lemma {:induction false} SeparatorsAre(atoms: seq<Atom>, ifs: string)
    ensures AllSeparators(atoms[..SeparatorsLength(atoms, ifs)], ifs)
  {
    var n := SeparatorsLength(atoms, ifs);
    if n > 0 {
      SeparatorsAre(atoms[1..], ifs);
      assert atoms[..n][1..] == atoms[1..][..n - 1];
    }
  }

  lemma {:induction false} ContentIs(atoms: seq<Atom>, ifs: string)
    ensures AllContent(atoms[..ContentLength(atoms, ifs)], ifs)
  {
    var n := ContentLength(atoms, ifs);
    if n > 0 {
      ContentIs(atoms[1..], ifs);
      assert atoms[..n][1..] == atoms[1..][..n - 1];
    }
  }

  /** The stages through text that belongs to a field. */
  lemma {:induction false} ThroughContent(content: seq<Atom>, rest: seq<Atom>, ifs: string, stage: Stage)
    requires AllContent(content, ifs) && (stage.InPlain? || stage.InQuoted?)
    ensures Agrees(content + rest, ifs, stage)
      <==> Agrees(rest, ifs, if stage.InQuoted? && OnlyDoubleQuoted(content) then stage else InPlain)
  {
    if content == [] {
      assert content + rest == rest;
    } else {
      var next := Next(stage, content[0], ifs).value;
      assert (content + rest)[1..] == content[1..] + rest;
      ThroughContent(content[1..], rest, ifs, next);
    }
  }

  /** The stages through separators, once the field before them has ended for the standard. */
  lemma {:induction false} ThroughSeparators(run: seq<Atom>, rest: seq<Atom>, ifs: string, stage: Stage)
    requires AllSeparators(run, ifs) && !stage.InPlain? && !stage.InQuoted?
    ensures var k := NonSpaceCount(run);
      Agrees(run + rest, ifs, stage) <==>
        match stage
        case Blanks => Agrees(rest, ifs, if k == 0 then stage else Delimited(true))
        case Delimited(nonSpace) => (nonSpace || k == 0) && Agrees(rest, ifs, stage)
        case Late(nonSpace) =>
          if k == 0 then Agrees(rest, ifs, stage)
          else if nonSpace then Agrees(rest, ifs, Delimited(true))
          else k == 1 && Agrees(rest, ifs, LateDelimited)
        case LateDelimited => k == 0 && Agrees(rest, ifs, stage)
        case _ => true
  {
    hide IsSpace;
    if run == [] {
      assert run + rest == rest;
    } else {
      assert (run + rest)[1..] == run[1..] + rest;
      var next := Next(stage, run[0], ifs);
      if next.Some? {
        ThroughSeparators(run[1..], rest, ifs, next.value);
      }
    }
  }

  /** From the end of a field on. */
  lemma ThroughRun(run: seq<Atom>, rest: seq<Atom>, ifs: string, stage: Stage)
    requires AllSeparators(run, ifs) && (stage.InPlain? || stage.InQuoted?)
    requires (run == [] ==> rest == []) && (rest != [] ==> !IsSeparator(rest[0], ifs))
    ensures var k := NonSpaceCount(run);
      Agrees(run + rest, ifs, stage) <==>
        if stage.InPlain? then
          (k <= 1 || NonSpaceCount(run[..1]) == 0)
          && (rest == [] || Agrees(rest, ifs, if NonSpaceCount(run[1..]) > 0 then Delimited(true) else Blanks))
        else if rest == [] then stage.nonSpace || k <= 1
        else stage.nonSpace && k >= 1 && Agrees(rest, ifs, Delimited(true))
  {
    hide IsSpace;
    if run == [] {
      assert run + rest == [];
    } else {
      var next := Next(stage, run[0], ifs).value;
      assert (run + rest)[1..] == run[1..] + rest;
      assert NonSpaceCount(run[..1]) == NonSpaceCount(run) - NonSpaceCount(run[1..]) by {
        assert run[..1][1..] == [] && run[..1][0] == run[0];
      }
      ThroughSeparators(run[1..], rest, ifs, next);
    }
  }

  lemma {:induction false} ConformsIsAgrees(atoms: seq<Atom>, ifs: string, nonSpace: bool)
    requires atoms != [] ==> !IsSeparator(atoms[0], ifs)
    ensures ConformsFrom(atoms, ifs, nonSpace) <==> Agrees(atoms, ifs, Delimited(nonSpace))
    ensures !nonSpace ==> (Agrees(atoms, ifs, Delimited(false)) <==> Agrees(atoms, ifs, Blanks))
    decreases |atoms|
  {
    hide IsSpace;
    if atoms != [] {
      var n := ContentLength(atoms, ifs);
      var m := SeparatorsLength(atoms[n..], ifs);
      var content, run, rest := atoms[..n], atoms[n..][..m], atoms[n..][m..];
      ContentIs(atoms, ifs);
      SeparatorsAre(atoms[n..], ifs);
      var stage := if OnlyDoubleQuoted(content) then InQuoted(nonSpace) else InPlain;
      StartOfField(content, run + rest, ifs, nonSpace);
      assert atoms == content + (run + rest);
      ThroughRun(run, rest, ifs, stage);
      ConformsIsAgrees(rest, ifs, true);
      ConformsIsAgrees(rest, ifs, false);
    }
  }

  lemma StartOfField(content: seq<Atom>, rest: seq<Atom>, ifs: string, nonSpace: bool)
    requires content != [] && AllContent(content, ifs)
    ensures var stage := if OnlyDoubleQuoted(content) then InQuoted(nonSpace) else InPlain;
      Agrees(content + rest, ifs, Delimited(nonSpace)) <==> Agrees(rest, ifs, stage)
    ensures Agrees(content + rest, ifs, Delimited(false)) <==> Agrees(content + rest, ifs, Blanks)
  {
    hide IsSpace;
    var first := Next(Delimited(nonSpace), content[0], ifs).value;
    assert (content + rest)[1..] == content[1..] + rest;
    ThroughContent(content[1..], rest, ifs, first);
  }

  /** For every stream of quoted texts and splittable characters: the code's fields are the standard's if and only if the stream conforms. */
  lemma ScansLikePosixIff(atoms: seq<Atom>, ifs: string)
    ensures ScanAll(atoms, ifs, SCAN_START).texts == PosixSplit(atoms, ifs) <==> Conforms(atoms, ifs)
  {
    var m := SeparatorsLength(atoms, ifs);
    var run, rest := atoms[..m], atoms[m..];
    assert atoms == run + rest;
    SeparatorsAre(atoms, ifs);
    ThroughSeparators(run, rest, ifs, Delimited(false));
    ConformsIsAgrees(rest, ifs, false);
    Compare(atoms, ifs, Delimited(false));
    ScanIsCodeFrom(atoms, ifs, SCAN_START);
    PosixSplitIsFrom(atoms, ifs);
    var fields := CodeFrom(atoms, ifs, false, true, false);
    assert [] + fields == fields && [] + From(atoms, ifs, AfterDelimiter) == From(atoms, ifs, AfterDelimiter);
  }

  /** The same for the fields of any expanded word. */
  lemma WordSplitsLikePosixIff(w: Word, ifs: Option<string>)
    requires Expanded(w) && ifs != Some("")
    ensures FieldTexts(w, ifs) == PosixSplit(Flatten(w), Separators(ifs)) <==> Conforms(Flatten(w), Separators(ifs))
  {
    FieldTextsAreScan(w, ifs);
    ScansLikePosixIff(Flatten(w), Separators(ifs));
  }

  /** The same from the word before its expansion. */
  lemma ExpansionSplitsLikePosixIff(w: Word, env: Env)
    requires env.ifs != Some("") && RunWord(w, env, false).Some?
    ensures var r, atoms, seps := RunWord(w, env, false).value, WordAtoms(w, env, false), Separators(env.ifs);
      Expanded(r) && (FieldTexts(r, env.ifs) == PosixSplit(atoms, seps) <==> Conforms(atoms, seps))
  {
    RunWordMeans(w, env, false);
    WordSplitsLikePosixIff(RunWord(w, env, false).value, env.ifs);
  }

  /** `"a"$x` with a blank and `b` in x: the field of quoted text is not ended by the blank. */
  lemma QuotedTextSwallowsBlank(env: Env)
    requires env.ifs == None && "x" in env.vars && env.vars["x"] == " b"
    ensures var w := List([List([Str("a", false, false)], true), Param("x")], false);
      var r := RunWord(w, env, false);
      r.Some? && Expanded(r.value)
      && FieldTexts(r.value, env.ifs) == ["ab"]
      && PosixSplit(WordAtoms(w, env, false), Separators(env.ifs)) == ["a", "b"]
  {
    var a, x, ifs := List([Str("a", false, false)], true), Str(" b", false, true), DEFAULT_IFS;
    var w := List([a, Param("x")], false);
    assert RunWords(a.children[1..], env, true) == Some([]) && RunWords(a.children, env, true) == Some(a.children + []);
    assert a.children + [] == a.children && !HasAt(a.children);
    assert "x"[0] != AT[0] && "x"[0] != STAR[0];
    assert RunWord(Param("x"), env, false) == Some(x);
    assert RunWords([], env, false) == Some([]);
    assert RunWord(a, env, false) == Some(a);
    assert w.children[0] == a && w.children[1..] == [Param("x")] && [Param("x")][1..] == [];
    assert RunWords([Param("x")], env, false) == Some([x] + []);
    assert RunWords(w.children, env, false) == Some([a] + ([x] + []));
    assert RunWord(w, env, false) == Some(List([a] + ([x] + []), false));
    RunWordMeans(w, env, false);
    FieldTextsAreScan(RunWord(w, env, false).value, env.ifs);
    BlankAtoms(a, w, env);
    ThreeAtoms();
  }

  lemma BlankAtoms(a: Word, w: Word, env: Env)
    requires a == List([Str("a", false, false)], true) && w == List([a, Param("x")], false)
    requires "x" in env.vars && env.vars["x"] == " b"
    ensures WordAtoms(w, env, false) == [Keep("a", true), Ch(' '), Ch('b')]
  {
    assert "x"[0] != AT[0] && "x"[0] != STAR[0];
    assert a.children[1..] == [] && PlainTexts([], env) == "" && "a" + "" == "a";
    assert WordAtoms(a, env, false) == [Keep("a", true)];
    assert w.children[0] == a && w.children[1..] == [Param("x")] && [Param("x")][1..] == [];
    assert WordsAtoms([], env, false) == [];
    assert WordAtoms(Param("x"), env, false) == Splittable(" b") == [Ch(' '), Ch('b')];
    assert WordsAtoms([Param("x")], env, false) == Splittable(" b") + [];
    assert WordsAtoms(w.children, env, false) == [Keep("a", true)] + (Splittable(" b") + []);
  }

  lemma ThreeAtoms()
    ensures var atoms := [Keep("a", true), Ch(' '), Ch('b')];
      ScanAll(atoms, DEFAULT_IFS, SCAN_START).texts == ["ab"] && PosixSplit(atoms, DEFAULT_IFS) == ["a", "b"]
  {
    var atoms, ifs := [Keep("a", true), Ch(' '), Ch('b')], DEFAULT_IFS;
    var st := Scan(["a"], true, true, false);
    assert atoms[1..] == [Ch(' '), Ch('b')] && atoms[2..] == [Ch('b')] && atoms[3..] == [];
    assert [Ch(' '), Ch('b')][1..] == [Ch('b')] && [Ch('b')][1..] == [];
    assert ' ' in ifs && 'b' !in ifs;
    assert "a" + "b" == "ab" && "b" + "" == "b" && "a" + "" == "a" && AtomText(Ch('b')) == "b";
    assert Step(Ch('b'), ifs, st).texts == ["ab"];
    assert ScanAll([], ifs, Step(Ch('b'), ifs, st)) == Step(Ch('b'), ifs, st);
    assert ScanAll([Ch('b')], ifs, st) == Step(Ch('b'), ifs, st);
    assert Step(Ch(' '), ifs, st) == st;
    assert ScanAll(atoms[1..], ifs, st) == ScanAll([Ch('b')], ifs, st);
    assert Step(atoms[0], ifs, SCAN_START) == st;
    PosixSplitIsFrom(atoms, ifs);
    assert From([], ifs, InField) == [""];
    assert From([Ch('b')], ifs, AfterBlank) == Prepend("b", [""]) == ["b"];
    assert From([Ch(' '), Ch('b')], ifs, InField) == ["", "b"];
    assert ["", "b"][1..] == ["b"];
    assert From(atoms, ifs, AfterDelimiter) == Prepend("a", ["", "b"]) == ["a", "b"];
  }
}

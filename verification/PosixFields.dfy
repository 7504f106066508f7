/**
 * Text that may be split everywhere: exactly when its fields are those of section 2.6.5 of
 * POSIX.1-2017 XCU, and what the code makes of white space and of joined pieces.
 */
module PosixFields {
  import opened Chars
  import opened FieldSplitting
  import opened FieldReference
  import Posix = PosixSplitting

  /** The fields that the standard asks for. */
  function PosixSplit(s: string, ifs: string): seq<string> {
    Posix.PosixSplit(Splittable(s), ifs)
  }

  /** A run after a field conforms unless it starts with one non-white-space separator and has another. */
  predicate RunConforms(run: string) {
    NonSpaces(run) <= 1 || IsSpace(run[0])
  }

  predicate ConformsFrom(s: string, ifs: string) {
    s == "" ||
    var n := Span(s, ifs);
    var m := RunLength(s[n..], ifs);
    assert n == 0 ==> s[n..] == s && m > 0;
    RunConforms(s[n..][..m]) && ConformsFrom(s[n..][m..], ifs)
  }

  /** No non-white-space separator before the first field, and every later run conforms. */
  predicate Conforms(s: string, ifs: string) {
    var m := RunLength(s, ifs);
    NonSpaces(s[..m]) == 0 && ConformsFrom(s[m..], ifs)
  }

  lemma SplittableParts(s: string, n: nat)
    requires n <= |s|
    ensures Splittable(s)[..n] == Splittable(s[..n]) && Splittable(s)[n..] == Splittable(s[n..])
  {
  }

  lemma {:induction false} SameLengths(s: string, ifs: string)
    ensures Posix.ContentLength(Splittable(s), ifs) == Span(s, ifs)
    ensures Posix.SeparatorsLength(Splittable(s), ifs) == RunLength(s, ifs)
  {
    if s != "" {
      SplittableParts(s, 1);
      SameLengths(s[1..], ifs);
    }
  }

  lemma {:induction false} SameCount(run: string)
    ensures Posix.NonSpaceCount(Splittable(run)) == NonSpaces(run)
  {
    hide IsSpace;
    if run != "" {
      SplittableParts(run, 1);
      SameCount(run[1..]);
    }
  }

  /** Without double quotes the condition only looks at the runs of separators. */
  lemma {:induction false} SameConforms(s: string, ifs: string, nonSpace: bool)
    requires s == "" || s[0] !in ifs
    ensures Posix.ConformsFrom(Splittable(s), ifs, nonSpace) <==> ConformsFrom(s, ifs)
    decreases |s|
  {
    hide IsSpace;
    if s != "" {
      var n := Span(s, ifs);
      var m := RunLength(s[n..], ifs);
      var run, rest := s[n..][..m], s[n..][m..];
      SameLengths(s, ifs);
      SameLengths(s[n..], ifs);
      SplittableParts(s, n);
      SplittableParts(s[n..], m);
      assert !Posix.OnlyDoubleQuoted(Splittable(s[..n]));
      SameCount(run);
      if run != "" {
        SplittableParts(run, 1);
        SameCount(run[..1]);
        assert run[..1][1..] == "";
      }
      RunIsLongest(s[n..], ifs);
      SameConforms(rest, ifs, run != "" && Posix.NonSpaceCount(Splittable(run)[1..]) > 0);
    }
  }

  /**
   * Splitting agrees with the standard exactly when no non-white-space separator comes before
   * the first field, and none follows another one that itself ended a field.
   */
  lemma SplitsLikePosixIff(s: string, ifs: string)
    ensures SplitText(s, ifs) == PosixSplit(s, ifs) <==> Conforms(s, ifs)
  {
    hide ConformsFrom, Posix.ConformsFrom, Posix.PosixSplit;
    var m := RunLength(s, ifs);
    SameLengths(s, ifs);
    SplittableParts(s, m);
    SameCount(s[..m]);
    RunIsLongest(s, ifs);
    SameConforms(s[m..], ifs, false);
    Posix.ScansLikePosixIff(Splittable(s), ifs);
  }

  const COLONS := [Ch('a'), Ch(':'), Ch(':'), Ch('b')]

  lemma ColonsInStandard()
    ensures Posix.From(COLONS, ":", Posix.AfterDelimiter) == ["a", "", "b"]
  {
    var b := [Ch('b')];
    assert "a" + "" == "a" && "b" + "" == "b" && ["", "b"][1..] == ["b"] && ["", "", "b"][1..] == ["", "b"];
    assert COLONS[1..] == [Ch(':')] + ([Ch(':')] + b) && ([Ch(':')] + ([Ch(':')] + b))[1..] == [Ch(':')] + b;
    assert ([Ch(':')] + b)[1..] == b && b[1..] == [];
    assert Posix.From([], ":", Posix.InField) == [""];
    assert Posix.From(b, ":", Posix.AfterDelimiter) == Posix.Prepend("b", [""]) == ["b"];
    assert Posix.From([Ch(':')] + b, ":", Posix.AfterDelimiter) == ["", "b"];
    assert Posix.From(COLONS[1..], ":", Posix.InField) == ["", "", "b"];
    assert Posix.From(COLONS, ":", Posix.AfterDelimiter) == Posix.Prepend("a", ["", "", "b"]);
  }

  lemma ColonsInCode()
    ensures Posix.CodeFrom(COLONS, ":", false, true, false) == ["a", "b"]
  {
    var b := [Ch('b')];
    assert "a" + "" == "a" && "b" + "" == "b" && ["", "b"][1..] == ["b"] && ["", "", "b"][1..] == ["", "b"];
    assert COLONS[1..] == [Ch(':')] + ([Ch(':')] + b) && ([Ch(':')] + ([Ch(':')] + b))[1..] == [Ch(':')] + b;
    assert ([Ch(':')] + b)[1..] == b && b[1..] == [];
    assert Posix.CodeFrom([], ":", true, false, false) == [""];
    assert Posix.CodeFrom(b, ":", false, true, true) == Posix.Prepend("b", [""]) == ["b"];
    assert Posix.CodeFrom([Ch(':')] + b, ":", false, true, false) == ["b"];
    assert Posix.CodeFrom(COLONS[1..], ":", true, false, false) == ["", "b"];
    assert Posix.CodeFrom(COLONS, ":", false, true, false) == Posix.Prepend("a", ["", "b"]);
  }

  /** The shortest failing text: two colons between two letters lose the empty field. */
  lemma AdjacentColonsLoseAField()
    ensures SplitText("a::b", ":") == ["a", "b"] && PosixSplit("a::b", ":") == ["a", "", "b"]
  {
    assert Splittable("a::b") == COLONS;
    hide Posix.From, Posix.CodeFrom;
    Posix.PosixSplitIsFrom(COLONS, ":");
    ColonsInStandard();
    Posix.ScanIsCodeFrom(COLONS, ":", SCAN_START);
    ColonsInCode();
    assert [] + ["a", "b"] == ["a", "b"];
  }

  // -----------------------------------------------------------------------
  // White space only, and joined pieces.

  lemma {:induction false} SpanOfField(field: string, tail: string, ifs: string)
    requires NoneIn(field, ifs)
    requires tail == "" || tail[0] in ifs
    ensures Span(field + tail, ifs) == |field|
  {
    if field == "" {
      assert field + tail == tail;
    } else {
      assert (field + tail)[1..] == field[1..] + tail;
      SpanOfField(field[1..], tail, ifs);
    }
  }

  lemma {:induction false} RunLengthOfRun(run: string, rest: string, ifs: string)
    requires AllIn(run, ifs)
    requires rest == "" || rest[0] !in ifs
    ensures RunLength(run + rest, ifs) == |run|
  {
    if run == "" {
      assert run + rest == rest;
    } else {
      assert (run + rest)[1..] == run[1..] + rest;
      RunLengthOfRun(run[1..], rest, ifs);
    }
  }

  /** The maximal non-empty runs of non-IFS characters. */
  function Runs(s: string, ifs: string): seq<string> {
    if s == "" then []
    else if s[0] in ifs then Runs(s[1..], ifs)
    else
      var n := Span(s, ifs);
      [s[..n]] + Runs(s[n..], ifs)
  }

  lemma {:induction false} NoNonSpaces(run: string, ifs: string)
    requires AllIn(run, ifs) && forall c <- ifs :: IsSpace(c)
    ensures NonSpaces(run) == 0
  {
    hide IsSpace, Empties;
    if run != "" {
      NoNonSpaces(run[1..], ifs);
    }
  }

  lemma {:induction false} RunsSkipRun(run: string, rest: string, ifs: string)
    requires AllIn(run, ifs)
    ensures Runs(run + rest, ifs) == Runs(rest, ifs)
  {
    hide IsSpace, Empties;
    if run == "" {
      assert run + rest == rest;
    } else {
      assert (run + rest)[1..] == run[1..] + rest;
      RunsSkipRun(run[1..], rest, ifs);
    }
  }

  lemma RunsOfParts(field: string, run: string, rest: string, ifs: string)
    requires field != "" && (run == "" ==> rest == "")
    requires NoneIn(field, ifs) && AllIn(run, ifs)
    ensures Runs(field + run + rest, ifs) == [field] + Runs(rest, ifs)
  {
    hide IsSpace, Empties;
    var s, tail := field + run + rest, run + rest;
    assert s == field + tail && s[0] == field[0];
    SpanOfField(field, tail, ifs);
    assert s[..|field|] == field && s[|field|..] == tail;
    assert Runs(s, ifs) == [field] + Runs(tail, ifs);
    RunsSkipRun(run, rest, ifs);
  }

  lemma FieldsFromParts(field: string, run: string, rest: string, ifs: string)
    requires field != "" && (run == "" ==> rest == "")
    requires NoneIn(field, ifs) && AllIn(run, ifs)
    requires rest == "" || rest[0] !in ifs
    ensures FieldsFrom(field + run + rest, ifs) == [field] + FieldsOfRun(run) + FieldsFrom(rest, ifs)
  {
    hide FieldsOfRun;
    var s, tail := field + run + rest, run + rest;
    assert s == field + tail;
    SpanOfField(field, tail, ifs);
    RunLengthOfRun(run, rest, ifs);
    assert s[..|field|] == field && s[|field|..] == tail;
    assert tail[..|run|] == run && tail[|run|..] == rest;
  }

  lemma RunsStep(field: string, run: string, rest: string, ifs: string)
    requires field != "" && (run == "" ==> rest == "")
    requires NoneIn(field, ifs) && AllIn(run, ifs)
    requires rest == "" || rest[0] !in ifs
    requires FieldsOfRun(run) == [] && FieldsFrom(rest, ifs) == Runs(rest, ifs)
    ensures FieldsFrom(field + run + rest, ifs) == Runs(field + run + rest, ifs)
  {
    hide *;
    FieldsFromParts(field, run, rest, ifs);
    RunsOfParts(field, run, rest, ifs);
    assert [field] + [] + Runs(rest, ifs) == [field] + Runs(rest, ifs);
  }

  lemma {:induction false} FieldsFromAreRuns(s: string, ifs: string)
    requires forall c <- ifs :: IsSpace(c)
    requires s == "" || s[0] !in ifs
    ensures FieldsFrom(s, ifs) == Runs(s, ifs)
    decreases |s|
  {
    if s != "" {
      hide IsSpace, FieldsFrom, Runs;
      var field, run, rest := CutField(s, ifs);
      NoEmptyFields(run, ifs);
      FieldsFromAreRuns(rest, ifs);
      RunsStep(field, run, rest, ifs);
    }
  }

  lemma NoEmptyFields(run: string, ifs: string)
    requires AllIn(run, ifs) && forall c <- ifs :: IsSpace(c)
    ensures FieldsOfRun(run) == []
  {
    if run != "" {
      NoNonSpaces(run[1..], ifs);
    }
  }

  /** With an IFS of white space only, the fields are the maximal runs of other characters. */
  lemma WhiteSpaceIfsGivesRuns(s: string, ifs: string)
    requires forall c <- ifs :: IsSpace(c)
    ensures SplitText(s, ifs) == Runs(s, ifs)
  {
    hide IsSpace, Empties;
    var m := RunLength(s, ifs);
    var run, rest := s[..m], s[m..];
    assert s == run + rest;
    RunIsLongest(s, ifs);
    NoNonSpaces(run, ifs);
    SplitTextByRuns(run, rest, ifs);
    RunsSkipRun(run, rest, ifs);
    FieldsFromAreRuns(rest, ifs);
  }

  function JoinWith(pieces: seq<string>, c: char): string {
    if pieces == [] then ""
    else if |pieces| == 1 then pieces[0]
    else pieces[0] + [c] + JoinWith(pieces[1..], c)
  }

  ghost predicate CleanPieces(pieces: seq<string>, ifs: string) {
    forall p <- pieces :: p != "" && NoneIn(p, ifs)
  }

  lemma {:induction false} FieldsOfJoin(pieces: seq<string>, c: char, ifs: string)
    requires c in ifs && CleanPieces(pieces, ifs)
    ensures var s := JoinWith(pieces, c);
      (s == "" || s[0] !in ifs) && FieldsFrom(s, ifs) == pieces
  {
    if pieces != [] {
      var field, rest := pieces[0], JoinWith(pieces[1..], c);
      var run := if |pieces| == 1 then "" else [c];
      assert field in pieces && forall p <- pieces[1..] :: p in pieces;
      JoinFirst(pieces, c);
      OneSeparator(run);
      hide JoinWith, FieldsFrom, FieldsOfRun;
      FieldsOfJoin(pieces[1..], c, ifs);
      FieldsFromParts(field, run, rest, ifs);
      assert (field + run + rest)[0] == field[0] && field[0] !in ifs;
      assert [field] + [] + pieces[1..] == pieces;
    } else {
      assert FieldsFrom("", ifs) == [];
    }
  }

  lemma JoinFirst(pieces: seq<string>, c: char)
    requires pieces != []
    ensures JoinWith(pieces, c) == pieces[0] + (if |pieces| == 1 then "" else [c]) + JoinWith(pieces[1..], c)
  {
  }

  lemma OneSeparator(run: string)
    requires |run| <= 1
    ensures FieldsOfRun(run) == []
  {
  }

  /** Splitting undoes joining, for non-empty pieces without IFS characters and any IFS character. */
  lemma SplitUndoesJoin(pieces: seq<string>, c: char, ifs: string)
    requires c in ifs && CleanPieces(pieces, ifs)
    ensures SplitText(JoinWith(pieces, c), ifs) == pieces
  {
    FieldsOfJoin(pieces, c, ifs);
    var s := JoinWith(pieces, c);
    SplitTextByRuns("", s, ifs);
    assert "" + s == s;
  }
}

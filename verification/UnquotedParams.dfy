/**
 * Unquoted parameters: `$x`, `$@` and `$*` outside double quotes, from the word to its fields, and
 * exactly when unquoted `$@` gives the fields of each positional parameter on its own (section
 * 2.5.2 of POSIX.1-2017 XCU).
 */
module UnquotedParams {
  import opened Chars
  import opened Words
  import opened FieldSplitting
  import opened FieldReference
  import opened Expansion
  import Posix = PosixSplitting

  lemma SplittableNext(s: string)
    requires s != ""
    ensures Splittable(s)[0] == Ch(s[0]) && Splittable(s)[1..] == Splittable(s[1..])
  {
  }

  /** The fields from here on; between fields if `closed`, after a separator that ended none if `nonSpace`. */
  function Rest(s: string, ifs: string, closed: bool, nonSpace: bool): (r: seq<string>)
    ensures !closed ==> r != []
  {
    Posix.CodeFrom(Splittable(s), ifs, !closed, closed, closed && nonSpace)
  }

  lemma RestStep(s: string, ifs: string, closed: bool, nonSpace: bool)
    requires s != ""
    ensures Rest(s, ifs, closed, nonSpace) ==
      if s[0] !in ifs then Posix.Prepend([s[0]], Rest(s[1..], ifs, false, false))
      else if !closed then [""] + Rest(s[1..], ifs, true, false)
      else if IsSpace(s[0]) then Rest(s[1..], ifs, true, nonSpace)
      else if nonSpace then [""] + Rest(s[1..], ifs, true, true)
      else Rest(s[1..], ifs, true, true)
  {
    hide IsSpace;
    SplittableNext(s);
  }

  lemma RestIsSplitText(s: string, ifs: string)
    ensures SplitText(s, ifs) == Rest(s, ifs, true, false)
  {
    Posix.ScanIsCodeFrom(Splittable(s), ifs, SCAN_START);
    assert [] + Rest(s, ifs, true, false) == Rest(s, ifs, true, false);
  }

  /** The flags after a text; in a field if not `closed`. */
  datatype Flags = Flags(closed: bool, nonSpace: bool)

  function FlagsAfter(s: string, ifs: string, flags: Flags): Flags {
    if s == "" then flags
    else FlagsAfter(s[1..], ifs,
      if s[0] !in ifs then Flags(false, false)
      else if !flags.closed then Flags(true, false)
      else Flags(true, flags.nonSpace || !IsSpace(s[0])))
  }

  /** What a separator and the text after it add, where the flags are these. */
  function Joint(c: char, rest: string, ifs: string, flags: Flags): seq<string> {
    if !flags.closed then Rest(rest, ifs, true, false)
    else if IsSpace(c) then Rest(rest, ifs, true, flags.nonSpace)
    else (if flags.nonSpace then [""] else []) + Rest(rest, ifs, true, true)
  }

  lemma {:induction false} RestOfJoint(a: string, c: char, rest: string, ifs: string, flags: Flags)
    requires c in ifs && (!flags.closed ==> !flags.nonSpace)
    ensures Rest(a + [c] + rest, ifs, flags.closed, flags.nonSpace)
      == Rest(a, ifs, flags.closed, flags.nonSpace) + Joint(c, rest, ifs, FlagsAfter(a, ifs, flags))
  {
    hide IsSpace, Rest, Joint;
    var s := a + [c] + rest;
    var tail := Joint(c, rest, ifs, FlagsAfter(a, ifs, flags));
    if a == "" {
      assert s == [c] + rest;
      JointFirst(c, rest, ifs, flags);
    } else {
      assert s[0] == a[0] && s[1..] == a[1..] + [c] + rest;
      var next := FlagsAfter([a[0]], ifs, flags);
      NextFlags(a, ifs, flags);
      RestOfJoint(a[1..], c, rest, ifs, next);
      JointLater(s, a, ifs, flags, Rest(a[1..], ifs, next.closed, next.nonSpace), tail);
    }
  }

  lemma NextFlags(a: string, ifs: string, flags: Flags)
    requires a != ""
    ensures var next := FlagsAfter([a[0]], ifs, flags);
      FlagsAfter(a, ifs, flags) == FlagsAfter(a[1..], ifs, next) && (!next.closed ==> !next.nonSpace)
  {
    hide IsSpace;
    assert [a[0]][1..] == "";
  }

  lemma JointFirst(c: char, rest: string, ifs: string, flags: Flags)
    requires c in ifs && (!flags.closed ==> !flags.nonSpace)
    ensures Rest([c] + rest, ifs, flags.closed, flags.nonSpace)
      == Rest("", ifs, flags.closed, flags.nonSpace) + Joint(c, rest, ifs, flags)
  {
    hide IsSpace, Rest;
    assert ([c] + rest)[1..] == rest;
    RestStep([c] + rest, ifs, flags.closed, flags.nonSpace);
    RestOfNothing(ifs, flags.closed, flags.nonSpace);
    var tail := Joint(c, rest, ifs, flags);
    assert [] + tail == tail;
  }

  /** One character later the same text follows. */
  lemma JointLater(s: string, a: string, ifs: string, flags: Flags, own: seq<string>, tail: seq<string>)
    requires s != "" && a != "" && s[0] == a[0] && (!flags.closed ==> !flags.nonSpace)
    requires var next := FlagsAfter([a[0]], ifs, flags);
      own == Rest(a[1..], ifs, next.closed, next.nonSpace) && Rest(s[1..], ifs, next.closed, next.nonSpace) == own + tail
    ensures Rest(s, ifs, flags.closed, flags.nonSpace) == Rest(a, ifs, flags.closed, flags.nonSpace) + tail
  {
    hide IsSpace, Rest, Posix.Prepend;
    OneFlags(a[0], ifs, flags);
    RestStep(s, ifs, flags.closed, flags.nonSpace);
    RestStep(a, ifs, flags.closed, flags.nonSpace);
    hide FlagsAfter;
    EmptyBefore(own, tail);
    if a[0] !in ifs {
      PrependBefore([a[0]], own, tail);
    }
  }

  lemma OneFlags(c: char, ifs: string, flags: Flags)
    ensures FlagsAfter([c], ifs, flags) ==
      if c !in ifs then Flags(false, false)
      else if !flags.closed then Flags(true, false)
      else Flags(true, flags.nonSpace || !IsSpace(c))
  {
    hide IsSpace;
    var one := [c];
    assert one[1..] == "" && one[0] == c;
  }

  lemma EmptyBefore(a: seq<string>, b: seq<string>)
    ensures [""] + (a + b) == [""] + a + b
  {
  }

  lemma PrependBefore(text: string, a: seq<string>, b: seq<string>)
    requires a != []
    ensures Posix.Prepend(text, a + b) == Posix.Prepend(text, a) + b
  {
  }

  lemma RestOfNothing(ifs: string, closed: bool, nonSpace: bool)
    ensures Rest("", ifs, closed, nonSpace) == if closed then [] else [""]
  {
  }

  /** How many separators other than white space come before the first field. */
  function LeadingNonSpaces(s: string, ifs: string): nat {
    NonSpaces(s[..RunLength(s, ifs)])
  }

  lemma LeadingNext(s: string, ifs: string)
    requires s != "" && s[0] in ifs
    ensures LeadingNonSpaces(s, ifs) == (if IsSpace(s[0]) then 0 else 1) + LeadingNonSpaces(s[1..], ifs)
  {
    hide IsSpace;
    var n := RunLength(s, ifs);
    assert s[..n][1..] == s[1..][..n - 1] && s[..n][0] == s[0];
  }

  /** The flag left by a separator makes one more empty field of leading ones, and nothing else. */
  lemma {:induction false} FlagMatters(s: string, ifs: string)
    ensures if LeadingNonSpaces(s, ifs) == 0 then Rest(s, ifs, true, true) == Rest(s, ifs, true, false)
            else |Rest(s, ifs, true, true)| == |Rest(s, ifs, true, false)| + 1
  {
    hide IsSpace, Rest;
    if s == "" {
      RestOfNothing(ifs, true, true);
      RestOfNothing(ifs, true, false);
    } else {
      RestStep(s, ifs, true, true);
      RestStep(s, ifs, true, false);
      if s[0] in ifs {
        LeadingNext(s, ifs);
        FlagMatters(s[1..], ifs);
      }
    }
  }

  // -----------------------------------------------------------------------
  // All positional parameters.

  /** The fields of each parameter on its own. */
  function Each(args: seq<string>, ifs: string): seq<string> {
    if args == [] then [] else SplitText(args[0], ifs) + Each(args[1..], ifs)
  }

  /** The separators at the end of a text. */
  function TrailingRun(s: string, ifs: string): (t: string)
    ensures |t| <= |s|
  {
    if s == "" then ""
    else
      var t := TrailingRun(s[1..], ifs);
      if t == s[1..] && s[0] in ifs then s else t
  }

  /**
   * Is a separator, other than white space, left at the end that ended no field? The first one
   * after a field ends that field; in a text of separators only none does, and what was left
   * before it stays.
   */
  predicate LeavesSeparator(s: string, ifs: string, before: bool) {
    var t := TrailingRun(s, ifs);
    if t == s then before || NonSpaces(s) > 0 else t != "" && NonSpaces(t[1..]) > 0
  }

  /**
   * No separator takes part in a field of its neighbours. `left`: a separator, other than white
   * space, was left before these parameters. The first one must then not start with such a
   * separator; and if it ends in separators and leaves one, the joining character must be white
   * space. A joining character that is not white space is left itself if it ends no field.
   */
  predicate KeptApart(args: seq<string>, c: char, ifs: string, left: bool) {
    args == [] || (
      (left ==> LeadingNonSpaces(args[0], ifs) == 0) &&
      (|args| == 1 ||
        var t, leaves := TrailingRun(args[0], ifs), LeavesSeparator(args[0], ifs, left);
        if t == "" && args[0] != "" then KeptApart(args[1..], c, ifs, false)
        else if IsSpace(c) then KeptApart(args[1..], c, ifs, leaves)
        else !leaves && KeptApart(args[1..], c, ifs, true)))
  }

  /** The flags that the code has after a text, by its separators at the end. */
  lemma {:induction false} FlagsByRuns(s: string, ifs: string, flags: Flags)
    requires !flags.closed ==> !flags.nonSpace
    ensures var t, r := TrailingRun(s, ifs), FlagsAfter(s, ifs, flags);
      if s == "" then r == flags
      else if t == s && flags.closed then r == Flags(true, LeavesSeparator(s, ifs, flags.nonSpace))
      else r == Flags(t != "", t != "" && NonSpaces(t[1..]) > 0)
  {
    hide IsSpace;
    if s != "" {
      var next := FlagsAfter([s[0]], ifs, flags);
      NextFlags(s, ifs, flags);
      OneFlags(s[0], ifs, flags);
      FlagsByRuns(s[1..], ifs, next);
    }
  }

  lemma {:induction false} JoinFromFront(args: seq<string>, sep: string)
    requires |args| > 1
    ensures JoinArgs(args, sep) == args[0] + sep + JoinArgs(args[1..], sep)
  {
    var init, last := args[..|args| - 1], args[|args| - 1];
    if |args| == 2 {
      assert init == [args[0]] && args[1..] == [last];
    } else {
      JoinFromFront(init, sep);
      assert init[1..] == args[1..][..|args| - 2] && args[1..][|args| - 2] == last;
      var x, y := args[0] + sep, JoinArgs(init[1..], sep);
      assert x + y + sep + last == x + (y + sep + last);
    }
  }

  /** Joined parameters give at least the fields of each, and just these if they are kept apart. */
  lemma {:induction false} CompareJoined(args: seq<string>, c: char, ifs: string, nonSpace: bool)
    requires c in ifs
    ensures var joined, each := Rest(JoinArgs(args, [c]), ifs, true, nonSpace), Each(args, ifs);
      if KeptApart(args, c, ifs, nonSpace) then joined == each else |joined| > |each|
    decreases args
  {
    hide IsSpace, Rest, SplitText;
    if args == [] {
      RestOfNothing(ifs, true, nonSpace);
    } else {
      var first := args[0];
      RestIsSplitText(first, ifs);
      FlagMatters(first, ifs);
      if |args| == 1 {
        assert Each(args[1..], ifs) == [];
      } else {
        var rest := JoinArgs(args[1..], [c]);
        var flags := FlagsAfter(first, ifs, Flags(true, nonSpace));
        FlagsByRuns(first, ifs, Flags(true, nonSpace));
        JoinFromFront(args, [c]);
        RestOfJoint(first, c, rest, ifs, Flags(true, nonSpace));
        CompareJoined(args[1..], c, ifs, true);
        CompareJoined(args[1..], c, ifs, false);
        assert [] + Rest(rest, ifs, true, true) == Rest(rest, ifs, true, true);
      }
    }
  }

  lemma SplittableConcat(a: string, b: string)
    ensures Splittable(a + b) == Splittable(a) + Splittable(b)
  {
  }

  lemma {:induction false} ArgsAreSplittable(args: seq<string>, sep: string)
    ensures ArgAtoms(args, sep, false) == Splittable(JoinArgs(args, sep))
  {
    if args == [] {
      assert Splittable("") == [];
    } else {
      hide Splittable;
      var init, last := args[..|args| - 1], args[|args| - 1];
      ArgsAreSplittable(init, sep);
      if init == [] {
        assert args == [last] && ArgAtoms([], sep, false) == [];
        assert ArgAtoms(args, sep, false) == [] + [] + Splittable(last);
      } else {
        var joined := JoinArgs(init, sep);
        SplittableConcat(joined, sep);
        SplittableConcat(joined + sep, last);
      }
    }
  }

  /** An unquoted parameter in the middle of unquoted lists gives the fields of its value. */
  lemma UnquotedParameterFields(name: string, env: Env)
    requires env.ifs != Some("") && name != AT && name != STAR && name in env.vars
    ensures var r := RunWord(List([Param(name)], false), env, false);
      r.Some? && Expanded(r.value) && FieldTexts(r.value, env.ifs) == SplitText(env.vars[name], Separators(env.ifs))
  {
    var w := Str(env.vars[name], false, true);
    assert [Param(name)][1..] == [] && RunWords([], env, false) == Some([]);
    assert RunWord(Param(name), env, false) == Some(w);
    assert RunWords([Param(name)], env, false) == Some([w] + []) && [w] + [] == [w];
    assert RunWord(List([Param(name)], false), env, false) == Some(List([w], false));
    OneWord(w);
    SplittableWordFields(List([w], false), env.vars[name], env.ifs);
  }

  /**
   * Unquoted `$@` and `$*`: the fields of all parameters joined by the first IFS character. They
   * are the fields of each parameter on its own exactly when the parameters are kept apart.
   */
  lemma UnquotedPositionalFields(name: string, env: Env)
    requires env.ifs != Some("") && (name == AT || name == STAR)
    ensures var r := RunWord(List([Param(name)], false), env, false);
      var seps, c := Separators(env.ifs), Joiner(env.ifs)[0];
      r.Some? && Expanded(r.value)
      && FieldTexts(r.value, env.ifs) == SplitText(JoinArgs(env.args, [c]), seps)
      && (FieldTexts(r.value, env.ifs) == Each(env.args, seps) <==> KeptApart(env.args, c, seps, false))
  {
    var w := List([Param(name)], false);
    var seps, c := Separators(env.ifs), Joiner(env.ifs)[0];
    assert w.children[1..] == [] && RunWords([], env, false) == Some([]);
    var p := PositionalParams(env, false);
    assert RunWord(Param(name), env, false) == Some(p) && w.children[0] == Param(name);
    assert RunWords(w.children, env, false) == Some([p] + []);
    RunWordMeans(w, env, false);
    var r := RunWord(w, env, false).value;
    assert Joiner(env.ifs) == [c];
    assert WordsAtoms([], env, false) == [] && WordAtoms(Param(name), env, false) == ArgAtoms(env.args, [c], false);
    assert WordsAtoms(w.children, env, false) == ArgAtoms(env.args, [c], false) + [];
    assert WordAtoms(w, env, false) == ArgAtoms(env.args, [c], false) + [];
    ArgsAreSplittable(env.args, [c]);
    SplittableWordFields(r, JoinArgs(env.args, [c]), env.ifs);
    RestIsSplitText(JoinArgs(env.args, [c]), seps);
    CompareJoined(env.args, c, seps, false);
  }

  /** With white space only in the IFS they always are. */
  lemma {:induction false} WhiteSpaceKeepsApart(args: seq<string>, c: char, ifs: string)
    requires c in ifs && forall d <- ifs :: IsSpace(d)
    ensures KeptApart(args, c, ifs, false)
  {
    if |args| > 1 {
      NothingLeft(args[0], ifs);
      WhiteSpaceKeepsApart(args[1..], c, ifs);
    }
  }

  lemma NothingLeft(s: string, ifs: string)
    requires forall d <- ifs :: IsSpace(d)
    ensures !LeavesSeparator(s, ifs, false)
  {
    var t := TrailingRun(s, ifs);
    RunIsSeparators(s, ifs);
    NoNonSpaces(t);
    if t != "" {
      NoNonSpaces(t[1..]);
    }
  }

  lemma {:induction false} RunIsSeparators(s: string, ifs: string)
    ensures forall c <- TrailingRun(s, ifs) :: c in ifs
  {
    if s != "" {
      RunIsSeparators(s[1..], ifs);
    }
  }

  lemma {:induction false} NoNonSpaces(run: string)
    requires forall c <- run :: IsSpace(c)
    ensures NonSpaces(run) == 0
  {
    if run != "" {
      NoNonSpaces(run[1..]);
    }
  }

  /** Two parameters `a:` and `:b` with IFS `:` make an empty field between them. */
  lemma NeighboursMakeAField()
    ensures SplitText(JoinArgs(["a:", ":b"], ":"), ":") == ["a", "", "b"] && Each(["a:", ":b"], ":") == ["a", "b"]
  {
    TwoArgs("a:", ":b", ":");
    assert "a:" + ":" + ":b" == "a:::b";
    ColonRest();
    RestIsSplitText("a:::b", ":");
    RestIsSplitText("a:", ":");
    RestIsSplitText(":b", ":");
    hide Rest, SplitText;
    assert ["a:", ":b"][1..] == [":b"] && [":b"][1..] == [];
    assert Each([":b"], ":") == ["b"] + [];
  }

  lemma TwoArgs(a: string, b: string, sep: string)
    ensures JoinArgs([a, b], sep) == a + sep + b
  {
    assert [a, b][..1] == [a];
  }

  lemma PrependEmpty(text: string, rest: seq<string>)
    ensures Posix.Prepend(text, [""] + rest) == [text] + rest
  {
    assert text + "" == text && ([""] + rest)[1..] == rest;
  }

  lemma ColonRest()
    ensures Rest("a:::b", ":", true, false) == ["a", "", "b"]
    ensures Rest("a:", ":", true, false) == ["a"]
    ensures Rest(":b", ":", true, false) == ["b"]
  {
    hide Rest;
    RestOfNothing(":", true, false);
    RestOfNothing(":", false, false);
    assert "b"[1..] == "" && ":b"[1..] == "b" && "::b"[1..] == ":b" && ":::b"[1..] == "::b" && "a:::b"[1..] == ":::b";
    PrependEmpty("b", []);
    RestStep("b", ":", true, true);
    RestStep(":b", ":", true, true);
    RestStep(":b", ":", true, false);
    RestStep("::b", ":", true, false);
    RestStep(":::b", ":", false, false);
    assert Rest(":::b", ":", false, false) == ["", "", "b"];
    PrependEmpty("a", ["", "b"]);
    RestStep("a:::b", ":", true, false);
    assert ":"[1..] == "" && "a:"[1..] == ":";
    RestStep(":", ":", false, false);
    PrependEmpty("a", []);
    RestStep("a:", ":", true, false);
  }
}

/** `"$@"` and `"$*"` (section 2.5.2 of POSIX.1-2017 XCU), from the word to its fields. */
module QuotedParams {
  import opened Chars
  import opened Words
  import opened FieldSplitting
  import opened FieldReference
  import opened Expansion

  /** Two lists of fields written next to each other: the touching ends become one field. */
  function Glue(a: seq<string>, b: seq<string>): seq<string> {
    if a == [] then b
    else if b == [] then a
    else a[..|a| - 1] + [a[|a| - 1] + b[0]] + b[1..]
  }

  /** Inside double quotes a `$@` stands for all parameters, and anything else for its text. */
  function QuotedFields(children: seq<Word>, env: Env): seq<string> {
    if children == [] then []
    else
      Glue(if IsAt(children[0]) then env.args else [PlainText(children[0], env)],
           QuotedFields(children[1..], env))
  }

  lemma GlueAssociates(a: seq<string>, b: seq<string>, c: seq<string>)
    ensures Glue(Glue(a, b), c) == Glue(a, Glue(b, c))
  {
    if a != [] && b != [] && c != [] {
      var x, y, z := a[|a| - 1], b[0], c[0];
      if |b| == 1 {
        assert x + y + z == x + (y + z);
        assert Glue(a, b) == a[..|a| - 1] + [x + y];
        assert Glue(b, c) == [y + z] + c[1..];
      } else {
        var b', y' := b[1..|b| - 1], b[|b| - 1];
        assert b == [y] + b' + [y'];
        assert Glue(a, b) == a[..|a| - 1] + [x + y] + b' + [y'];
        assert Glue(b, c) == [y] + b' + [y' + z] + c[1..];
        assert Glue(Glue(a, b), c) == a[..|a| - 1] + [x + y] + b' + [y' + z] + c[1..];
      }
    }
  }

  /** Scan states between the parts of a double-quoted word. */
  ghost predicate Between(st: Scan) {
    && (st.open <==> st.texts != [])
    && (!st.open ==> st.inIfs)
  }

  lemma AddTextIsGlue(st: Scan, text: string)
    requires Between(st)
    ensures AddText(st, text).texts == Glue(st.texts, [text])
  {
  }

  lemma ScanOne(a: Atom, ifs: string, st: Scan)
    requires st.open ==> st.texts != []
    ensures ScanAll([a], ifs, st) == Step(a, ifs, st)
  {
  }

  /** A separator after a parameter closes its field, and the next parameter opens another. */
  lemma ScanNextArg(c: char, arg: string, ifs: string, st: Scan)
    requires c in ifs && st.open && st.texts != [] && !st.inIfs
    ensures ScanAll(Splittable([c]) + [Keep(arg, false)], ifs, st)
      == Scan(st.texts + [arg], true, false, false)
  {
    assert Splittable([c]) == [Ch(c)];
    ScanConcat([Ch(c)], [Keep(arg, false)], ifs, st);
    ScanOne(Ch(c), ifs, st);
    AddEmptyText(st);
    ScanOne(Keep(arg, false), ifs, st.(open := false, inIfs := true));
  }

  lemma GlueNext(a: seq<string>, b: seq<string>, last: string)
    requires b != []
    ensures Glue(a, b + [last]) == Glue(a, b) + [last]
  {
  }

  lemma LastArg(args: seq<string>, c: char)
    requires args != []
    ensures var init, end := args[..|args| - 1], [Keep(args[|args| - 1], false)];
      ArgAtoms(args, [c], true) == if init == [] then end else ArgAtoms(init, [c], true) + (Splittable([c]) + end)
  {
    hide Splittable;
    var init, end := args[..|args| - 1], [Keep(args[|args| - 1], false)];
    if init == [] {
      assert ArgAtoms(init, [c], true) == [] && [] + [] + end == end;
    } else {
      assert ArgAtoms(init, [c], true) + Splittable([c]) + end == ArgAtoms(init, [c], true) + (Splittable([c]) + end);
    }
  }

  lemma FirstArg(arg: string, ifs: string, st: Scan)
    requires Between(st)
    ensures var r := ScanAll([Keep(arg, false)], ifs, st);
      Between(r) && r.texts == Glue(st.texts, [arg]) && !r.inIfs
  {
    ScanOne(Keep(arg, false), ifs, st);
  }

  lemma NoArgs(c: char, ifs: string, st: Scan)
    requires Between(st)
    ensures ScanAll(ArgAtoms([], [c], true), ifs, st) == st && Glue(st.texts, []) == st.texts
  {
  }

  lemma {:induction false} ScanArgs(args: seq<string>, c: char, ifs: string, st: Scan)
    requires c in ifs && Between(st)
    ensures var r := ScanAll(ArgAtoms(args, [c], true), ifs, st);
      && Between(r)
      && r.texts == Glue(st.texts, args)
      && (args != [] ==> !r.inIfs)
  {
    hide ScanAll, ArgAtoms, Splittable, Step, Glue;
    if args == [] {
      NoArgs(c, ifs, st);
    } else {
      var init, last := args[..|args| - 1], args[|args| - 1];
      assert args == init + [last];
      var before, end := ArgAtoms(init, [c], true), [Keep(last, false)];
      LastArg(args, c);
      if init == [] {
        FirstArg(last, ifs, st);
      } else {
        ScanArgs(init, c, ifs, st);
        var st' := ScanAll(before, ifs, st);
        ScanConcat(before, Splittable([c]) + end, ifs, st);
        ScanNextArg(c, last, ifs, st');
        GlueNext(st.texts, init, last);
        assert ScanAll(ArgAtoms(args, [c], true), ifs, st) == Scan(st'.texts + [last], true, false, false);
      }
    }
  }

  lemma {:induction false} ScanQuotedAtoms(children: seq<Word>, env: Env, pending: Option<string>, st: Scan)
    requires env.ifs != Some("") && Between(st)
    ensures var fields := Glue(if pending.None? then [] else [pending.value], QuotedFields(children, env));
      ScanAll(QuotedAtoms(children, env, pending), Separators(env.ifs), st).texts == Glue(st.texts, fields)
    decreases |children|
  {
    JoinerSeparates(env.ifs);
    hide Joiner, Separators;
    var ifs := Separators(env.ifs);
    var flushed := if pending.None? then [] else [Keep(pending.value, true)];
    var own := if pending.None? then [] else [pending.value];
    var st1 := ScanAll(flushed, ifs, st);
    if pending.Some? {
      ScanOne(flushed[0], ifs, st);
      AddTextIsGlue(st, pending.value);
    }
    assert Between(st1) && st1.texts == Glue(st.texts, own);
    if children == [] {
    } else if IsAt(children[0]) {
      var args := ArgAtoms(env.args, Joiner(env.ifs), true);
      var rest := QuotedAtoms(children[1..], env, None);
      var fields := QuotedFields(children[1..], env);
      ScanConcat(flushed + args, rest, ifs, st);
      ScanConcat(flushed, args, ifs, st);
      assert Joiner(env.ifs) == [Joiner(env.ifs)[0]];
      ScanArgs(env.args, Joiner(env.ifs)[0], ifs, st1);
      var st2 := ScanAll(args, ifs, st1);
      ScanQuotedAtoms(children[1..], env, None, st2);
      GlueAssociates(Glue(st.texts, own), env.args, fields);
      GlueAssociates(st.texts, own, Glue(env.args, fields));
    } else {
      var text := PlainText(children[0], env);
      var pending' := Some((if pending.None? then "" else pending.value) + text);
      ScanQuotedAtoms(children[1..], env, pending', st);
      GlueAssociates(own, [text], QuotedFields(children[1..], env));
      if pending.None? {
        assert "" + text == text;
      }
      assert Glue(own, [text]) == [pending'.value];
    }
  }

  /** A part without `$@` is one field. */
  lemma {:induction false} NoAtOneField(children: seq<Word>, env: Env)
    requires children != [] && !HasAt(children)
    ensures QuotedFields(children, env) == [PlainTexts(children, env)]
  {
    assert !IsAt(children[0]);
    if |children| == 1 {
      assert QuotedFields(children[1..], env) == [] && PlainTexts(children[1..], env) == "";
      assert PlainText(children[0], env) + "" == PlainText(children[0], env);
    } else {
      assert forall w <- children[1..] :: w in children;
      NoAtOneField(children[1..], env);
    }
  }

  /**
   * The fields of a double-quoted word, whatever its parts and the IFS (but empty): the parts
   * glued together, each `$@` giving one field per positional parameter.
   */
  lemma DoubleQuotedFields(children: seq<Word>, env: Env)
    requires env.ifs != Some("")
    requires RunWord(List(children, true), env, false).Some?
    ensures var r := RunWord(List(children, true), env, false).value;
      && Expanded(r)
      && FieldTexts(r, env.ifs) == if children == [] then [""] else QuotedFields(children, env)
  {
    var w := List(children, true);
    var r := RunWord(w, env, false).value;
    RunWordMeans(w, env, false);
    FieldTextsAreScan(r, env.ifs);
    if HasAt(children) {
      ScanQuotedAtoms(children, env, None, SCAN_START);
    } else {
      var k := Keep(PlainTexts(children, env), true);
      assert ScanAll([k], Separators(env.ifs), SCAN_START) == Step(k, Separators(env.ifs), SCAN_START);
      if children != [] {
        NoAtOneField(children, env);
      }
    }
  }

  /** The parts of `"pre$@post"`; an absent literal is no part at all. */
  function Around(pre: string, w: Word, post: string): seq<Word> {
    (if pre == "" then [] else [Str(pre, false, false)]) + [w]
    + (if post == "" then [] else [Str(post, false, false)])
  }

  /** One field per parameter, `pre` before the first and `post` after the last. */
  function Surround(pre: string, args: seq<string>, post: string): seq<string> {
    if args == [] then if pre + post == "" then [] else [pre + post]
    else if |args| == 1 then [pre + args[0] + post]
    else [pre + args[0]] + args[1..|args| - 1] + [args[|args| - 1] + post]
  }

  lemma SurroundIsGlue(pre: string, args: seq<string>, post: string)
    ensures Surround(pre, args, post)
      == Glue(if pre == "" then [] else [pre], Glue(args, if post == "" then [] else [post]))
  {
    var n := |args|;
    if n > 1 {
      var first, middle, last := args[0], args[1..n - 1], args[n - 1];
      FirstAndLast(args);
      GlueLast([first] + middle, last, post);
      assert [first] + middle + [last + post] == [first] + (middle + [last + post]);
      GlueFirst(pre, first, middle + [last + post]);
      assert [pre + first] + (middle + [last + post]) == [pre + first] + middle + [last + post];
    } else if n == 1 {
      assert args == [] + [args[0]];
      GlueLast([], args[0], post);
      assert [] + [args[0] + post] == [args[0] + post] + [];
      GlueFirst(pre, args[0] + post, []);
      assert pre + args[0] + post == pre + (args[0] + post);
    } else {
      assert pre == "" ==> pre + post == post;
      assert post == "" ==> pre + post == pre;
    }
  }

  lemma FirstAndLast(args: seq<string>)
    requires |args| > 1
    ensures args == [args[0]] + args[1..|args| - 1] + [args[|args| - 1]]
  {
  }

  lemma GlueFirst(pre: string, first: string, rest: seq<string>)
    ensures Glue(if pre == "" then [] else [pre], [first] + rest) == [pre + first] + rest
  {
    var b := [first] + rest;
    assert b[0] == first && b[1..] == rest;
    if pre == "" {
      assert pre + first == first;
    } else {
      assert [pre][..0] == [] && [] + [pre + first] + rest == [pre + first] + rest;
    }
  }

  lemma GlueLast(front: seq<string>, last: string, post: string)
    ensures Glue(front + [last], if post == "" then [] else [post]) == front + [last + post]
  {
    var a := front + [last];
    assert a[..|a| - 1] == front && a[|a| - 1] == last;
    if post == "" {
      assert last + post == last;
    } else {
      assert [post][1..] == [] && front + [last + post] + [] == front + [last + post];
    }
  }

  lemma {:induction false} RunWordsConcat(a: seq<Word>, b: seq<Word>, env: Env)
    requires RunWords(a, env, true).Some? && RunWords(b, env, true).Some?
    ensures RunWords(a + b, env, true).Some?
  {
    if a == [] {
      assert a + b == b;
    } else {
      RunWordsConcat(a[1..], b, env);
      assert (a + b)[1..] == a[1..] + b;
    }
  }

  lemma {:induction false} PlainTextsConcat(a: seq<Word>, b: seq<Word>, env: Env)
    ensures PlainTexts(a + b, env) == PlainTexts(a, env) + PlainTexts(b, env)
  {
    hide PlainText;
    if a == [] {
      assert a + b == b;
    } else {
      PlainTextsConcat(a[1..], b, env);
      assert (a + b)[1..] == a[1..] + b && (a + b)[0] == a[0];
      var x, y, z := PlainText(a[0], env), PlainTexts(a[1..], env), PlainTexts(b, env);
      assert x + (y + z) == x + y + z;
    }
  }

  lemma {:induction false} QuotedFieldsConcat(a: seq<Word>, b: seq<Word>, env: Env)
    ensures QuotedFields(a + b, env) == Glue(QuotedFields(a, env), QuotedFields(b, env))
  {
    if a == [] {
      assert a + b == b;
    } else {
      QuotedFieldsConcat(a[1..], b, env);
      assert (a + b)[1..] == a[1..] + b;
      GlueAssociates(if IsAt(a[0]) then env.args else [PlainText(a[0], env)],
                     QuotedFields(a[1..], env), QuotedFields(b, env));
    }
  }

  /** What expansion does to two lists of parts, one after the other. */
  lemma PartsConcat(a: seq<Word>, b: seq<Word>, env: Env)
    requires RunWords(a, env, true).Some? && RunWords(b, env, true).Some?
    ensures RunWords(a + b, env, true).Some?
    ensures PlainTexts(a + b, env) == PlainTexts(a, env) + PlainTexts(b, env)
    ensures QuotedFields(a + b, env) == Glue(QuotedFields(a, env), QuotedFields(b, env))
  {
    RunWordsConcat(a, b, env);
    PlainTextsConcat(a, b, env);
    QuotedFieldsConcat(a, b, env);
  }

  lemma OnePart(w: Word, env: Env)
    requires RunWord(w, env, true).Some?
    ensures RunWords([w], env, true).Some?
    ensures PlainTexts([w], env) == PlainText(w, env)
    ensures QuotedFields([w], env) == if IsAt(w) then env.args else [PlainText(w, env)]
  {
    assert PlainText(w, env) + "" == PlainText(w, env);
  }

  lemma AroundMeans(pre: string, w: Word, post: string, env: Env)
    requires RunWord(w, env, true).Some?
    ensures RunWord(List(Around(pre, w, post), true), env, false).Some?
    ensures PlainTexts(Around(pre, w, post), env) == pre + PlainText(w, env) + post
    ensures QuotedFields(Around(pre, w, post), env)
      == Surround(pre, if IsAt(w) then env.args else [PlainText(w, env)], post)
  {
    var a: seq<Word> := if pre == "" then [] else [Str(pre, false, false)];
    var b: seq<Word> := if post == "" then [] else [Str(post, false, false)];
    if pre != "" {
      OnePart(a[0], env);
    }
    if post != "" {
      OnePart(b[0], env);
    }
    OnePart(w, env);
    PartsConcat(a, [w], env);
    PartsConcat(a + [w], b, env);
    var fields := if IsAt(w) then env.args else [PlainText(w, env)];
    SurroundIsGlue(pre, fields, post);
    GlueAssociates(QuotedFields(a, env), fields, QuotedFields(b, env));
  }

  /** `"pre$@post"`: one field per parameter, unchanged and in order, for any literals and any IFS but empty. */
  lemma AtSignFields(pre: string, post: string, env: Env)
    requires env.ifs != Some("")
    ensures var r := RunWord(List(Around(pre, Param(AT), post), true), env, false);
      && r.Some? && Expanded(r.value)
      && FieldTexts(r.value, env.ifs) == Surround(pre, env.args, post)
  {
    var children := Around(pre, Param(AT), post);
    assert children[if pre == "" then 0 else 1] == Param(AT);
    AroundMeans(pre, Param(AT), post, env);
    DoubleQuotedFields(children, env);
  }

  lemma FirstOfIfs(ifs: Option<string>)
    ensures Joiner(None) == " " && Joiner(Some("")) == ""
    ensures ifs.Some? && ifs.value != "" ==> Joiner(ifs) == [ifs.value[0]]
  {
  }

  /** `"pre$*post"`: always one field, the parameters joined by a blank, by the first IFS character, or by nothing. */
  lemma StarFields(pre: string, post: string, env: Env)
    ensures var r := RunWord(List(Around(pre, Param(STAR), post), true), env, false);
      && r.Some? && Expanded(r.value)
      && (env.ifs == None ==> FieldTexts(r.value, env.ifs) == [pre + JoinArgs(env.args, " ") + post])
      && (env.ifs == Some("") ==> FieldTexts(r.value, env.ifs) == [pre + JoinArgs(env.args, "") + post])
      && (env.ifs.Some? && env.ifs.value != "" ==>
        FieldTexts(r.value, env.ifs) == [pre + JoinArgs(env.args, [env.ifs.value[0]]) + post])
  {
    FirstOfIfs(env.ifs);
    var w := List(Around(pre, Param(STAR), post), true);
    AroundMeans(pre, Param(STAR), post, env);
    var r := RunWord(w, env, false).value;
    if env.ifs == Some("") {
      RunWordMeans(w, env, false);
      CopyKeepsText(r);
    } else {
      DoubleQuotedFields(w.children, env);
    }
  }

  /** `"$@"` gives back the parameters exactly when IFS is unset or not empty, or there is one parameter. */
  lemma SurroundNothing(args: seq<string>)
    ensures Surround("", args, "") == args
  {
    var n := |args| - 1;
    if n > 0 {
      FirstAndLast(args);
      assert "" + args[0] == args[0] && args[n] + "" == args[n];
    } else if n == 0 {
      assert "" + args[0] + "" == args[0];
    }
  }

  lemma AtSignExactlyWhen(env: Env)
    ensures var r := RunWord(List([Param(AT)], true), env, false);
      && r.Some? && Expanded(r.value)
      && (FieldTexts(r.value, env.ifs) == env.args <==> env.ifs != Some("") || |env.args| == 1)
  {
    var w := List([Param(AT)], true);
    assert Around("", Param(AT), "") == [Param(AT)];
    if env.ifs != Some("") {
      AtSignFields("", "", env);
      SurroundNothing(env.args);
    } else {
      AroundMeans("", Param(AT), "", env);
      RunWordMeans(w, env, false);
      CopyKeepsText(RunWord(w, env, false).value);
      if |env.args| == 1 {
        assert env.args == [env.args[0]];
      }
    }
  }
}

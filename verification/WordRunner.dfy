/** The code of `run_word` and of `mrsh_word_str`: loops over the children of each list. */
module WordRunner {
  import opened Chars
  import opened Buffers
  import opened Words
  import opened FieldReference
  import opened Expansion
  import opened WordExpansion
  import FieldSplitter

  /** Appends the text of a word to a buffer. */
  method WordStr(w: Word, buf: Buffer)
    requires buf.Valid() && Expanded(w)
    modifies buf, buf.data
    ensures buf.Valid() && buf.Contents() == old(buf.Contents()) + Text(w)
    ensures buf.data == old(buf.data) || fresh(buf.data)
    decreases w
  {
    match w
    case Str(str, _, _) => buf.Append(str);
    case List(children, _) =>
      var i := 0;
      while i < |children|
        invariant 0 <= i <= |children| && buf.Valid()
        invariant buf.data == old(buf.data) || fresh(buf.data)
        invariant buf.Contents() + TextOf(children[i..]) == old(buf.Contents()) + TextOf(children)
      {
        ghost var before := buf.Contents();
        WordStr(children[i], buf);
        assert children[i..][1..] == children[i + 1..];
        assert before + (Text(children[i]) + TextOf(children[i + 1..]))
            == before + Text(children[i]) + TextOf(children[i + 1..]);
        i := i + 1;
      }
  }

  /** All strings of the tree become candidates for splitting. */
  function Marked(w: Word): Word
    decreases w, 1
  {
    match w
    case Str(str, singleQuoted, _) => Str(str, singleQuoted, true)
    case Param(_) => w
    case List(children, doubleQuoted) => List(MarkedAll(children), doubleQuoted)
  }

  function MarkedAll(ws: seq<Word>): (r: seq<Word>)
    ensures |r| == |ws|
    decreases ws, 0
  {
    if ws == [] then [] else [Marked(ws[0])] + MarkedAll(ws[1..])
  }

  method MarkWordSplitFields(w: Word) returns (r: Word)
    ensures r == Marked(w)
    decreases w
  {
    match w
    case Str(str, singleQuoted, _) => r := Str(str, singleQuoted, true);
    case Param(_) => r := w;
    case List(children, doubleQuoted) =>
      var done := children;
      for i := 0 to |children|
        invariant |done| == |children| && done[i..] == children[i..]
        invariant done[..i] + MarkedAll(children[i..]) == MarkedAll(children)
      {
        assert children[i..][1..] == children[i + 1..];
        var child := MarkWordSplitFields(done[i]);
        assert done[..i] + [child] + MarkedAll(children[i + 1..]) == done[..i] + ([child] + MarkedAll(children[i + 1..]));
        done := done[i := child];
        assert done[..i + 1] == done[..i] + [child];
      }
      assert done[..|children|] == done;
      r := List(done, doubleQuoted);
  }

  method ExpandPositionalParams(env: Env, quoteArgs: bool) returns (r: Word)
    ensures r == PositionalParams(env, quoteArgs)
  {
    var sep := if env.ifs.None? then " " else if env.ifs.value == "" then "" else [env.ifs.value[0]];
    var words := [];
    for i := 0 to |env.args|
      invariant words == PositionalWords(env.args[..i], sep, quoteArgs)
    {
      assert env.args[..i + 1][..i] == env.args[..i];
      if i > 0 && sep != "" {
        words := words + [Str(sep, false, true)];
      }
      words := words + [Str(env.args[i], quoteArgs, true)];
    }
    assert env.args[..|env.args|] == env.args;
    r := List(words, false);
  }

  /** Marking and running again change nothing in the word made for `$@` or `$*`. */
  lemma {:induction false} PositionalWordsSettled(args: seq<string>, sep: string, quoteArgs: bool)
    ensures MarkedAll(PositionalWords(args, sep, quoteArgs)) == PositionalWords(args, sep, quoteArgs)
  {
    if args != [] {
      var init, last := args[..|args| - 1], args[|args| - 1];
      PositionalWordsSettled(init, sep, quoteArgs);
      var ws := PositionalWords(init, sep, quoteArgs);
      var mid: seq<Word> := if init != [] && sep != "" then [Str(sep, false, true)] else [];
      MarkedAllConcat(ws, mid);
      MarkedAllConcat(ws + mid, [Str(last, quoteArgs, true)]);
    }
  }

  lemma {:induction false} MarkedAllConcat(a: seq<Word>, b: seq<Word>)
    ensures MarkedAll(a + b) == MarkedAll(a) + MarkedAll(b)
  {
    hide Marked;
    if a == [] {
      assert a + b == b;
    } else {
      MarkedAllConcat(a[1..], b);
      assert (a + b)[1..] == a[1..] + b && (a + b)[0] == a[0];
      var first := [Marked(a[0])];
      assert first + (MarkedAll(a[1..]) + MarkedAll(b)) == first + MarkedAll(a[1..]) + MarkedAll(b);
    }
  }

  /** Expanding an expanded word changes nothing. */
  lemma {:induction false} RunExpanded(w: Word, env: Env, doubleQuoted: bool)
    requires Expanded(w)
    ensures RunWord(w, env, doubleQuoted) == Some(w)
    decreases w, 1
  {
    if w.List? {
      assert AllExpanded(w.children);
      forall c | c in w.children ensures !IsAt(c) {
        assert Expanded(c);
      }
      RunAllExpanded(w.children, env, doubleQuoted || w.doubleQuoted);
    }
  }

  lemma {:induction false} RunAllExpanded(ws: seq<Word>, env: Env, doubleQuoted: bool)
    requires AllExpanded(ws)
    ensures RunWords(ws, env, doubleQuoted) == Some(ws)
    decreases ws, 0
  {
    if ws != [] {
      RunExpanded(ws[0], env, doubleQuoted);
      RunAllExpanded(ws[1..], env, doubleQuoted);
      assert [ws[0]] + ws[1..] == ws;
    }
  }

  /** The expansion of a parameter: look its value up, mark it, and run a resulting list once more. */
  method RunParameter(name: string, env: Env, doubleQuoted: bool) returns (r: Option<Word>)
    ensures r == RunParam(name, env, doubleQuoted)
    decreases true, Param(name), 1
  {
    var value: Option<Word> := None;
    if name == AT {
      var w := ExpandPositionalParams(env, doubleQuoted);
      value := Some(w);
    } else if name == STAR {
      var w := ExpandPositionalParams(env, false);
      value := Some(w);
    } else if name in env.vars {
      value := Some(Str(env.vars[name], false, false));
    }
    if value.None? {
      if env.nounset {
        return None;
      }
      value := Some(Str("", false, false));
    }
    var result := MarkWordSplitFields(value.value);
    if !result.Str? {
      PositionalWordsSettled(env.args, Separator(env.ifs), name == AT && doubleQuoted);
      PositionalWordsMean(env.args, Separator(env.ifs), name == AT && doubleQuoted);
      RunExpanded(result, env, false);
      assert Expanded(result);
      var again := RunWordIn(result, env, false);
      return again;
    }
    return Some(result);
  }

  /** What is done already, put before what is still to come; None once anything failed. */
  function After<T>(done: seq<T>, rest: Option<seq<T>>): Option<seq<T>> {
    if rest.None? then None else Some(done + rest.value)
  }

  lemma AfterNothing<T>(rest: Option<seq<T>>)
    ensures After([], rest) == rest
  {
    if rest.Some? {
      assert [] + rest.value == rest.value;
    }
  }

  lemma AfterAll<T>(done: seq<T>)
    ensures After(done, Some([])) == Some(done)
  {
    assert done + [] == done;
  }

  lemma AfterFailure<T>(done: seq<T>, rest: Option<seq<T>>)
    requires rest.None?
    ensures After(done, rest) == None
  {
  }

  lemma AfterOneMore<T>(done: seq<T>, x: T, rest: Option<seq<T>>)
    ensures After(done, After([x], rest)) == After(done + [x], rest)
  {
    if rest.Some? {
      assert done + ([x] + rest.value) == done + [x] + rest.value;
    }
  }

  lemma AfterNext<T>(done: seq<T>, x: T, rest: Option<seq<T>>, all: Option<seq<T>>)
    requires all == if rest.None? then None else Some([x] + rest.value)
    ensures After(done, all) == After(done + [x], rest)
  {
    AfterOneMore(done, x, rest);
  }

  method RunWordIn(w: Word, env: Env, doubleQuoted: bool) returns (r: Option<Word>)
    ensures r == RunWord(w, env, doubleQuoted)
    decreases !Expanded(w), w, 2
  {
    hide RunParam, Unquote;
    match w
    case Str(_, _, _) => return Some(w);
    case Param(name) =>
      r := RunParameter(name, env, doubleQuoted);
    case List(children, dq) =>
      var kids, atSigns := RunChildren(w, env, doubleQuoted);
      if kids.None? {
        return None;
      }
      AtIndicesAll(children, |children|);
      if |atSigns| > 0 {
        var unquoted := MoveOutOfQuotes(children, kids.value, atSigns);
        return Some(List(unquoted, false));
      }
      return Some(List(kids.value, dq));
  }

  /** Expands the children of a list, and notes which of them are a `$@` to be moved out of its quotes. */
  method RunChildren(w: Word, env: Env, doubleQuoted: bool) returns (r: Option<seq<Word>>, atSigns: seq<nat>)
    requires w.List?
    ensures r == RunWords(w.children, env, doubleQuoted || w.doubleQuoted)
    ensures atSigns == if r.Some? && w.doubleQuoted then AtIndices(w.children, |w.children|) else []
    decreases !Expanded(w), w, 1
  {
    hide RunWord, After;
    var children, quoted := w.children, doubleQuoted || w.doubleQuoted;
    var kids := children;
    atSigns := [];
    ghost var results: seq<Word> := [];
    assert children[0..] == children;
    AfterNothing(RunWords(children, env, quoted));
    for i := 0 to |children|
      invariant |kids| == |children| && results == kids[..i] && kids[i..] == children[i..]
      invariant After(results, RunWords(children[i..], env, quoted)) == RunWords(children, env, quoted)
      invariant atSigns == if w.doubleQuoted then AtIndices(children, i) else []
    {
      assert children[i..][1..] == children[i + 1..];
      assert kids[i] == kids[i..][0] == children[i] && children[i] in children;
      assert AllExpanded(children) ==> Expanded(children[i]);
      var isAtSign := IsAt(kids[i]);
      var child := RunWordIn(kids[i], env, quoted);
      if child.None? {
        AfterFailure(results, RunWords(children[i..], env, quoted));
        return None, [];
      }
      AfterNext(results, child.value, RunWords(children[i + 1..], env, quoted), RunWords(children[i..], env, quoted));
      kids := kids[i := child.value];
      results := results + [child.value];
      if w.doubleQuoted && isAtSign {
        atSigns := atSigns + [i];
      }
    }
    assert kids[..|children|] == kids && children[|children|..] == [];
    AfterAll(results);
    r := Some(kids);
  }

  function AtIndices(children: seq<Word>, n: nat): seq<nat>
    requires n <= |children|
  {
    if n == 0 then []
    else AtIndices(children, n - 1) + if IsAt(children[n - 1]) then [n - 1] else []
  }

  lemma {:induction false} AtIndicesAll(children: seq<Word>, n: nat)
    requires n <= |children|
    ensures AtIndices(children, n) != [] <==> HasAt(children[..n])
    ensures n == |children| ==> children[..n] == children
  {
    if n > 0 {
      AtIndicesAll(children, n - 1);
      assert children[..n] == children[..n - 1] + [children[n - 1]];
    }
  }

  /** The indices of `$@` are met in order: the next one is where the walk finds it. */
  lemma {:induction false} AtIndicesSplit(children: seq<Word>, i: nat, n: nat)
    requires i <= n <= |children|
    ensures |AtIndices(children, i)| <= |AtIndices(children, n)|
    ensures AtIndices(children, n)[..|AtIndices(children, i)|] == AtIndices(children, i)
  {
    if i < n {
      AtIndicesSplit(children, i, n - 1);
    }
  }

  /** Is child `i` the next `$@`? Comparing positions stands for comparing pointers. */
  lemma NextAtIndex(children: seq<Word>, i: nat)
    requires i < |children|
    ensures var all, k := AtIndices(children, |children|), |AtIndices(children, i)|;
      k <= |all| && (IsAt(children[i]) <==> k < |all| && all[k] == i)
  {
    var all, k := AtIndices(children, |children|), |AtIndices(children, i)|;
    AtIndicesSplit(children, i, |children|);
    AtIndicesSplit(children, i + 1, |children|);
    if IsAt(children[i]) {
      assert AtIndices(children, i + 1) == AtIndices(children, i) + [i];
      assert all[..k + 1][k] == i;
    } else {
      NotAmong(children, i, |children|);
    }
  }

  lemma {:induction false} NotAmong(children: seq<Word>, i: nat, n: nat)
    requires i < |children| && !IsAt(children[i]) && n <= |children|
    ensures i !in AtIndices(children, n)
  {
    if n > 0 {
      NotAmong(children, i, n - 1);
    }
  }

  lemma UnquoteStep(children: seq<Word>, kids: seq<Word>, i: nat, quoted: seq<Word>)
    requires i < |children| == |kids|
    ensures Unquote(children[i..], kids[i..], quoted) ==
      if IsAt(children[i])
      then (if quoted == [] then [] else [List(quoted, true)]) + [kids[i]] + Unquote(children[i + 1..], kids[i + 1..], [])
      else Unquote(children[i + 1..], kids[i + 1..], quoted + [kids[i]])
  {
    assert children[i..][1..] == children[i + 1..] && kids[i..][1..] == kids[i + 1..];
  }

  lemma Reassociate(a: seq<Word>, b: seq<Word>, c: seq<Word>, d: seq<Word>)
    ensures a + (b + c + d) == a + b + c + d
  {
  }

  method MoveOutOfQuotes(ghost children: seq<Word>, kids: seq<Word>, atSigns: seq<nat>) returns (unquoted: seq<Word>)
    requires |children| == |kids| && atSigns == AtIndices(children, |children|)
    ensures unquoted == Unquote(children, kids, [])
  {
    unquoted := [];
    var quoted: seq<Word> := [];
    var next := 0;
    assert children[0..] == children && kids[0..] == kids;
    for i := 0 to |kids|
      invariant next == |AtIndices(children, i)|
      invariant unquoted + Unquote(children[i..], kids[i..], quoted) == Unquote(children, kids, [])
    {
      NextAtIndex(children, i);
      UnquoteStep(children, kids, i, quoted);
      if next >= |atSigns| || atSigns[next] != i {
        quoted := quoted + [kids[i]];
        continue;
      }
      Reassociate(unquoted, if quoted == [] then [] else [List(quoted, true)], [kids[i]],
                  Unquote(children[i + 1..], kids[i + 1..], []));
      if |quoted| > 0 {
        unquoted := unquoted + [List(quoted, true)];
        quoted := [];
      } else {
        assert unquoted + [] == unquoted;
      }
      unquoted := unquoted + [kids[i]];
      next := next + 1;
    }
    assert children[|kids|..] == [];
    if |quoted| > 0 {
      unquoted := unquoted + [List(quoted, true)];
    }
  }

  method ExpandPathnames(fields: seq<Word>, system: System) returns (args: Option<seq<string>>)
    requires AllExpanded(fields)
    ensures args == ArgumentsOf(fields, system)
  {
    var out := [];
    assert fields[0..] == fields;
    AfterNothing(ArgumentsOf(fields, system));
    for i := 0 to |fields|
      invariant After(out, ArgumentsOf(fields[i..], system)) == ArgumentsOf(fields, system)
    {
      assert fields[i..][1..] == fields[i + 1..];
      ghost var rest := ArgumentsOf(fields[i + 1..], system);
      if system.noGlob || !NeedsPathnameExpansion(fields[i]) {
        assert FieldsStr(fields[i..]) == [Text(fields[i])] + FieldsStr(fields[i + 1..]);
        AfterOneMore(out, Text(fields[i]), rest);
        out := out + [Text(fields[i])];
        continue;
      }
      match system.glob(Pattern(fields[i], false))
      case Matches(paths) =>
        if rest.Some? {
          assert out + (paths + rest.value) == out + paths + rest.value;
        }
        out := out + paths;
      case NoMatch =>
        AfterOneMore(out, Text(fields[i]), rest);
        out := out + [Text(fields[i])];
      case GlobError => return None;
    }
    assert out + [] == out && fields[|fields|..] == [];
    args := Some(out);
  }

  /** All expansions of a command word; None when an expansion fails. */
  method ExpandWord(word: Word, env: Env, system: System) returns (args: Option<seq<string>>)
    ensures args == WordExpansion.ExpandWord(word, env, system)
  {
    var w := ExpandTilde(Copy(word), system.homes, true, true);
    var r := RunWordIn(w, env, false);
    if r.None? {
      return None;
    }
    RunWordMeans(w, env, false);
    SplittingStaysExpanded(r.value, env.ifs);
    var fields := FieldSplitter.SplitFields(r.value, env.ifs);
    args := ExpandPathnames(fields, system);
  }
}

/** Words of the shell language (the tree `struct mrsh_word`), as values. */
module Words {
  /** A string, an operator-less parameter `$name`, or a list of words. */
  datatype Word =
    | Str(str: string, singleQuoted: bool, splitFields: bool)
    | Param(name: string)
    | List(children: seq<Word>, doubleQuoted: bool)

  /** No parameter is left: only strings and lists. */
  predicate Expanded(w: Word) {
    match w
    case Str(_, _, _) => true
    case Param(_) => false
    case List(children, _) => AllExpanded(children)
  }

  predicate AllExpanded(ws: seq<Word>) {
    forall w <- ws :: Expanded(w)
  }

  /** The text of an expanded word (`mrsh_word_str`). */
  function Text(w: Word): string
    requires Expanded(w)
    decreases w, 1
  {
    match w
    case Str(str, _, _) => str
    case List(children, _) => TextOf(children)
  }

  function TextOf(ws: seq<Word>): string
    requires AllExpanded(ws)
    decreases ws, 0
  {
    if ws == [] then "" else Text(ws[0]) + TextOf(ws[1..])
  }

  lemma {:induction false} TextOfConcat(a: seq<Word>, b: seq<Word>)
    requires AllExpanded(a) && AllExpanded(b)
    ensures AllExpanded(a + b) && TextOf(a + b) == TextOf(a) + TextOf(b)
  {
    if a == [] {
      assert a + b == b;
    } else {
      TextOfConcat(a[1..], b);
      assert (a + b)[1..] == a[1..] + b;
    }
  }

  /** A fresh tree: the copy of a string is not a candidate for splitting. */
  function Copy(w: Word): Word
    decreases w, 1
  {
    match w
    case Str(str, singleQuoted, _) => Str(str, singleQuoted, false)
    case Param(_) => w
    case List(children, doubleQuoted) => List(CopyAll(children), doubleQuoted)
  }

  function CopyAll(ws: seq<Word>): (r: seq<Word>)
    ensures |r| == |ws|
    ensures forall i :: 0 <= i < |ws| ==> r[i] == Copy(ws[i])
    decreases ws, 0
  {
    if ws == [] then [] else [Copy(ws[0])] + CopyAll(ws[1..])
  }

  /** No string may be split. */
  predicate Unmarked(w: Word) {
    match w
    case Str(_, _, splitFields) => !splitFields
    case Param(_) => true
    case List(children, _) => forall c <- children :: Unmarked(c)
  }

  lemma {:induction false} CopyKeepsText(w: Word)
    requires Expanded(w)
    ensures Expanded(Copy(w)) && Text(Copy(w)) == Text(w) && Unmarked(Copy(w))
    decreases w, 1
  {
    if w.List? {
      CopyAllKeepsText(w.children);
    }
  }

  lemma {:induction false} CopyAllKeepsText(ws: seq<Word>)
    requires AllExpanded(ws)
    ensures AllExpanded(CopyAll(ws)) && TextOf(CopyAll(ws)) == TextOf(ws)
    ensures forall c <- CopyAll(ws) :: Unmarked(c)
    decreases ws, 0
  {
    if ws != [] {
      CopyKeepsText(ws[0]);
      CopyAllKeepsText(ws[1..]);
      assert CopyAll(ws)[1..] == CopyAll(ws[1..]);
    }
  }
}

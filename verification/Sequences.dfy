/** Removal from the shell's arrays of pointers, which hold no pointer twice. */
module Sequences {

  ghost predicate NoDuplicates<T>(s: seq<T>) {
    s == [] || (s[0] !in s[1..] && NoDuplicates(s[1..]))
  }

  lemma {:induction false} NoDuplicatesConcat<T>(a: seq<T>, b: seq<T>)
    ensures NoDuplicates(a + b) <==> NoDuplicates(a) && NoDuplicates(b) && forall x <- a :: x !in b
  {
    if a == [] {
      assert a + b == b;
    } else {
      assert (a + b)[1..] == a[1..] + b;
      NoDuplicatesConcat(a[1..], b);
      assert forall x <- a :: x == a[0] || x in a[1..];
    }
  }

  /** The elements of `s` that are not in `gone`, in their order. */
  function Minus<T(==)>(s: seq<T>, gone: set<T>): (r: seq<T>)
    ensures forall x <- r :: x in s && x !in gone
    ensures forall x <- s :: x in gone || x in r
  {
    if s == [] then []
    else if s[0] in gone then Minus(s[1..], gone)
    else [s[0]] + Minus(s[1..], gone)
  }

  lemma {:induction false} MinusNothing<T>(s: seq<T>, gone: set<T>)
    requires forall x <- s :: x !in gone
    ensures Minus(s, gone) == s
  {
    if s != [] {
      MinusNothing(s[1..], gone);
    }
  }

  lemma {:induction false} MinusTwice<T>(s: seq<T>, a: set<T>, b: set<T>)
    ensures Minus(Minus(s, a), b) == Minus(s, a + b)
  {
    if s != [] {
      MinusTwice(s[1..], a, b);
    }
  }

  lemma {:induction false} MinusKeepsDistinct<T>(s: seq<T>, gone: set<T>)
    requires NoDuplicates(s)
    ensures NoDuplicates(Minus(s, gone))
  {
    if s != [] {
      MinusKeepsDistinct(s[1..], gone);
    }
  }

  /** Taking out position `i` is taking out that element. */
  lemma {:induction false} RemoveAtIsMinus<T>(s: seq<T>, i: nat)
    requires i < |s| && NoDuplicates(s)
    ensures s[..i] + s[i + 1..] == Minus(s, {s[i]})
  {
    if i == 0 {
      MinusNothing(s[1..], {s[0]});
      assert s[..0] + s[1..] == s[1..];
    } else {
      RemoveAtIsMinus(s[1..], i - 1);
      assert s[i] in s[1..];
      assert s[..i] + s[i + 1..] == [s[0]] + (s[1..][..i - 1] + s[1..][i..]);
    }
  }

  function SetOf<T(==)>(s: seq<T>): set<T> {
    set x | x in s
  }

  lemma SetOfNext<T>(s: seq<T>, j: nat)
    requires j < |s|
    ensures SetOf(s[..j + 1]) == SetOf(s[..j]) + {s[j]}
  {
    assert s[..j + 1] == s[..j] + [s[j]];
  }

  /**
   * A walk that drops the dead elements of `all`: `n` of them are seen, `gone` are dropped, and
   * the walk is at position `i` of what is left.
   */
  ghost predicate Walking<T>(all: seq<T>, n: nat, left: seq<T>, i: nat, dead: set<T>, gone: set<T>) {
    && n <= |all| && i <= |left| && left[i..] == all[n..]
    && left == Minus(all, gone)
    && gone == dead * SetOf(all[..n])
  }

  lemma WalkStart<T>(all: seq<T>, dead: set<T>)
    ensures Walking(all, 0, all, 0, dead, {})
  {
    MinusNothing(all, {});
    assert dead * SetOf(all[..0]) == {};
  }

  lemma WalkAt<T>(all: seq<T>, n: nat, left: seq<T>, i: nat, dead: set<T>, gone: set<T>)
    requires Walking(all, n, left, i, dead, gone) && i < |left|
    ensures n < |all| && left[i] == all[n] && left[i] in all
  {
    assert left[i] == left[i..][0] == all[n..][0];
  }

  lemma WalkKeep<T>(all: seq<T>, n: nat, left: seq<T>, i: nat, dead: set<T>, gone: set<T>)
    requires Walking(all, n, left, i, dead, gone) && i < |left| && left[i] !in dead
    ensures Walking(all, n + 1, left, i + 1, dead, gone)
  {
    WalkAt(all, n, left, i, dead, gone);
    assert left[i + 1..] == left[i..][1..] == all[n..][1..] == all[n + 1..];
    SetOfNext(all, n);
  }

  lemma WalkDrop<T>(all: seq<T>, n: nat, left: seq<T>, i: nat, dead: set<T>, gone: set<T>)
    requires Walking(all, n, left, i, dead, gone) && i < |left| && left[i] in dead && NoDuplicates(left)
    ensures Walking(all, n + 1, Minus(left, {left[i]}), i, dead, gone + {left[i]})
  {
    WalkAt(all, n, left, i, dead, gone);
    assert left[i + 1..] == left[i..][1..] == all[n..][1..] == all[n + 1..];
    SetOfNext(all, n);
    MinusTwice(all, gone, {left[i]});
    RemoveAtIsMinus(left, i);
  }

  lemma WalkEnd<T>(all: seq<T>, n: nat, left: seq<T>, i: nat, dead: set<T>, gone: set<T>)
    requires Walking(all, n, left, i, dead, gone) && i == |left|
    requires forall x <- dead :: x in all
    ensures gone == dead && left == Minus(all, dead)
  {
    assert |all[n..]| == 0;
    assert all[..n] == all;
    assert dead * SetOf(all) == dead;
  }
}

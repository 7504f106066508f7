/** Removal of a prefix or suffix from a value (`trim_str`, `trim_pattern`), section 2.6.2 of POSIX.1-2017 XCU. */
module Trim {
  import opened Chars

  /** What is matched against the pattern, and what is left, when a string is cut at `i`. */
  function MatchedPart(str: string, i: nat, suffix: bool): string
    requires i <= |str|
  {
    if suffix then str[i..] else str[..i]
  }

  function LeftPart(str: string, i: nat, suffix: bool): string
    requires i <= |str|
  {
    if suffix then str[..i] else str[i..]
  }

  predicate Cuts(matches: string -> bool, str: string, i: nat, suffix: bool)
    requires i <= |str|
  {
    matches(MatchedPart(str, i, suffix))
  }

  /** Is the first cut that is tried the leftmost one? */
  predicate FromTheLeft(suffix: bool, largest: bool) {
    suffix == largest
  }

  /** `i` is the wanted cut among the first `n` positions: the least or the greatest that matches. */
  ghost predicate IsCut(matches: string -> bool, str: string, suffix: bool, largest: bool, n: nat, i: nat)
    requires n <= |str| + 1
  {
    && i < n
    && Cuts(matches, str, i, suffix)
    && forall j: nat :: j < n && Cuts(matches, str, j, suffix) ==> if FromTheLeft(suffix, largest) then i <= j else j <= i
  }

  ghost predicate NoCut(matches: string -> bool, str: string, suffix: bool, n: nat)
    requires n <= |str| + 1
  {
    forall j: nat :: j < n ==> !Cuts(matches, str, j, suffix)
  }

  /** `r` is `str` cut at the wanted position among the first `n`, or `str` itself if none matches. */
  ghost predicate Trimmed(matches: string -> bool, str: string, suffix: bool, largest: bool, n: nat, r: string)
    requires n <= |str| + 1
  {
    (NoCut(matches, str, suffix, n) && r == str)
    || exists i: nat :: IsCut(matches, str, suffix, largest, n, i) && r == LeftPart(str, i, suffix)
  }

  /** The C string that starts at `from` in a block: up to the first NUL. */
  function CString(block: seq<char>, from: nat): string
    requires from <= |block|
    decreases |block| - from
  {
    if from == |block| || block[from] == NUL then "" else [block[from]] + CString(block, from + 1)
  }

  lemma {:induction false} CStringIs(block: seq<char>, from: nat, to: nat)
    requires from <= to <= |block|
    requires to == |block| || block[to] == NUL
    requires forall k :: from <= k < to ==> block[k] != NUL
    ensures CString(block, from) == block[from..to]
    decreases |block| - from
  {
    if from < to {
      CStringIs(block, from + 1, to);
      assert block[from..to] == [block[from]] + block[from + 1..to];
    }
  }

  /**
   * Tries the cut positions 0..len-1 in the wanted order, writing a NUL into a scratch copy
   * for each try and putting the character back after a failed one.
   */
  method TrimPattern(str: string, matches: string -> bool, suffix: bool, largest: bool) returns (r: string)
    requires NulFree(str)
    ensures Trimmed(matches, str, suffix, largest, |str|, r)
  {
    var buf := new char[|str|](i requires 0 <= i < |str| => str[i]);
    assert buf[..] == str;
    var left := FromTheLeft(suffix, largest);
    var i: int := if left then 0 else |str| - 1;
    var end := if left then |str| else -1;
    var delta := if left then 1 else -1;
    while i != end
      invariant buf[..] == str
      invariant if left then 0 <= i <= |str| else -1 <= i < |str|
      invariant if left then NoCut(matches, str, suffix, i)
                else forall j: nat :: i < j < |str| ==> !Cuts(matches, str, j, suffix)
      decreases if left then end - i else i - end
    {
      var ch := buf[i];
      buf[i] := NUL;
      assert buf[..] == str[i := NUL];
      CStringIs(buf[..], 0, i);
      CStringIs(str, i, |str|);
      var candidate := if suffix then CString(str, i) else CString(buf[..], 0);
      assert candidate == MatchedPart(str, i, suffix);
      if matches(candidate) {
        r := if suffix then CString(buf[..], 0) else CString(str, i);
        assert IsCut(matches, str, suffix, largest, |str|, i) && r == LeftPart(str, i, suffix);
        return;
      }
      buf[i] := ch;
      assert buf[..] == str;
      i := i + delta;
    }
    r := str;
  }

  /** A pattern without pattern characters matches itself only. */
  function Only(cut: string): string -> bool {
    (s: string) => s == cut
  }

  /** There is one position at most where a fixed string can be cut off: cutting there is what the standard asks for. */
  lemma TrimStrIsStandard(str: string, cut: string, suffix: bool, largest: bool, r: string)
    requires r == (if |cut| > |str| then str
                   else var i := if suffix then |str| - |cut| else |cut|;
                     if Cuts(Only(cut), str, i, suffix) then LeftPart(str, i, suffix) else str)
    ensures Trimmed(Only(cut), str, suffix, largest, |str| + 1, r)
  {
    if |cut| <= |str| {
      var i := if suffix then |str| - |cut| else |cut|;
      if Cuts(Only(cut), str, i, suffix) {
        assert forall j: nat :: j < |str| + 1 && Cuts(Only(cut), str, j, suffix) ==> |MatchedPart(str, j, suffix)| == |cut|;
        assert IsCut(Only(cut), str, suffix, largest, |str| + 1, i);
      } else {
        assert forall j: nat :: j < |str| + 1 && j != i ==> |MatchedPart(str, j, suffix)| != |cut|;
      }
    } else {
      assert forall j: nat :: j < |str| + 1 ==> |MatchedPart(str, j, suffix)| < |cut|;
    }
  }

  /**
   * `trim_str`, for a fixed string: what the standard asks for both of the smallest and of the
   * largest match, all positions 0..len counted.
   */
  method TrimStr(str: string, cut: string, suffix: bool) returns (r: string)
    ensures Trimmed(Only(cut), str, suffix, false, |str| + 1, r)
    ensures Trimmed(Only(cut), str, suffix, true, |str| + 1, r)
  {
    var len, cutLen := |str|, |cut|;
    if cutLen <= len {
      if !suffix && str[..cutLen] == cut {
        r := str[cutLen..];
        TrimStrIsStandard(str, cut, suffix, false, r);
        TrimStrIsStandard(str, cut, suffix, true, r);
        return;
      }
      if suffix && str[len - cutLen..] == cut {
        r := str[..len - cutLen];
        TrimStrIsStandard(str, cut, suffix, false, r);
        TrimStrIsStandard(str, cut, suffix, true, r);
        return;
      }
    }
    r := str;
    TrimStrIsStandard(str, cut, suffix, false, r);
    TrimStrIsStandard(str, cut, suffix, true, r);
  }

  /** The position `len` is never tried; here is when that makes no difference to the result. */
  ghost predicate MissedCutIsHarmless(matches: string -> bool, str: string, suffix: bool, largest: bool) {
    if suffix then largest || !matches("") || NoCut(matches, str, suffix, |str|)
    else str == "" || !matches(str) || (!largest && !NoCut(matches, str, suffix, |str|))
  }

  lemma CutIsUnique(matches: string -> bool, str: string, suffix: bool, largest: bool, n: nat, r: string, r': string)
    requires n <= |str| + 1
    requires Trimmed(matches, str, suffix, largest, n, r) && Trimmed(matches, str, suffix, largest, n, r')
    ensures r == r'
  {
  }

  lemma ExistsCut(matches: string -> bool, str: string, suffix: bool, largest: bool, n: nat) returns (i: nat)
    requires n <= |str| + 1 && !NoCut(matches, str, suffix, n)
    ensures IsCut(matches, str, suffix, largest, n, i)
  {
    var k: nat :| k < n && Cuts(matches, str, k, suffix);
    i := k;
    if FromTheLeft(suffix, largest) {
      var j := 0;
      while j < n
        invariant 0 <= j <= n && i < n && Cuts(matches, str, i, suffix)
        invariant forall m: nat :: m < j && Cuts(matches, str, m, suffix) ==> i <= m
      {
        if Cuts(matches, str, j, suffix) && j < i {
          i := j;
        }
        j := j + 1;
      }
    } else {
      var j := 0;
      while j < n
        invariant 0 <= j <= n && i < n && Cuts(matches, str, i, suffix)
        invariant forall m: nat :: m < j && Cuts(matches, str, m, suffix) ==> m <= i
      {
        if Cuts(matches, str, j, suffix) && j > i {
          i := j;
        }
        j := j + 1;
      }
    }
  }

  /** The code's result is the standard's exactly when the missed position makes no difference. */
  lemma TrimsLikePosixIff(matches: string -> bool, str: string, suffix: bool, largest: bool, r: string)
    requires Trimmed(matches, str, suffix, largest, |str|, r)
    ensures Trimmed(matches, str, suffix, largest, |str| + 1, r) <==> MissedCutIsHarmless(matches, str, suffix, largest)
  {
    var n := |str|;
    assert MatchedPart(str, n, suffix) == if suffix then "" else str;
    assert LeftPart(str, n, suffix) == if suffix then str else "";
    if NoCut(matches, str, suffix, n) {
      if Cuts(matches, str, n, suffix) {
        assert IsCut(matches, str, suffix, largest, n + 1, n);
      }
    } else {
      var i := ExistsCut(matches, str, suffix, largest, n);
      CutIsUnique(matches, str, suffix, largest, n, r, LeftPart(str, i, suffix));
      assert |r| == if suffix then i else n - i;
      if !Cuts(matches, str, n, suffix) || FromTheLeft(suffix, largest) {
        assert IsCut(matches, str, suffix, largest, n + 1, i);
      } else {
        assert IsCut(matches, str, suffix, largest, n + 1, n);
      }
    }
  }

  /** Removing the largest prefix `*` leaves the last character, since the cut after it is not tried. */
  lemma LargestStarLeavesACharacter()
    ensures Trimmed((_: string) => true, "ab", false, true, |"ab"|, "b")
    ensures Trimmed((_: string) => true, "ab", false, true, |"ab"| + 1, "")
    ensures !Trimmed((_: string) => true, "ab", false, true, |"ab"| + 1, "b")
  {
    var matches := (_: string) => true;
    assert LeftPart("ab", 1, false) == "b" && LeftPart("ab", 2, false) == "";
    assert IsCut(matches, "ab", false, true, 2, 1);
    assert IsCut(matches, "ab", false, true, 3, 2);
    if Trimmed(matches, "ab", false, true, 3, "b") {
      CutIsUnique(matches, "ab", false, true, 3, "b", "");
    }
  }
}

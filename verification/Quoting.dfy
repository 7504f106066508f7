/** Printing a string so that the shell reads it back as one word (`print_escaped`). */
module Quoting {
  import opened Chars

  /** Characters with no meaning to the shell. */
  predicate IsSafe(c: char) {
    IsAlnum(c) || c == '@' || c == '%' || c == '+' || c == '=' || c == ':' || c == ',' || c == '.' || c == '/' || c == '-'
  }

  predicate AllSafe(v: string) {
    v == "" || (IsSafe(v[0]) && AllSafe(v[1..]))
  }

  /** The inside of single quotes: a quote is written in double quotes, between two quoted strings. */
  function Escaped(v: string): string {
    if v == "" then ""
    else (if v[0] == '\'' then "'\"'\"'" else [v[0]]) + Escaped(v[1..])
  }

  function Quoted(v: string): string {
    if v != "" && AllSafe(v) then v else "'" + Escaped(v) + "'"
  }

  lemma EscapedFirst(c: char, rest: string)
    ensures Escaped([c] + rest) == (if c == '\'' then "'\"'\"'" else [c]) + Escaped(rest)
  {
    assert ([c] + rest)[1..] == rest;
  }

  lemma NothingEscaped()
    ensures Escaped("") == ""
  {
  }

  lemma {:induction false} EscapedAppend(v: string, c: char)
    ensures Escaped(v + [c]) == Escaped(v) + (if c == '\'' then "'\"'\"'" else [c])
  {
    hide Escaped;
    var q := if c == '\'' then "'\"'\"'" else [c];
    if v == "" {
      NothingEscaped();
      EscapedFirst(c, "");
      assert v + [c] == [c] + "" && q + "" == "" + q;
    } else {
      var first, rest := v[0], v[1..];
      EscapedAppend(rest, c);
      EscapedFirst(first, rest);
      EscapedFirst(first, rest + [c]);
      assert v == [first] + rest && v + [c] == [first] + (rest + [c]);
      var x := if first == '\'' then "'\"'\"'" else [first];
      assert x + (Escaped(rest) + q) == x + Escaped(rest) + q;
    }
  }

  lemma {:induction false} AllSafeAppend(v: string, c: char)
    ensures AllSafe(v + [c]) <==> AllSafe(v) && IsSafe(c)
  {
    if v == "" {
      assert v + [c] == [c] && [c][1..] == "";
      assert AllSafe("");
    } else {
      AllSafeAppend(v[1..], c);
      assert (v + [c])[1..] == v[1..] + [c];
    }
  }

  /** One unsafe character makes the whole string unsafe. */
  lemma {:induction false} UnsafeAt(v: string, i: nat)
    requires i < |v| && !IsSafe(v[i])
    ensures !AllSafe(v)
  {
    if i > 0 {
      UnsafeAt(v[1..], i - 1);
    }
  }

  /** A string is printed as it is exactly if it is not empty and has only these characters. */
  lemma {:induction false} PlainIff(v: string)
    ensures Quoted(v) == v
      <==> v != "" && forall c <- v :: 'a' <= c <= 'z' || 'A' <= c <= 'Z' || '0' <= c <= '9' || c in "@%+=:,./-"
  {
    SafeIff(v);
    if v == "" || !AllSafe(v) {
      EscapedIsNoShorter(v);
      assert |Quoted(v)| == |Escaped(v)| + 2;
    }
  }

  lemma {:induction false} SafeIff(v: string)
    ensures AllSafe(v)
      <==> forall c <- v :: 'a' <= c <= 'z' || 'A' <= c <= 'Z' || '0' <= c <= '9' || c in "@%+=:,./-"
  {
    if v != "" {
      SafeIff(v[1..]);
      assert v[0] in v && forall c <- v[1..] :: c in v;
      assert forall c <- v :: c == v[0] || c in v[1..];
    }
  }

  lemma {:induction false} EscapedIsNoShorter(v: string)
    ensures |Escaped(v)| >= |v|
  {
    if v != "" {
      EscapedIsNoShorter(v[1..]);
    }
  }

  /** Inside the single quotes all stays as it is, up to a quote, which is put in double quotes. */
  lemma {:induction false} EscapedAtQuote(a: string, b: string)
    requires '\'' !in a
    ensures Escaped(a) == a && Escaped(a + ("'" + b)) == a + ("'\"'\"'" + Escaped(b))
  {
    hide Escaped;
    var v, q := a + ("'" + b), "'\"'\"'" + Escaped(b);
    if a == "" {
      NothingEscaped();
      EscapedFirst('\'', b);
      assert v == ['\''] + b && a + q == q;
    } else {
      var first, rest := a[0], a[1..];
      assert first in a && forall c <- rest :: c in a;
      EscapedAtQuote(rest, b);
      EscapedFirst(first, rest);
      EscapedFirst(first, rest + ("'" + b));
      assert a == [first] + rest && v == [first] + (rest + ("'" + b)) && a + q == [first] + (rest + q);
    }
  }

  /** `print_escaped`: what it prints. */
  method PrintEscaped(value: string) returns (out: string)
    requires NulFree(value)
    ensures out == Quoted(value)
  {
    var i := 0;
    while i < |value|
      invariant i <= |value| && AllSafe(value[..i])
    {
      if !IsSafe(value[i]) {
        break;
      }
      AllSafeAppend(value[..i], value[i]);
      assert value[..i + 1] == value[..i] + [value[i]];
      i := i + 1;
    }
    if i == |value| && i > 0 {
      assert value[..i] == value;
      return value;
    }
    if i < |value| {
      UnsafeAt(value, i);
    }
    out := "'";
    for j := 0 to |value|
      invariant out == "'" + Escaped(value[..j])
    {
      EscapedAppend(value[..j], value[j]);
      assert value[..j + 1] == value[..j] + [value[j]];
      if value[j] == '\'' {
        out := out + "'\"'\"'";
      } else {
        out := out + [value[j]];
      }
    }
    assert value[..|value|] == value;
    out := out + "'";
  }
}

/**
 * The character source of the parsers (parser/parser.c): a growing buffer filled from a file
 * descriptor, seen as a plain cursor over the input.
 */
module Parsers {
  import opened Chars
  import opened Buffers

  const READ_SIZE := 4096

  // -----------------------------------------------------------------------
  // Positions.

  datatype Position = Position(offset: nat, line: nat, column: nat)

  function Newlines(s: string): nat {
    if s == "" then 0 else Newlines(s[..|s| - 1]) + if s[|s| - 1] == '\n' then 1 else 0
  }

  /** How many characters come after the last newline. */
  function SinceNewline(s: string): nat {
    if s == "" || s[|s| - 1] == '\n' then 0 else 1 + SinceNewline(s[..|s| - 1])
  }

  /** The position once the text `s` has been read. */
  function PositionAfter(s: string): Position {
    Position(|s|, 1 + Newlines(s), 1 + SinceNewline(s))
  }

  // -----------------------------------------------------------------------
  // Token kinds (section 2.3 of POSIX.1-2017 XCU).

  datatype Symbol =
    | EofToken | Token | Newline
    | AndIf | OrIf | DSemi
    | DLess | DGreat | LessAnd | GreatAnd | LessGreat | DLessDash
    | Clobber

  /** The operators, the longest first. */
  const OPERATORS: seq<(Symbol, string)> := [
    (DLessDash, "<<-"),
    (AndIf, "&&"), (OrIf, "||"), (DSemi, ";;"),
    (DLess, "<<"), (DGreat, ">>"), (LessAnd, "<&"), (GreatAnd, ">&"), (LessGreat, "<>"),
    (Clobber, ">|")
  ]

  /** The first operator, from entry `k` on, that the text starts with. */
  function OperatorAt(s: string, k: nat): Option<Symbol>
    requires k <= |OPERATORS|
    decreases |OPERATORS| - k
  {
    if k == |OPERATORS| then None
    else if OPERATORS[k].1 <= s then Some(OPERATORS[k].0)
    else OperatorAt(s, k + 1)
  }

  /** The text of an operator; other token kinds have none. */
  function SymbolText(kind: Symbol): Option<string> {
    match kind
    case EofToken | Token | Newline => None
    case AndIf => Some("&&") case OrIf => Some("||") case DSemi => Some(";;")
    case DLess => Some("<<") case DGreat => Some(">>") case LessAnd => Some("<&") case GreatAnd => Some(">&")
    case LessGreat => Some("<>") case DLessDash => Some("<<-") case Clobber => Some(">|")
  }

  predicate StartsOperator(s: string, kind: Symbol) {
    SymbolText(kind).Some? && SymbolText(kind).value <= s
  }

  /** The operator found is the longest one that the text starts with (section 2.3 of POSIX.1-2017 XCU). */
  lemma OperatorIff(s: string, kind: Symbol)
    ensures OperatorAt(s, 0) == Some(kind) <==>
      StartsOperator(s, kind)
      && forall other :: StartsOperator(s, other) ==> |SymbolText(other).value| <= |SymbolText(kind).value|
  {
    OperatorAtIs(s);
    hide OperatorAt;
    if OperatorAt(s, 0) == Some(kind) {
      forall other | StartsOperator(s, other) ensures |SymbolText(other).value| <= |SymbolText(kind).value| {
        assert other == DLessDash ==> "<<-" <= s;
      }
    }
    if StartsOperator(s, kind) && forall other :: StartsOperator(s, other) ==> |SymbolText(other).value| <= |SymbolText(kind).value| {
      if "<<-" <= s {
        assert StartsOperator(s, DLessDash);
      } else {
        ShortOperator(s, kind);
      }
    }
  }

  lemma ShortOperator(s: string, kind: Symbol)
    requires StartsOperator(s, kind) && kind != DLessDash && !("<<-" <= s)
    ensures OperatorAt(s, 0) == Some(kind)
  {
    OperatorAtIs(s);
    hide OperatorAt;
    var t := SymbolText(kind).value;
    assert s[0] == t[0] && s[1] == t[1];
  }

  lemma OperatorAtIs(s: string)
    ensures OperatorAt(s, 0) ==
      if "<<-" <= s then Some(DLessDash)
      else if "&&" <= s then Some(AndIf) else if "||" <= s then Some(OrIf) else if ";;" <= s then Some(DSemi)
      else if "<<" <= s then Some(DLess) else if ">>" <= s then Some(DGreat)
      else if "<&" <= s then Some(LessAnd) else if ">&" <= s then Some(GreatAnd) else if "<>" <= s then Some(LessGreat)
      else if ">|" <= s then Some(Clobber) else None
  {
    assert OperatorAt(s, 10) == None;
    assert OperatorAt(s, 8) == if "<>" <= s then Some(LessGreat) else OperatorAt(s, 9);
    assert OperatorAt(s, 6) == if "<&" <= s then Some(LessAnd) else OperatorAt(s, 7);
    assert OperatorAt(s, 4) == if "<<" <= s then Some(DLess) else OperatorAt(s, 5);
    assert OperatorAt(s, 2) == if "||" <= s then Some(OrIf) else OperatorAt(s, 3);
  }

  function SkipComment(s: string): (r: string)
    ensures |r| <= |s|
  {
    if s == "" || s[0] == '\n' then s else SkipComment(s[1..])
  }

  /** The kind of the next token, and the input from its first character on. */
  function NextSymbol(s: string): (r: (Symbol, string))
    ensures |r.1| <= |s|
    decreases |s|
  {
    if s == "" then (EofToken, s)
    else if s[0] == '\n' then (Newline, s)
    else if IsOperatorStart(s[0]) && OperatorAt(s, 0).Some? then (OperatorAt(s, 0).value, s)
    else if IsBlank(s[0]) then NextSymbol(s[1..])
    else if s[0] == '#' then NextSymbol(SkipComment(s[1..]))
    else (Token, s)
  }

  /** The token kind known already, or looked for now. */
  function Settle(symbol: Option<Symbol>, s: string): (r: (Symbol, string))
    ensures |r.1| <= |s|
  {
    if symbol.Some? then (symbol.value, s) else NextSymbol(s)
  }

  /** The first `n` characters, or all of them. */
  function Front(s: string, n: nat): (f: string)
    ensures f <= s
  {
    if n <= |s| then s[..n] else s
  }

  predicate IsNameChar(c: char) {
    c == '_' || IsAlnum(c)
  }

  function NameChars(s: string): (n: nat)
    ensures n <= |s|
  {
    if s == "" || !IsNameChar(s[0]) then 0 else 1 + NameChars(s[1..])
  }

  /** The length of the name at the front; outside braces it does not start with a digit. */
  function NameLength(s: string, inBraces: bool): (n: nat)
    ensures n <= |s|
  {
    if s != "" && IsDigit(s[0]) && !inBraces then 0 else NameChars(s)
  }

  /** A name that the parser can read back. */
  predicate IsName(name: string) {
    name != "" && NameLength(name, false) == |name|
  }

  /** A name (section 3.235 of POSIX.1-2017 XBD): letters, digits and underscores, the first not a digit. */
  predicate IsIdentifier(name: string) {
    name != "" && !('0' <= name[0] <= '9') && forall c <- name :: IsWordChar(c)
  }

  predicate IsWordChar(c: char) {
    'a' <= c <= 'z' || 'A' <= c <= 'Z' || c == '_' || '0' <= c <= '9'
  }

  lemma {:induction false} AllNameChars(s: string)
    ensures NameChars(s) == |s| <==> forall c <- s :: IsWordChar(c)
  {
    if s != "" {
      AllNameChars(s[1..]);
      assert s == [s[0]] + s[1..] && s[0] in s;
      assert forall c <- s :: c == s[0] || c in s[1..];
      assert forall c <- s[1..] :: c in s;
    }
  }

  /** The names that the parsers take are these. */
  lemma NameIff(name: string)
    ensures IsName(name) <==> IsIdentifier(name)
  {
    AllNameChars(name);
  }

  lemma {:induction false} NameCharsAppend(name: string, q: string)
    requires NameChars(name) == |name| && (q == "" || !IsNameChar(q[0]))
    ensures NameChars(name + q) == |name|
  {
    if name == "" {
      assert name + q == q;
    } else {
      NameCharsAppend(name[1..], q);
      assert (name + q)[1..] == name[1..] + q;
    }
  }

  /** A file descriptor that delivers its pending input in pieces of any size. */
  class FileDescriptor {
    var pending: seq<char>

    constructor (input: seq<char>)
      ensures pending == input
    {
      pending := input;
    }

    /** `read`: some characters, at most `max`; none exactly at the end of the input. */
    method Read(dst: array<char>, at: nat, max: nat) returns (n: nat)
      requires max > 0 && at + max <= dst.Length
      modifies this, dst
      ensures n <= max && n <= |old(pending)| && pending == old(pending)[n..]
      ensures n == 0 <==> old(pending) == []
      ensures dst[..at] == old(dst[..at]) && dst[at..at + n] == old(pending)[..n]
    {
      var m: nat :| m <= max && m <= |pending| && (m == 0 <==> pending == []) by {
        assert pending != [] ==> 1 <= max && 1 <= |pending|;
      }
      n := m;
      forall i | 0 <= i < n {
        dst[at + i] := pending[i];
      }
      pending := pending[n..];
    }
  }

  lemma NulFreeParts(s: string, n: nat)
    requires NulFree(s) && n <= |s|
    ensures NulFree(s[..n]) && NulFree(s[n..])
  {
  }

  class Parser {
    const fd: FileDescriptor?       // null: the buffer holds all the input
    const buf: Buffer
    var eof: bool
    var pos: Position
    var symbol: Option<Symbol>      // the kind of the next token, once looked for
    var error: Option<string>       // the first error
    var errorPos: Position          // where it was met
    ghost var rest: string          // what is still to be read
    ghost var consumed: string      // what was read

    /** The buffer is a prefix of the rest, or all of it and its terminating NUL. */
    ghost predicate Buffered()
      requires buf.Valid()
      reads this, buf, buf.data, fd
    {
      var b := buf.Contents();
      if fd == null then b == rest + (if eof then [NUL, NUL] else [NUL])
      else if eof then fd.pending == [] && b == rest + [NUL]
      else b + fd.pending == rest
    }

    ghost predicate Valid()
      reads this, buf, buf.data, fd
    {
      buf.Valid() && Buffered() && NulFree(rest) && pos == PositionAfter(consumed)
    }

    ghost function Repr(): set<object?>
      reads this, buf
    {
      {this, buf, buf.data, fd}
    }

    /** `mrsh_parser_with_data` */
    constructor WithData(text: string)
      requires NulFree(text)
      ensures Valid() && fd == null && fresh(Repr() - {null}) && rest == text && consumed == "" && symbol == None && error == None
    {
      fd, eof, pos, symbol, error, errorPos := null, false, Position(0, 1, 1), None, None, Position(0, 0, 0);
      rest, consumed := text, "";
      var b := new Buffer();
      buf := b;
      new;
      buf.Append(text);
      buf.AppendChar(NUL);
    }

    /** `mrsh_parser_with_fd` */
    constructor WithFd(fd: FileDescriptor)
      requires NulFree(fd.pending)
      ensures Valid() && fresh(Repr() - {fd}) && this.fd == fd
      ensures rest == fd.pending && consumed == "" && symbol == None && error == None
    {
      this.fd, eof, pos, symbol, error, errorPos := fd, false, Position(0, 1, 1), None, None, Position(0, 0, 0);
      rest, consumed := fd.pending, "";
      buf := new Buffer();
    }

    /** `parser_peek_fd`: reads until `size` more characters are there, or the input ends. */
    method PeekFd(size: nat) returns (nRead: nat)
      requires Valid() && fd != null
      modifies buf, buf.data, fd
      ensures Valid() && (buf.data == old(buf.data) || fresh(buf.data))
      ensures buf.len == old(buf.len) + nRead && old(buf.Contents()) <= buf.Contents()
      ensures nRead < size ==> fd.pending == []
    {
      hide Buffered;
      nRead := 0;
      ghost var before := buf.Contents();
      while nRead < size
        invariant Valid() && (buf.data == old(buf.data) || fresh(buf.data))
        invariant buf.len == old(buf.len) + nRead && before <= buf.Contents()
        decreases |fd.pending|, if nRead < size then 1 else 0
      {
        var n := Fill();
        if n == 0 {
          break;
        }
        nRead := nRead + n;
      }
    }

    /** One `read` into the buffer; nothing comes only at the end of the input. */
    method Fill() returns (n: nat)
      requires Valid() && fd != null
      modifies buf, buf.data, fd
      ensures Valid() && (buf.data == old(buf.data) || fresh(buf.data))
      ensures buf.len == old(buf.len) + n && old(buf.Contents()) <= buf.Contents()
      ensures if n == 0 then fd.pending == [] else |fd.pending| < |old(fd.pending)|
    {
      ghost var now, pending := buf.Contents(), fd.pending;
      buf.Reserve(READ_SIZE);
      n := fd.Read(buf.data, buf.len, READ_SIZE);
      assert buf.data[..buf.len] == now;
      buf.len := buf.len + n;
      assert buf.Contents() == now + pending[..n];
      assert now + pending[..n] + pending[n..] == now + pending;
    }

    /** How many NULs can be seen after the input: a parser with all its data has one of its own. */
    function Marks(): (m: nat) {
      if fd == null then 2 else 1
    }

    /** `parser_peek`: afterwards the buffer starts with `n` characters of the rest and its NUL. */
    method Peek(size: nat) returns (n: nat)
      requires Valid()
      modifies this`eof, buf, buf.data, fd
      ensures Valid() && (buf.data == old(buf.data) || fresh(buf.data))
      ensures n <= buf.len && n == if size <= |rest| + Marks() then size else |rest| + Marks()
      ensures buf.data[..n] == Front(rest + [NUL, NUL], n)
    {
      n := size;
      if size > buf.len {
        var nMore := size - buf.len;
        var nRead := 0;
        if fd != null {
          nRead := PeekFd(nMore);
        }
        if nRead < nMore {
          MarkEnd();
          n := buf.len;
        }
      }
      Shows(n);
    }

    /** At the end of the input, a NUL goes into the buffer once. */
    method MarkEnd()
      requires Valid() && (fd != null ==> fd.pending == [])
      modifies this`eof, buf, buf.data
      ensures Valid() && (buf.data == old(buf.data) || fresh(buf.data))
      ensures eof && buf.len == |rest| + Marks()
    {
      if !eof {
        assert fd != null ==> buf.Contents() == rest;
        buf.AppendChar(NUL);
        eof := true;
        assert fd == null ==> rest + [NUL] + [NUL] == rest + [NUL, NUL];
      }
    }

    /** What a valid parser has in its buffer. */
    lemma Shows(n: nat)
      requires Valid() && n <= buf.len
      ensures n <= |rest| + Marks() && buf.data[..n] == Front(rest + [NUL, NUL], n)
    {
      assert buf.data[..n] == buf.Contents()[..n];
    }

    /** The character at offset `i` of what is to be read; NUL at the end. */
    method PeekAt(i: nat) returns (c: char)
      requires Valid() && i <= |rest|
      modifies this`eof, buf, buf.data, fd
      ensures Valid() && (buf.data == old(buf.data) || fresh(buf.data))
      ensures c == At(rest, i) && (c == NUL <==> i == |rest|)
    {
      var n := Peek(i + 1);
      c := buf.data[..n][i];
      if i < |rest| {
        assert rest[i] in rest;
      }
    }

    /** `parser_peek_char` */
    method PeekChar() returns (c: char)
      requires Valid()
      modifies this`eof, buf, buf.data, fd
      ensures Valid() && (buf.data == old(buf.data) || fresh(buf.data))
      ensures c == At(rest, 0) && (c == NUL <==> rest == "")
    {
      c := PeekAt(0);
    }

    /** Takes `n` characters out of the buffer. */
    method Discard(n: nat)
      requires buf.Valid() && Buffered() && n <= buf.len && n <= |rest|
      modifies this`rest, buf, buf.data
      ensures buf.Valid() && Buffered() && buf.data == old(buf.data) && rest == old(rest)[n..]
    {
      ghost var b := buf.Contents();
      if fd != null && !eof {
        assert b[n..] + fd.pending == (b + fd.pending)[n..];
      } else {
        ghost var end := b[|rest|..];
        assert b == rest + end && b[n..] == rest[n..] + end;
      }
      buf.DropFront(n);
      rest := rest[n..];
    }

    /** Moves the position over the text that was read. */
    method Advance(s: string)
      requires pos == PositionAfter(consumed)
      modifies this`pos, this`consumed
      ensures consumed == old(consumed) + s && pos == PositionAfter(consumed)
    {
      assert consumed + s[..0] == consumed;
      for i := 0 to |s|
        invariant pos == PositionAfter(consumed + s[..i])
        modifies this`pos
      {
        assert (consumed + s[..i + 1])[..|consumed| + i] == consumed + s[..i];
        if s[i] == '\n' {
          pos := Position(pos.offset + 1, pos.line + 1, 1);
        } else {
          pos := Position(pos.offset + 1, pos.line, pos.column + 1);
        }
      }
      assert consumed + s[..|s|] == consumed + s;
      consumed := consumed + s;
    }

    /** `parser_read`: the characters leave the buffer and the position moves over them. */
    method Read(size: nat) returns (s: string)
      requires Valid() && size <= |rest|
      modifies this`eof, this`pos, this`rest, this`consumed, buf, buf.data, fd
      ensures Valid() && (buf.data == old(buf.data) || fresh(buf.data))
      ensures s == old(rest)[..size] && rest == old(rest)[size..] && consumed == old(consumed) + s
    {
      var n := Peek(size);
      s := buf.data[..n];
      assert s == rest[..size];
      Advance(s);
      NulFreeParts(rest, n);
      Discard(n);
    }

    /** `parser_read_char` */
    method ReadChar() returns (c: char)
      requires Valid() && rest != ""
      modifies this`eof, this`pos, this`rest, this`consumed, buf, buf.data, fd
      ensures Valid() && (buf.data == old(buf.data) || fresh(buf.data))
      ensures c == old(rest)[0] && rest == old(rest)[1..] && consumed == old(consumed) + [c]
    {
      var s := Read(1);
      c := s[0];
    }

    /** `parser_set_error`: the first error stays, with its position. */
    method SetError(msg: string)
      requires Valid()
      modifies this`error, this`errorPos
      ensures Valid()
      ensures (error, errorPos) == if old(error).Some? then (old(error), old(errorPos)) else (Some(msg), pos)
    {
      if error.None? {
        error, errorPos := Some(msg), pos;
      }
    }

    // ---------------------------------------------------------------------
    // Tokens.

    /** Does the rest start with an operator? The characters are peeked one by one. */
    method StartsWith(str: string) returns (yes: bool)
      requires Valid() && NulFree(str)
      modifies this`eof, buf, buf.data, fd
      ensures Valid() && (buf.data == old(buf.data) || fresh(buf.data))
      ensures yes == (str <= rest)
    {
      for i := 0 to |str|
        invariant Valid() && (buf.data == old(buf.data) || fresh(buf.data))
        invariant str[..i] <= rest
      {
        var c := PeekAt(i);
        assert str[i] in str;
        if c != str[i] {
          return false;
        }
        assert str[..i + 1] == str[..i] + [str[i]];
      }
      assert str[..|str|] == str;
      return true;
    }

    method FindOperator() returns (r: Option<Symbol>)
      requires Valid()
      modifies this`eof, buf, buf.data, fd
      ensures Valid() && (buf.data == old(buf.data) || fresh(buf.data))
      ensures r == OperatorAt(rest, 0)
    {
      for i := 0 to |OPERATORS|
        invariant Valid() && (buf.data == old(buf.data) || fresh(buf.data))
        invariant OperatorAt(rest, i) == OperatorAt(rest, 0)
      {
        var found := StartsWith(OPERATORS[i].1);
        if found {
          return Some(OPERATORS[i].0);
        }
      }
      return None;
    }

    method SetSymbol(kind: Symbol)
      requires Valid()
      modifies this`symbol
      ensures Valid() && symbol == Some(kind)
    {
      symbol := Some(kind);
    }

    /** `next_symbol` */
    method FindSymbol()
      requires Valid()
      modifies Repr()
      ensures Valid() && (buf.data == old(buf.data) || fresh(buf.data)) && error == old(error)
      ensures symbol == Some(NextSymbol(old(rest)).0) && rest == NextSymbol(old(rest)).1
      decreases |rest|
    {
      hide OperatorAt, SkipComment, Newlines, SinceNewline, Parser.Buffered;
      var c := PeekChar();
      if c == NUL {
        SetSymbol(EofToken);
        return;
      }
      if c == '\n' {
        SetSymbol(Newline);
        return;
      }
      if IsOperatorStart(c) {
        var op := FindOperator();
        if op.Some? {
          SetSymbol(op.value);
          return;
        }
      }
      if IsBlank(c) {
        var _ := ReadChar();
        FindSymbol();
        return;
      }
      if c == '#' {
        SkipLine();
        FindSymbol();
        return;
      }
      SetSymbol(Token);
    }

    /** Reads a comment, from its `#` on. */
    method SkipLine()
      requires Valid() && rest != "" && rest[0] == '#'
      modifies Repr()
      ensures Valid() && (buf.data == old(buf.data) || fresh(buf.data)) && error == old(error)
      ensures rest == SkipComment(old(rest)[1..])
    {
      ghost var line := rest;
      var first := true;
      while true
        invariant Valid() && (buf.data == old(buf.data) || fresh(buf.data)) && error == old(error)
        invariant if first then rest == line else SkipComment(rest) == SkipComment(line[1..])
        decreases |rest|
      {
        var c := PeekChar();
        if c == NUL || c == '\n' {
          break;
        }
        var _ := ReadChar();
        first := false;
      }
    }

    /** `symbol`: is the next token of this kind? */
    method IsSymbol(kind: Symbol) returns (yes: bool)
      requires Valid()
      modifies Repr()
      ensures Valid() && (buf.data == old(buf.data) || fresh(buf.data)) && error == old(error)
      ensures var (s, r) := Settle(old(symbol), old(rest)); symbol == Some(s) && rest == r && yes == (s == kind)
    {
      if symbol.None? {
        FindSymbol();
      }
      yes := symbol.value == kind;
    }

    /** `consume_symbol` */
    method ConsumeSymbol()
      requires Valid()
      modifies this`symbol
      ensures Valid() && symbol == None
    {
      symbol := None;
    }

    /** `peek_name` */
    method PeekName(inBraces: bool) returns (n: nat)
      requires Valid()
      modifies Repr()
      ensures Valid() && (buf.data == old(buf.data) || fresh(buf.data)) && error == old(error)
      ensures var (s, r) := Settle(old(symbol), old(rest));
        symbol == Some(s) && rest == r && n == if s == Token then NameLength(r, inBraces) else 0
    {
      hide Valid, Buffered, NextSymbol;
      var isToken := IsSymbol(Token);
      if !isToken {
        return 0;
      }
      n := CountName(inBraces);
    }

    /** The loop of `peek_name`. */
    method CountName(inBraces: bool) returns (n: nat)
      requires Valid()
      modifies this`eof, buf, buf.data, fd
      ensures Valid() && (buf.data == old(buf.data) || fresh(buf.data))
      ensures n == NameLength(rest, inBraces)
    {
      hide Valid, Buffered;
      n := 0;
      while true
        invariant Valid() && (buf.data == old(buf.data) || fresh(buf.data))
        invariant n <= |rest| && NameChars(rest) == n + NameChars(rest[n..])
        invariant n > 0 && IsDigit(rest[0]) ==> inBraces
        decreases |rest| - n
      {
        var c := PeekAt(n);
        if !IsNameChar(c) || (n == 0 && IsDigit(c) && !inBraces) {
          break;
        }
        assert rest[n..][1..] == rest[n + 1..];
        n := n + 1;
      }
    }
  }

  /** The column counts from the last newline, the line counts newlines. */
  lemma {:induction false} PositionAfterLine(before: string, line: string)
    requires '\n' !in line
    ensures PositionAfter(before + "\n" + line)
      == Position(|before| + 1 + |line|, Newlines(before) + 2, 1 + |line|)
  {
    var s := before + "\n" + line;
    if line == "" {
      assert s == before + "\n" && s[..|s| - 1] == before;
    } else {
      var line' := line[..|line| - 1];
      PositionAfterLine(before, line');
      assert s[..|s| - 1] == before + "\n" + line';
      assert s[|s| - 1] == line[|line| - 1] && line[|line| - 1] in line;
    }
  }

  // -----------------------------------------------------------------------
  // Whole runs.

  /** A look at the next characters, or a read of as many as there are up to `size`. */
  datatype Step = PeekStep(size: nat) | ReadStep(size: nat)

  /** What a plain cursor over the input shows: a look sees the NUL after its end, a read does not. */
  function Results(input: string, steps: seq<Step>): seq<string> {
    if steps == [] then []
    else match steps[0]
      case PeekStep(size) => [Front(input + [NUL], size)] + Results(input, steps[1..])
      case ReadStep(size) =>
        var s := Front(input, size);
        [s] + Results(input[|s|..], steps[1..])
  }

  /** How many characters the reads ask for. */
  function ReadTotal(steps: seq<Step>): nat {
    if steps == [] then 0 else (if steps[0].ReadStep? then steps[0].size else 0) + ReadTotal(steps[1..])
  }

  function Taken(input: string, steps: seq<Step>): string {
    if steps == [] then ""
    else
      var s := if steps[0].ReadStep? then Front(input, steps[0].size) else "";
      s + Taken(input[|s|..], steps[1..])
  }

  lemma {:induction false} TakenIsFront(input: string, steps: seq<Step>)
    ensures Taken(input, steps) == Front(input, ReadTotal(steps))
    decreases steps
  {
    if steps != [] {
      var s := if steps[0].ReadStep? then Front(input, steps[0].size) else "";
      TakenIsFront(input[|s|..], steps[1..]);
      assert input == s + input[|s|..];
    }
  }

  lemma NulIsEnd(rest: string, n: nat)
    requires NulFree(rest) && 0 < n <= |rest| + 1
    ensures Front(rest + [NUL, NUL], n)[n - 1] == NUL <==> n == |rest| + 1
  {
    if n <= |rest| {
      assert rest[n - 1] in rest;
    }
  }

  method Perform(p: Parser, step: Step) returns (s: string)
    requires p.Valid() && p.fd != null
    modifies p.Repr()
    ensures p.Valid() && fresh(p.Repr() - old(p.Repr()))
    ensures step.PeekStep? ==>
      s == Front(p.rest + [NUL], step.size) && p.rest == old(p.rest) && p.consumed == old(p.consumed)
    ensures step.ReadStep? ==>
      s == Front(old(p.rest), step.size) && p.rest == old(p.rest)[|s|..] && p.consumed == old(p.consumed) + s
  {
    hide Parser.Buffered, PositionAfter;
    match step
    case PeekStep(size) =>
      var n := p.Peek(size);
      s := p.buf.data[..n];
      assert Front(p.rest + [NUL, NUL], n) == Front(p.rest + [NUL], size);
    case ReadStep(size) =>
      var n := p.Peek(size);
      if n > 0 {
        NulIsEnd(p.rest, n);
        if p.buf.data[..n][n - 1] == NUL {
          n := n - 1;
        }
      }
      s := p.Read(n);
  }

  lemma NextStep(results: seq<string>, rest: string, consumed: string, steps: seq<Step>, s: string)
    requires steps != []
    requires s == if steps[0].PeekStep? then Front(rest + [NUL], steps[0].size) else Front(rest, steps[0].size)
    ensures var read := if steps[0].ReadStep? then s else "";
      && results + Results(rest, steps) == results + [s] + Results(rest[|read|..], steps[1..])
      && consumed + Taken(rest, steps) == consumed + read + Taken(rest[|read|..], steps[1..])
  {
    var read := if steps[0].ReadStep? then s else "";
    assert rest[0..] == rest;
    assert results + ([s] + Results(rest[|read|..], steps[1..])) == results + [s] + Results(rest[|read|..], steps[1..]);
    assert consumed + (read + Taken(rest[|read|..], steps[1..])) == consumed + read + Taken(rest[|read|..], steps[1..]);
  }

  /** The steps in order, on a parser wherever it stands. */
  method PerformAll(p: Parser, steps: seq<Step>) returns (results: seq<string>)
    requires p.Valid() && p.fd != null
    modifies p.Repr()
    ensures p.Valid() && fresh(p.Repr() - old(p.Repr()))
    ensures results == Results(old(p.rest), steps)
    ensures p.consumed == old(p.consumed) + Taken(old(p.rest), steps)
    ensures p.consumed + p.rest == old(p.consumed) + old(p.rest)
  {
    hide Parser.Buffered, Parser.Valid, Front;
    results := [];
    for i := 0 to |steps|
      invariant p.Valid() && fresh(p.Repr() - old(p.Repr())) && p.consumed + p.rest == old(p.consumed) + old(p.rest)
      invariant results + Results(p.rest, steps[i..]) == Results(old(p.rest), steps)
      invariant p.consumed + Taken(p.rest, steps[i..]) == old(p.consumed) + Taken(old(p.rest), steps)
    {
      hide Results, Taken;
      ghost var before, rest := p.consumed, p.rest;
      var s := Perform(p, steps[i]);
      ghost var read := if steps[i].ReadStep? then s else "";
      assert steps[i..][1..] == steps[i + 1..];
      NextStep(results, rest, before, steps[i..], s);
      assert p.rest == rest[|read|..] && p.consumed == before + read;
      ReadAndRest(before, rest, steps[i]);
      results := results + [s];
    }
    assert steps[|steps|..] == [];
  }

  lemma ReadAndRest(before: string, rest: string, step: Step)
    ensures var read := if step.ReadStep? then Front(rest, step.size) else "";
      before + read + rest[|read|..] == before + rest
  {
    var read := if step.ReadStep? then Front(rest, step.size) else "";
    assert read + rest[|read|..] == rest;
    assert before + read + rest[|read|..] == before + (read + rest[|read|..]);
  }

  /**
   * However the descriptor delivers its input, any run of looks and reads shows what a plain
   * cursor over that input shows, and ends at the position of the text read.
   */
  method Run(input: string, steps: seq<Step>) returns (p: Parser, results: seq<string>)
    requires NulFree(input)
    ensures results == Results(input, steps)
    ensures p.Valid() && p.consumed == Front(input, ReadTotal(steps)) && p.consumed + p.rest == input
    ensures p.pos == PositionAfter(Front(input, ReadTotal(steps)))
  {
    hide Parser.Buffered, PositionAfter;
    var fd := new FileDescriptor(input);
    p := new Parser.WithFd(fd);
    results := PerformAll(p, steps);
    TakenIsFront(input, steps);
  }
}

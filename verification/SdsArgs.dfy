/** sdscatrepr and sdssplitargs of sds.c: quoting a byte string and splitting a line into arguments. */
module SdsArgs {
  import opened Bytes
  import opened Options
  import opened Sequences

  // ---------- the printer ----------

  function EscapeByte(b: byte): bytes {
    if b == BACKSLASH || b == QUOTE then [BACKSLASH, b]
    else if b == NEWLINE then [BACKSLASH, Code('n')]
    else if b == RETURN then [BACKSLASH, Code('r')]
    else if b == TAB then [BACKSLASH, Code('t')]
    else if b == BELL then [BACKSLASH, Code('a')]
    else if b == BACKSPACE then [BACKSLASH, Code('b')]
    else if IsPrint(b) then [b]
    else [BACKSLASH, Code('x'), HexDigit(b / 16), HexDigit(b % 16)]
  }

  function Escape(s: bytes): bytes {
    if s == [] then [] else EscapeByte(s[0]) + Escape(s[1..])
  }

  function Repr(s: bytes): bytes { [QUOTE] + Escape(s) + [QUOTE] }

  /** sdscatrepr. */
  method CatRepr(s: bytes, p: bytes) returns (r: bytes)
    ensures r == s + Repr(p)
  {
    hide EscapeByte;
    r := s + [QUOTE];
    var i := 0;
    while i < |p|
      invariant 0 <= i <= |p|
      invariant r + Escape(p[i..]) == s + [QUOTE] + Escape(p)
    {
      assert r + Escape(p[i..]) == r + EscapeByte(p[i]) + Escape(p[i + 1..]);
      r := r + EscapeByte(p[i]);
      i := i + 1;
    }
    assert r == s + [QUOTE] + Escape(p);
    r := r + [QUOTE];
  }

  // ---------- the parser ----------

  datatype Mode = Plain | InQuotes | InSingleQuotes

  /** The byte that a backslash and c stand for inside double quotes. */
  function Unescape(c: byte): byte {
    if c == Code('n') then NEWLINE
    else if c == Code('r') then RETURN
    else if c == Code('t') then TAB
    else if c == Code('b') then BACKSPACE
    else if c == Code('a') then BELL
    else c
  }

  predicate EndsPlain(c: byte) { c == SPACE || c == NEWLINE || c == RETURN || c == TAB }

  /** What may come behind the quote that ends a token: a blank, or the end of the line. */
  predicate ClosesWell(rest: bytes) { rest == [] || IsSpace(rest[0]) }

  /** Reads the rest of a token: its bytes and the text after it, or None for unbalanced quotes. */
  function Token(s: bytes, mode: Mode, current: bytes): (r: Option<(bytes, bytes)>)
    ensures r.Some? ==> |r.value.1| <= |s| && (s != [] ==> |r.value.1| < |s|)
    decreases |s|
  {
    match mode
    case InQuotes =>
      if |s| >= 4 && s[0] == BACKSLASH && s[1] == Code('x') && IsHexDigit(s[2]) && IsHexDigit(s[3]) then
        Token(s[4..], mode, current + [HexDigitToInt(s[2]) * 16 + HexDigitToInt(s[3])])
      else if |s| >= 2 && s[0] == BACKSLASH then
        Token(s[2..], mode, current + [Unescape(s[1])])
      else if s == [] then None
      else if s[0] == QUOTE then
        if ClosesWell(s[1..]) then Some((current, s[1..])) else None
      else
        Token(s[1..], mode, current + [s[0]])
    case InSingleQuotes =>
      if |s| >= 2 && s[0] == BACKSLASH && s[1] == APOSTROPHE then
        Token(s[2..], mode, current + [APOSTROPHE])
      else if s == [] then None
      else if s[0] == APOSTROPHE then
        if ClosesWell(s[1..]) then Some((current, s[1..])) else None
      else
        Token(s[1..], mode, current + [s[0]])
    case Plain =>
      if s == [] then Some((current, []))
      else if EndsPlain(s[0]) then Some((current, s[1..]))
      else if s[0] == QUOTE then Token(s[1..], InQuotes, current)
      else if s[0] == APOSTROPHE then Token(s[1..], InSingleQuotes, current)
      else Token(s[1..], Plain, current + [s[0]])
  }

  function SkipSpaces(s: bytes): (r: bytes)
    ensures |r| <= |s|
  {
    if s != [] && IsSpace(s[0]) then SkipSpaces(s[1..]) else s
  }

  /** The arguments of a line without NULs. */
  function Arguments(s: bytes): Option<seq<bytes>>
    decreases |s|
  {
    var t := SkipSpaces(s);
    if t == [] then Some([])
    else
      match Token(t, Plain, [])
      case None => None
      case Some((arg, rest)) =>
        match Arguments(rest)
        case None => None
        case Some(args) => Some([arg] + args)
  }

  ghost function Prepend(args: seq<bytes>, r: Option<seq<bytes>>): Option<seq<bytes>> {
    if r.None? then None else Some(args + r.value)
  }

  lemma PrependOne(args: seq<bytes>, arg: bytes, r: Option<seq<bytes>>)
    ensures Prepend(args + [arg], r) == Prepend(args, Prepend([arg], r))
  {
    if r.Some? { assert args + [arg] + r.value == args + ([arg] + r.value); }
  }

  lemma PrependNothing(args: seq<bytes>, r: Option<seq<bytes>>)
    ensures Prepend([], r) == r && Prepend(args, Some([])) == Some(args)
  {
    assert args + [] == args;
    if r.Some? { assert [] + r.value == r.value; }
  }

  /** The loop that skips blanks. */
  method SkipBlanks(line: bytes, ghost n: nat, p0: nat) returns (p: nat)
    requires EndsAt(line, n) && p0 <= n
    ensures p0 <= p <= n && line[p..n] == SkipSpaces(line[p0..n])
    ensures line[p] != NUL ==> p < n
  {
    p := p0;
    while line[p] != NUL && IsSpace(line[p])
      invariant p0 <= p <= n && SkipSpaces(line[p..n]) == SkipSpaces(line[p0..n])
      decreases n - p
    {
      p := p + 1;
    }
  }

  lemma NulIsNoHexDigit()
    ensures !IsHexDigit(NUL)
  {}

  /** One trip round the loop inside double quotes; ok is false where the C code jumps to err. */
  method StepInQuotes(line: bytes, ghost n: nat, p0: nat, current0: bytes)
    returns (ok: bool, done: bool, p: nat, current: bytes)
    requires EndsAt(line, n) && p0 <= n
    ensures !ok ==> Token(line[p0..n], InQuotes, current0) == None
    ensures ok ==> p0 < p <= n
    ensures ok && !done ==> Token(line[p0..n], InQuotes, current0) == Token(line[p..n], InQuotes, current)
    ensures ok && done ==> Token(line[p0..n], InQuotes, current0) == Some((current, line[p..n]))
  {
    hide HexDigitToInt, Unescape, IsHexDigit;
    NulIsNoHexDigit();
    ok, done, p, current := true, false, p0, current0;
    if line[p] == BACKSLASH && line[p + 1] == Code('x') && IsHexDigit(line[p + 2]) && IsHexDigit(line[p + 3]) {
      var b := HexDigitToInt(line[p + 2]) * 16 + HexDigitToInt(line[p + 3]);
      current := current + [b];
      p := p + 3;
    } else if line[p] == BACKSLASH && line[p + 1] != NUL {
      p := p + 1;
      current := current + [Unescape(line[p])];
    } else if line[p] == QUOTE {
      if line[p + 1] != NUL && !IsSpace(line[p + 1]) { ok := false; }
      done := true;
    } else if line[p] == NUL {
      ok := false;
    } else {
      current := current + [line[p]];
    }
    if line[p] != NUL { p := p + 1; }
  }

  /** The same inside single quotes. */
  method StepInSingleQuotes(line: bytes, ghost n: nat, p0: nat, current0: bytes)
    returns (ok: bool, done: bool, p: nat, current: bytes)
    requires EndsAt(line, n) && p0 <= n
    ensures !ok ==> Token(line[p0..n], InSingleQuotes, current0) == None
    ensures ok ==> p0 < p <= n
    ensures ok && !done ==> Token(line[p0..n], InSingleQuotes, current0) == Token(line[p..n], InSingleQuotes, current)
    ensures ok && done ==> Token(line[p0..n], InSingleQuotes, current0) == Some((current, line[p..n]))
  {
    ok, done, p, current := true, false, p0, current0;
    if line[p] == BACKSLASH && line[p + 1] == APOSTROPHE {
      p := p + 1;
      current := current + [APOSTROPHE];
    } else if line[p] == APOSTROPHE {
      if line[p + 1] != NUL && !IsSpace(line[p + 1]) { ok := false; }
      done := true;
    } else if line[p] == NUL {
      ok := false;
    } else {
      current := current + [line[p]];
    }
    if line[p] != NUL { p := p + 1; }
  }

  /** The loop that gets one token. */
  method GetToken(line: bytes, ghost n: nat, p0: nat) returns (ok: bool, p: nat, current: bytes)
    requires EndsAt(line, n) && p0 < n
    ensures ok ==> p0 < p <= n && Token(line[p0..n], Plain, []) == Some((current, line[p..n]))
    ensures !ok ==> Token(line[p0..n], Plain, []) == None
  {
    ok, p, current := true, p0, [];
    var inq, insq, done := false, false, false;
    ghost var t := Token(line[p0..n], Plain, []);
    while !done
      invariant p0 <= p <= n && (p == p0 ==> !done)
      invariant !done ==>
                  t == Token(line[p..n], if inq then InQuotes else if insq then InSingleQuotes else Plain, current)
      invariant done ==> t == Some((current, line[p..n]))
      decreases !done, n - p
    {
      if inq {
        ok, done, p, current := StepInQuotes(line, n, p, current);
        if !ok { return; }
      } else if insq {
        ok, done, p, current := StepInSingleQuotes(line, n, p, current);
        if !ok { return; }
      } else {
        if EndsPlain(line[p]) || line[p] == NUL {
          done := true;
        } else if line[p] == QUOTE {
          inq := true;
        } else if line[p] == APOSTROPHE {
          insq := true;
        } else {
          current := current + [line[p]];
        }
        if line[p] != NUL { p := p + 1; }
      }
    }
  }

  /** sdssplitargs. line is the memory at the argument; only its bytes up to the first NUL, at n, are read. */
  method SplitArgs(line: bytes, ghost n: nat) returns (argv: Option<seq<bytes>>)
    requires EndsAt(line, n)
    ensures argv == Arguments(line[..n])
  {
    var p, vector := 0, [];
    PrependNothing([], Arguments(line[..n]));
    while true
      invariant p <= n
      invariant Arguments(line[..n]) == Prepend(vector, Arguments(line[p..n]))
      decreases n - p
    {
      PrependNothing(vector, Some([]));
      p := SkipBlanks(line, n, p);
      if line[p] == NUL { return Some(vector); }
      var ok, q, current := GetToken(line, n, p);
      if !ok { return None; }
      PrependOne(vector, current, Arguments(line[q..n]));
      p, vector := q, vector + [current];
    }
  }

  // ---------- the round trip ----------

  lemma HexReadsBack(b: byte)
    ensures IsHexDigit(HexDigit(b / 16)) && IsHexDigit(HexDigit(b % 16))
    ensures HexDigitToInt(HexDigit(b / 16)) * 16 + HexDigitToInt(HexDigit(b % 16)) == b
  {}

  lemma OrdinaryByteRead(c: byte, rest: bytes, current: bytes)
    requires c != BACKSLASH && c != QUOTE
    ensures Token([c] + rest, InQuotes, current) == Token(rest, InQuotes, current + [c])
  {
    assert ([c] + rest)[1..] == rest;
  }

  lemma EscapeRead(c: byte, rest: bytes, current: bytes)
    requires c != Code('x')
    ensures Token([BACKSLASH, c] + rest, InQuotes, current) == Token(rest, InQuotes, current + [Unescape(c)])
  {
    assert ([BACKSLASH, c] + rest)[2..] == rest;
  }

  lemma HexRead(c: byte, d: byte, rest: bytes, current: bytes)
    requires IsHexDigit(c) && IsHexDigit(d)
    ensures Token([BACKSLASH, Code('x'), c, d] + rest, InQuotes, current) ==
            Token(rest, InQuotes, current + [HexDigitToInt(c) * 16 + HexDigitToInt(d)])
  {
    assert ([BACKSLASH, Code('x'), c, d] + rest)[4..] == rest;
  }

  lemma EscapeMeaning()
    ensures Unescape(Code('n')) == NEWLINE && Unescape(Code('r')) == RETURN && Unescape(Code('t')) == TAB
    ensures Unescape(Code('b')) == BACKSPACE && Unescape(Code('a')) == BELL
    ensures Unescape(BACKSLASH) == BACKSLASH && Unescape(QUOTE) == QUOTE
  {}

  /** Inside double quotes the parser undoes one escaped byte. */
  lemma TokenUndoesByte(b: byte, rest: bytes, current: bytes)
    ensures Token(EscapeByte(b) + rest, InQuotes, current) == Token(rest, InQuotes, current + [b])
  {
    HexReadsBack(b);
    hide Token, HexDigit, HexDigitToInt, IsHexDigit, Unescape;
    EscapeMeaning();
    if |EscapeByte(b)| == 1 {
      OrdinaryByteRead(b, rest, current);
    } else if |EscapeByte(b)| == 2 {
      EscapeRead(EscapeByte(b)[1], rest, current);
    } else {
      HexRead(HexDigit(b / 16), HexDigit(b % 16), rest, current);
    }
  }

  lemma QuoteCloses(rest: bytes, current: bytes)
    requires ClosesWell(rest)
    ensures Token([QUOTE] + rest, InQuotes, current) == Some((current, rest))
    ensures Token([APOSTROPHE] + rest, InSingleQuotes, current) == Some((current, rest))
  {
    assert ([QUOTE] + rest)[1..] == rest && ([APOSTROPHE] + rest)[1..] == rest;
  }

  lemma {:induction false} TokenUndoesEscape(a: bytes, rest: bytes, current: bytes)
    requires ClosesWell(rest)
    ensures Token(Escape(a) + [QUOTE] + rest, InQuotes, current) == Some((current + a, rest))
  {
    hide Token, EscapeByte, ClosesWell;
    if a == [] {
      QuoteCloses(rest, current);
      assert Escape(a) + [QUOTE] + rest == [QUOTE] + rest && current + a == current;
    } else {
      var e, tail := EscapeByte(a[0]), Escape(a[1..]) + [QUOTE] + rest;
      assert Escape(a) + [QUOTE] + rest == e + tail;
      TokenUndoesByte(a[0], tail, current);
      TokenUndoesEscape(a[1..], rest, current + [a[0]]);
      assert current + [a[0]] + a[1..] == current + a;
    }
  }

  /** The quoted forms of args, separated by single spaces. */
  function JoinReprs(args: seq<bytes>): bytes {
    if args == [] then []
    else if |args| == 1 then Repr(args[0])
    else Repr(args[0]) + [SPACE] + JoinReprs(args[1..])
  }

  lemma FirstArgument(a: bytes, rest: bytes)
    requires ClosesWell(rest)
    ensures Arguments(Repr(a) + rest) == Prepend([a], Arguments(rest))
  {
    var line, s := Repr(a) + rest, Escape(a) + [QUOTE] + rest;
    assert line[0] == QUOTE && line[1..] == s;
    hide Escape;
    TokenUndoesEscape(a, rest, []);
    assert [] + a == a;
    assert SkipSpaces(line) == line;
    assert Token(line, Plain, []) == Some((a, rest));
  }

  lemma SpaceSkipped(s: bytes)
    ensures Arguments([SPACE] + s) == Arguments(s)
  {
    assert ([SPACE] + s)[1..] == s;
  }

  /** Splitting the quoted forms of any byte strings gives back those strings. */
  lemma {:induction false} ArgumentsUndoRepr(args: seq<bytes>)
    ensures Arguments(JoinReprs(args)) == Some(args)
  {
    hide Repr, Token;
    if args == [] {
    } else {
      var rest := if |args| == 1 then [] else [SPACE] + JoinReprs(args[1..]);
      assert JoinReprs(args) == Repr(args[0]) + rest;
      FirstArgument(args[0], rest);
      ArgumentsUndoRepr(args[1..]);
      SpaceSkipped(JoinReprs(args[1..]));
      assert [args[0]] + args[1..] == args;
    }
  }

  /** Quoted forms are printable, so they can be the content of a C string. */
  lemma {:induction false} EscapeIsPrintable(a: bytes)
    ensures forall i :: 0 <= i < |Escape(a)| ==> IsPrint(Escape(a)[i])
  {
    if a == [] {
    } else {
      EscapeIsPrintable(a[1..]);
    }
  }

  lemma {:induction false} JoinedIsPrintable(args: seq<bytes>)
    ensures forall i :: 0 <= i < |JoinReprs(args)| ==> IsPrint(JoinReprs(args)[i])
  {
    if args == [] {
    } else {
      EscapeIsPrintable(args[0]);
      JoinedIsPrintable(args[1..]);
    }
  }

  lemma JoinShort(a: bytes)
    ensures JoinReprs([]) == [] && JoinReprs([a]) == Repr(a)
  {}

  lemma JoinStep(args: seq<bytes>)
    requires |args| > 1
    ensures JoinReprs(args) == Repr(args[0]) + [SPACE] + JoinReprs(args[1..])
  {}

  lemma {:induction false} JoinOneMore(args: seq<bytes>, a: bytes)
    ensures JoinReprs(args + [a]) == JoinReprs(args) + (if args == [] then [] else [SPACE]) + Repr(a)
  {
    hide Repr, JoinReprs;
    JoinShort(a);
    if args == [] {
      assert [] + [a] == [a] && [] + [] + Repr(a) == Repr(a);
    } else {
      JoinOneMore(args[1..], a);
      assert (args + [a])[1..] == args[1..] + [a];
      JoinStep(args + [a]);
      if |args| == 1 {
        JoinShort(args[0]);
        assert args == [args[0]] && args[1..] + [a] == [a];
      } else {
        JoinStep(args);
        Associative(Repr(args[0]) + [SPACE], JoinReprs(args[1..]) + [SPACE], Repr(a));
        Associative(Repr(args[0]) + [SPACE], JoinReprs(args[1..]), [SPACE]);
      }
    }
  }

  method JoinAll(args: seq<bytes>) returns (line: bytes)
    ensures line == JoinReprs(args)
  {
    hide Repr;
    line := [];
    for i := 0 to |args|
      invariant line == JoinReprs(args[..i])
    {
      JoinOneMore(args[..i], args[i]);
      assert args[..i + 1] == args[..i] + [args[i]];
      if i > 0 { line := line + [SPACE]; }
      line := CatRepr(line, args[i]);
    }
    assert args[..|args|] == args;
  }

  /** The law of the two functions together: what sdscatrepr writes, with a space between any two
      strings and a NUL at the end, sdssplitargs reads back. */
  method QuoteThenSplit(args: seq<bytes>) returns (argv: Option<seq<bytes>>)
    ensures argv == Some(args)
  {
    hide Repr, JoinReprs, Arguments;
    var line := JoinAll(args);
    JoinedIsPrintable(args);
    ArgumentsUndoRepr(args);
    assert (line + [NUL])[..|line|] == line;
    argv := SplitArgs(line + [NUL], |line|);
  }

  // ---------- the other two modes ----------

  function SingleEscapeByte(b: byte): bytes { if b == APOSTROPHE then [BACKSLASH, APOSTROPHE] else [b] }

  /** Apostrophes written with a backslash, for use between single quotes. */
  function SingleEscape(s: bytes): bytes {
    if s == [] then []
    else SingleEscapeByte(s[0]) + SingleEscape(s[1..])
  }

  /** A token begins with what has been read of it. */
  lemma {:induction false} TokenExtends(s: bytes, mode: Mode, current: bytes)
    ensures var r := Token(s, mode, current); r.Some? ==> current <= r.value.0
    decreases |s|
  {
    if s == [] {
    } else {
      match mode
      case InQuotes =>
        if |s| >= 4 && s[0] == BACKSLASH && s[1] == Code('x') && IsHexDigit(s[2]) && IsHexDigit(s[3]) {
          TokenExtends(s[4..], mode, current + [HexDigitToInt(s[2]) * 16 + HexDigitToInt(s[3])]);
        } else if |s| >= 2 && s[0] == BACKSLASH {
          TokenExtends(s[2..], mode, current + [Unescape(s[1])]);
        } else {
          TokenExtends(s[1..], mode, current + [s[0]]);
        }
      case InSingleQuotes =>
        if |s| >= 2 && s[0] == BACKSLASH && s[1] == APOSTROPHE {
          TokenExtends(s[2..], mode, current + [APOSTROPHE]);
        } else {
          TokenExtends(s[1..], mode, current + [s[0]]);
        }
      case Plain =>
        TokenExtends(s[1..], InQuotes, current);
        TokenExtends(s[1..], InSingleQuotes, current);
        TokenExtends(s[1..], Plain, current + [s[0]]);
    }
  }

  /** A backslash in front of the closing quote is the one thing that is read otherwise. */
  lemma SingleStep(b: byte, tail: bytes, current: bytes)
    requires tail != []
    ensures !(b == BACKSLASH && tail[0] == APOSTROPHE) ==>
              Token(SingleEscapeByte(b) + tail, InSingleQuotes, current) == Token(tail, InSingleQuotes, current + [b])
    ensures b == BACKSLASH && tail[0] == APOSTROPHE ==>
              Token(SingleEscapeByte(b) + tail, InSingleQuotes, current) ==
              Token(tail[1..], InSingleQuotes, current + [APOSTROPHE])
  {
    var e := SingleEscapeByte(b);
    assert (e + tail)[|e|..] == tail;
    assert b == BACKSLASH ==> (e + tail)[2..] == tail[1..];
  }

  /** Between single quotes every byte stands for itself; the one thing that cannot be written is a
      backslash at the end, which takes the closing quote. */
  lemma {:induction false} SingleQuotesRead(a: bytes, rest: bytes, current: bytes)
    requires ClosesWell(rest)
    ensures Token(SingleEscape(a) + [APOSTROPHE] + rest, InSingleQuotes, current) == Some((current + a, rest)) <==>
            a == [] || a[|a| - 1] != BACKSLASH
  {
    hide Token, ClosesWell;
    var s := SingleEscape(a) + [APOSTROPHE] + rest;
    if a == [] {
      QuoteCloses(rest, current);
      assert s == [APOSTROPHE] + rest && current + a == current;
    } else {
      var e, tail := SingleEscapeByte(a[0]), SingleEscape(a[1..]) + [APOSTROPHE] + rest;
      assert s == e + tail;
      SingleStep(a[0], tail, current);
      if a[0] == BACKSLASH && a[1..] == [] {
        assert tail[1..] == rest;
        TokenExtends(rest, InSingleQuotes, current + [APOSTROPHE]);
        assert (current + [APOSTROPHE])[|current|] != (current + a)[|current|];
      } else {
        SingleQuotesRead(a[1..], rest, current + [a[0]]);
        assert current + [a[0]] + a[1..] == current + a;
      }
    }
  }

  /** Outside quotes a run of bytes that are neither blank nor quotes is one token. */
  lemma {:induction false} PlainRead(a: bytes, rest: bytes, current: bytes)
    requires forall i :: 0 <= i < |a| ==> !EndsPlain(a[i]) && a[i] != QUOTE && a[i] != APOSTROPHE
    requires rest != [] ==> EndsPlain(rest[0])
    ensures Token(a + rest, Plain, current) == Some((current + a, if rest == [] then [] else rest[1..]))
  {
    if a == [] {
      assert a + rest == rest && current + a == current;
    } else {
      PlainRead(a[1..], rest, current + [a[0]]);
      assert (a + rest)[1..] == a[1..] + rest;
      assert current + [a[0]] + a[1..] == current + a;
    }
  }
}

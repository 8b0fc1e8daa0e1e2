/** What the quoted form of sdscatrepr is, said without its escapes: ordinary text stays as it is, and no shorter
    printable form reads back. */
module SdsQuoting {
  import opened Bytes
  import opened Options
  import opened Sequences
  import opened SdsArgs
  import opened SdsSplit

  lemma EscapeOne(b: byte)
    ensures Escape([b]) == EscapeByte(b)
  {
    assert [b][1..] == [];
  }

  lemma {:induction false} EscapeOfTwo(a: bytes, b: bytes)
    ensures Escape(a + b) == Escape(a) + Escape(b)
  {
    hide EscapeByte;
    if a == [] {
      assert a + b == b && [] + Escape(b) == Escape(b);
    } else {
      EscapeOfTwo(a[1..], b);
      assert (a + b)[1..] == a[1..] + b;
      Associative(EscapeByte(a[0]), Escape(a[1..]), Escape(b));
    }
  }

  // ---------- ordinary text ----------

  predicate Ordinary(b: byte) { IsPrint(b) && b != QUOTE && b != BACKSLASH }

  lemma {:induction false} EscapeLength(s: bytes)
    ensures |s| <= |Escape(s)|
  {
    if s != [] { EscapeLength(s[1..]); }
  }

  /** A string is its own escaped form exactly when it is ordinary text. */
  lemma {:induction false} OrdinaryStays(s: bytes)
    ensures Escape(s) == s <==> forall i :: 0 <= i < |s| ==> Ordinary(s[i])
  {
    if s == [] {
    } else {
      EscapeLength(s[1..]);
      OrdinaryStays(s[1..]);
      var e := EscapeByte(s[0]);
      assert s == [s[0]] + s[1..];
      assert forall i :: 1 <= i < |s| ==> s[i] == s[1..][i - 1];
      if Ordinary(s[0]) {
        assert Escape(s)[1..] == Escape(s[1..]);
      } else {
        assert |e| > 1 && |Escape(s)| > |s|;
      }
    }
  }

  /** So it is quoted as itself between two quotes exactly then. */
  lemma QuotedAsItself(s: bytes)
    ensures Repr(s) == [QUOTE] + s + [QUOTE] <==> forall i :: 0 <= i < |s| ==> Ordinary(s[i])
  {
    hide Escape;
    OrdinaryStays(s);
    assert Repr(s)[1..|Repr(s)| - 1] == Escape(s);
    assert ([QUOTE] + s + [QUOTE])[1..|s| + 1] == s;
  }

  // ---------- the shortest form ----------

  /** How long the escape of a byte is. */
  lemma EscapeWidth(b: byte)
    ensures |EscapeByte(b)| <= 4
    ensures IsPrint(b) ==> |EscapeByte(b)| <= 2
    ensures Ordinary(b) ==> |EscapeByte(b)| == 1
  {}

  lemma UnescapeWidth(c: byte)
    requires IsPrint(c)
    ensures |EscapeByte(Unescape(c))| <= 2
  {}

  lemma EscapeMore(current: bytes, b: byte)
    ensures |Escape(current + [b])| == |Escape(current)| + |EscapeByte(b)|
  {
    EscapeOfTwo(current, [b]);
    EscapeOne(b);
  }

  ghost predicate Printable(t: bytes) { forall i :: 0 <= i < |t| ==> IsPrint(t[i]) }

  lemma BackslashTakesQuote(current: bytes)
    ensures Token([BACKSLASH] + [QUOTE], InQuotes, current) == None
  {
    assert ([BACKSLASH] + [QUOTE])[2..] == [];
  }

  /** What is read of printable text up to a closing quote has an escaped form that is no longer. */
  lemma {:induction false} ReadIsNoShorter(t: bytes, current: bytes, s: bytes)
    requires Printable(t) && Token(t + [QUOTE], InQuotes, current) == Some((s, []))
    ensures |Escape(s)| <= |Escape(current)| + |t|
    decreases |t|
  {
    hide Escape, EscapeByte, Unescape, HexDigitToInt;
    var u := t + [QUOTE];
    if |t| >= 4 && t[0] == BACKSLASH && t[1] == Code('x') && IsHexDigit(t[2]) && IsHexDigit(t[3]) {
      var b := HexDigitToInt(t[2]) * 16 + HexDigitToInt(t[3]);
      assert u[4..] == t[4..] + [QUOTE];
      EscapeMore(current, b);
      EscapeWidth(b);
      ReadIsNoShorter(t[4..], current + [b], s);
    } else if |t| >= 2 && t[0] == BACKSLASH {
      assert u[2..] == t[2..] + [QUOTE];
      EscapeMore(current, Unescape(t[1]));
      UnescapeWidth(t[1]);
      ReadIsNoShorter(t[2..], current + [Unescape(t[1])], s);
    } else if t == [BACKSLASH] {
      BackslashTakesQuote(current);
    } else if t != [] && t[0] != QUOTE {
      assert u[1..] == t[1..] + [QUOTE];
      EscapeMore(current, t[0]);
      EscapeWidth(t[0]);
      ReadIsNoShorter(t[1..], current + [t[0]], s);
    }
  }

  /** No printable form between double quotes that reads back is shorter than the one that is written. */
  lemma QuotedIsShortest(s: bytes, t: bytes)
    requires Printable(t) && Token(t + [QUOTE], InQuotes, []) == Some((s, []))
    ensures |Escape(s)| <= |t|
    ensures Printable(Escape(s)) && Token(Escape(s) + [QUOTE], InQuotes, []) == Some((s, []))
  {
    ReadIsNoShorter(t, [], s);
    EscapeIsPrintable(s);
    TokenUndoesEscape(s, [], []);
    assert Escape(s) + [QUOTE] + [] == Escape(s) + [QUOTE] && [] + s == s;
  }

  // ---------- the letters ----------

  predicate IsUpperLetter(c: byte) { Code('A') <= c <= Code('Z') }

  lemma LettersOfByte(b: byte)
    ensures forall i :: 0 <= i < |EscapeByte(b)| && IsUpperLetter(EscapeByte(b)[i]) ==> EscapeByte(b)[i] == b
  {}

  /** The escapes themselves use no upper-case letter. */
  lemma {:induction false} NoUpperAdded(s: bytes)
    ensures forall i :: 0 <= i < |Escape(s)| && IsUpperLetter(Escape(s)[i]) ==> Escape(s)[i] in s
  {
    if s == [] {
    } else {
      NoUpperAdded(s[1..]);
      LettersOfByte(s[0]);
      hide EscapeByte;
      var e := EscapeByte(s[0]);
      forall i | 0 <= i < |Escape(s)| && IsUpperLetter(Escape(s)[i]) ensures Escape(s)[i] in s {
        if i >= |e| { assert Escape(s)[i] == Escape(s[1..])[i - |e|]; }
      }
    }
  }

  /** Hex digits count from 0 to 15, and a letter is the same digit in either case. */
  lemma HexDigitsCount()
    ensures forall d: nat :: d < 16 ==> HexDigitToInt(HexDigit(d)) == d
    ensures forall c: byte :: Code('a') <= c <= Code('f') ==> HexDigitToInt(c - 32) == HexDigitToInt(c)
  {}

  /** The parser reads a hex escape in either case. */
  lemma HexEitherCase(c: byte, d: byte, rest: bytes, current: bytes)
    requires Code('a') <= c <= Code('f') && IsHexDigit(d)
    ensures Token([BACKSLASH, Code('x'), c - 32, d] + rest, InQuotes, current) ==
            Token([BACKSLASH, Code('x'), c, d] + rest, InQuotes, current)
    ensures Token([BACKSLASH, Code('x'), d, c - 32] + rest, InQuotes, current) ==
            Token([BACKSLASH, Code('x'), d, c] + rest, InQuotes, current)
  {
    hide Token;
    HexRead(c, d, rest, current);
    HexRead(c - 32, d, rest, current);
    HexRead(d, c, rest, current);
    HexRead(d, c - 32, rest, current);
  }

  /** A backslash before any other byte than the letters of the escapes leaves that byte. */
  lemma OtherEscapes(c: byte, rest: bytes, current: bytes)
    requires c !in [Code('x'), Code('n'), Code('r'), Code('t'), Code('a'), Code('b')]
    ensures Token([BACKSLASH, c] + rest, InQuotes, current) == Token(rest, InQuotes, current + [c])
  {
    EscapeRead(c, rest, current);
  }

  // ---------- text outside quotes ----------

  /** Outside quotes these bytes stand for themselves. */
  predicate PlainByte(c: byte) { !IsSpace(c) && c != QUOTE && c != APOSTROPHE }

  /** A token goes on over plain bytes, whatever comes behind them. */
  lemma {:induction false} PlainContinues(a: bytes, rest: bytes, current: bytes)
    requires forall i :: 0 <= i < |a| ==> PlainByte(a[i])
    ensures Token(a + rest, Plain, current) == Token(rest, Plain, current + a)
  {
    if a == [] {
      assert a + rest == rest && current + a == current;
    } else {
      PlainContinues(a[1..], rest, current + [a[0]]);
      assert (a + rest)[1..] == a[1..] + rest;
      assert current + [a[0]] + a[1..] == current + a;
    }
  }

  /** A quotation behind plain bytes belongs to the same token, and ends it. */
  lemma QuotationEndsToken(a: bytes, b: bytes, rest: bytes)
    requires (forall i :: 0 <= i < |a| ==> PlainByte(a[i])) && ClosesWell(rest)
    ensures Token(a + ([QUOTE] + (Escape(b) + [QUOTE] + rest)), Plain, []) == Some((a + b, rest))
  {
    hide Escape;
    var quoted := Escape(b) + [QUOTE] + rest;
    PlainContinues(a, [QUOTE] + quoted, []);
    assert ([QUOTE] + quoted)[1..] == quoted && [] + a == a;
    TokenUndoesEscape(b, rest, a);
  }

  predicate PlainWord(w: bytes) { w != [] && forall i :: 0 <= i < |w| ==> PlainByte(w[i]) }

  lemma PlainFirst(w: bytes, rest: bytes)
    requires PlainWord(w) && (rest != [] ==> rest[0] in [SPACE, NEWLINE, RETURN, TAB])
    ensures Arguments(w + rest) == Prepend([w], Arguments(if rest == [] then [] else rest[1..]))
  {
    hide Token;
    PlainRead(w, rest, []);
    assert SkipSpaces(w + rest) == w + rest && [] + w == w;
  }

  lemma NoArguments()
    ensures Arguments([]) == Some([])
  {}

  /** Plain words between any of the four blanks are the arguments. */
  lemma {:induction false} PlainArguments(words: seq<bytes>, c: byte)
    requires c in [SPACE, NEWLINE, RETURN, TAB] && forall i :: 0 <= i < |words| ==> PlainWord(words[i])
    ensures Arguments(Join(words, [c])) == Some(words)
  {
    hide Arguments, PlainWord;
    if words == [] {
      NoArguments();
    } else if |words| == 1 {
      PlainFirst(words[0], []);
      NoArguments();
      assert words[0] + [] == words[0] && [words[0]] + [] == words;
    } else {
      var rest := Join(words[1..], [c]);
      PlainArguments(words[1..], c);
      PlainFirst(words[0], [c] + rest);
      assert ([c] + rest)[1..] == rest && [words[0]] + words[1..] == words;
      Associative(words[0], [c], rest);
    }
  }
}

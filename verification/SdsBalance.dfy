/** Which lines sdssplitargs accepts: those whose quotes balance, said of the text without its parser. */
module SdsBalance {
  import opened Bytes
  import opened Options
  import opened SdsArgs

  predicate IsQuote(c: byte) { c == QUOTE || c == APOSTROPHE }

  /** How many backslashes stand directly in front of place k. */
  ghost function Backslashes(s: bytes, k: nat): nat
    requires k <= |s|
  {
    if k == 0 || s[k - 1] != BACKSLASH then 0 else 1 + Backslashes(s, k - 1)
  }

  /** s[k] ends a quotation by q whose text starts s. Between double quotes a backslash takes the next byte
      away from it; between single quotes a backslash only matters in front of an apostrophe. */
  ghost predicate Closing(s: bytes, q: byte, k: nat)
    requires k < |s|
  {
    s[k] == q && if q == QUOTE then Backslashes(s, k) % 2 == 0 else k == 0 || s[k - 1] != BACKSLASH
  }

  /** The first place from k on that ends the quotation, or the length. */
  ghost function CloseFrom(s: bytes, q: byte, k: nat): (c: nat)
    requires k <= |s|
    ensures k <= c <= |s| && (c < |s| ==> Closing(s, q, c))
    ensures forall x :: k <= x < c ==> !Closing(s, q, x)
    decreases |s| - k
  {
    if k == |s| || Closing(s, q, k) then k else CloseFrom(s, q, k + 1)
  }

  /** The place of the first quote, or the length. */
  ghost function FirstQuote(s: bytes): (k: nat)
    ensures k <= |s| && (k < |s| ==> IsQuote(s[k]))
    ensures forall x :: 0 <= x < k ==> !IsQuote(s[x])
  {
    if s == [] || IsQuote(s[0]) then 0 else 1 + FirstQuote(s[1..])
  }

  /** Every quotation ends, and what comes behind its end is a blank or nothing. */
  ghost predicate Balanced(s: bytes)
    decreases |s|, 0
  {
    var k := FirstQuote(s);
    k < |s| ==> BalancedFrom(s[k + 1..], s[k])
  }

  /** The same of what comes behind an opening quote. */
  ghost predicate BalancedFrom(text: bytes, q: byte)
    decreases |text|, 1
  {
    var c := CloseFrom(text, q, 0);
    c < |text| && ClosesWell(text[c + 1..]) && Balanced(text[c + 1..])
  }

  // ---------- one quotation ----------

  /** Dropping n bytes that do not end the quotation and do not change what does. */
  lemma CloseShifted(s: bytes, q: byte, n: nat)
    requires n <= |s| && forall k :: 0 <= k < n ==> !Closing(s, q, k)
    requires forall k :: n <= k < |s| ==> (Closing(s, q, k) <==> Closing(s[n..], q, k - n))
    ensures CloseFrom(s, q, 0) == n + CloseFrom(s[n..], q, 0)
  {
    hide Closing;
    var c, d := CloseFrom(s, q, 0), CloseFrom(s[n..], q, 0);
    assert c < |s| ==> Closing(s, q, c);
    assert n + d < |s| ==> Closing(s, q, n + d);
    assert forall x :: 0 <= x < d ==> !Closing(s[n..], q, x);
  }

  lemma {:induction false} BackslashesShifted(s: bytes, n: nat, k: nat)
    requires n <= k <= |s|
    ensures var b := Backslashes(s[n..], k - n);
            Backslashes(s, k) == if b == k - n then b + Backslashes(s, n) else b
  {
    if k > n { BackslashesShifted(s, n, k - 1); }
  }

  /** An ordinary byte in front changes nothing. */
  lemma CloseBehindByte(s: bytes, q: byte)
    requires s != [] && s[0] != q && s[0] != BACKSLASH
    ensures CloseFrom(s, q, 0) == 1 + CloseFrom(s[1..], q, 0)
  {
    forall k | 1 <= k < |s| ensures Closing(s, q, k) <==> Closing(s[1..], q, k - 1) {
      BackslashesShifted(s, 1, k);
    }
    CloseShifted(s, q, 1);
  }

  /** Nor does an escaped byte between double quotes. */
  lemma CloseBehindEscape(s: bytes)
    requires |s| >= 2 && s[0] == BACKSLASH
    ensures CloseFrom(s, QUOTE, 0) == 2 + CloseFrom(s[2..], QUOTE, 0)
  {
    assert Backslashes(s, 1) == 1;
    forall k | 2 <= k < |s| ensures Closing(s, QUOTE, k) <==> Closing(s[2..], QUOTE, k - 2) {
      BackslashesShifted(s, 2, k);
    }
    CloseShifted(s, QUOTE, 2);
  }

  lemma CloseBehindSingleEscape(s: bytes)
    requires |s| >= 2 && s[0] == BACKSLASH && s[1] == APOSTROPHE
    ensures CloseFrom(s, APOSTROPHE, 0) == 2 + CloseFrom(s[2..], APOSTROPHE, 0)
  {
    CloseShifted(s, APOSTROPHE, 2);
  }

  lemma CloseBehindSingleByte(s: bytes)
    requires s != [] && s[0] != APOSTROPHE && (s[0] == BACKSLASH && |s| >= 2 ==> s[1] != APOSTROPHE)
    ensures CloseFrom(s, APOSTROPHE, 0) == 1 + CloseFrom(s[1..], APOSTROPHE, 0)
  {
    CloseShifted(s, APOSTROPHE, 1);
  }

  /** r is what reading a quotation with text s comes to when it ends at c: the text behind its end, or None
      when it does not end or something else than a blank follows. */
  ghost predicate ReadTo(s: bytes, c: nat, r: Option<(bytes, bytes)>)
    requires c <= |s|
  {
    if c < |s| && ClosesWell(s[c + 1..]) then r.Some? && r.value.1 == s[c + 1..] else r.None?
  }

  lemma ReadToShifted(s: bytes, n: nat, c: nat, r: Option<(bytes, bytes)>)
    requires n <= |s| && c <= |s| - n
    ensures ReadTo(s, n + c, r) <==> ReadTo(s[n..], c, r)
  {
    if c < |s| - n { assert s[n + c + 1..] == s[n..][c + 1..]; }
  }

  ghost function ModeOf(q: byte): Mode { if q == QUOTE then InQuotes else InSingleQuotes }

  lemma NeverCloses(s: bytes, q: byte, current: bytes)
    requires IsQuote(q) && (s == [] || s == [BACKSLASH])
    ensures ReadTo(s, CloseFrom(s, q, 0), Token(s, ModeOf(q), current))
  {
    assert s == [BACKSLASH] ==> s[1..] == [];
  }

  lemma ClosesAtOnce(s: bytes, q: byte, current: bytes)
    requires IsQuote(q) && s != [] && s[0] == q
    ensures ReadTo(s, CloseFrom(s, q, 0), Token(s, ModeOf(q), current))
  {}

  lemma {:induction false} DoubleQuoteEnds(s: bytes, current: bytes)
    ensures ReadTo(s, CloseFrom(s, QUOTE, 0), Token(s, InQuotes, current))
    decreases |s|
  {
    hide CloseFrom, ReadTo, Closing;
    if |s| >= 4 && s[0] == BACKSLASH && s[1] == Code('x') && IsHexDigit(s[2]) && IsHexDigit(s[3]) {
      CloseBehindEscape(s);
      CloseBehindByte(s[2..], QUOTE);
      CloseBehindByte(s[3..], QUOTE);
      var b := HexDigitToInt(s[2]) * 16 + HexDigitToInt(s[3]);
      DoubleQuoteEnds(s[4..], current + [b]);
      ReadToShifted(s, 4, CloseFrom(s[4..], QUOTE, 0), Token(s, InQuotes, current));
    } else if |s| >= 2 && s[0] == BACKSLASH {
      CloseBehindEscape(s);
      DoubleQuoteEnds(s[2..], current + [Unescape(s[1])]);
      ReadToShifted(s, 2, CloseFrom(s[2..], QUOTE, 0), Token(s, InQuotes, current));
    } else if s == [] || s == [BACKSLASH] {
      NeverCloses(s, QUOTE, current);
    } else if s[0] == QUOTE {
      ClosesAtOnce(s, QUOTE, current);
    } else {
      CloseBehindByte(s, QUOTE);
      DoubleQuoteEnds(s[1..], current + [s[0]]);
      ReadToShifted(s, 1, CloseFrom(s[1..], QUOTE, 0), Token(s, InQuotes, current));
    }
  }

  lemma {:induction false} SingleQuoteEnds(s: bytes, current: bytes)
    ensures ReadTo(s, CloseFrom(s, APOSTROPHE, 0), Token(s, InSingleQuotes, current))
    decreases |s|
  {
    hide CloseFrom, ReadTo, Closing;
    if |s| >= 2 && s[0] == BACKSLASH && s[1] == APOSTROPHE {
      CloseBehindSingleEscape(s);
      SingleQuoteEnds(s[2..], current + [APOSTROPHE]);
      ReadToShifted(s, 2, CloseFrom(s[2..], APOSTROPHE, 0), Token(s, InSingleQuotes, current));
    } else if s == [] {
      NeverCloses(s, APOSTROPHE, current);
    } else if s[0] == APOSTROPHE {
      ClosesAtOnce(s, APOSTROPHE, current);
    } else {
      CloseBehindSingleByte(s);
      SingleQuoteEnds(s[1..], current + [s[0]]);
      ReadToShifted(s, 1, CloseFrom(s[1..], APOSTROPHE, 0), Token(s, InSingleQuotes, current));
    }
  }

  // ---------- a line ----------

  lemma BalancedBehind(s: bytes)
    requires s != [] && !IsQuote(s[0])
    ensures Balanced(s) <==> Balanced(s[1..])
  {
    hide BalancedFrom;
    var k := FirstQuote(s[1..]);
    assert FirstQuote(s) == k + 1;
    assert k + 1 < |s| ==> s[k + 2..] == s[1..][k + 1..];
  }

  lemma {:induction false} BalancedSkip(s: bytes)
    ensures Balanced(SkipSpaces(s)) <==> Balanced(s)
  {
    hide Balanced;
    if s != [] && IsSpace(s[0]) {
      BalancedSkip(s[1..]);
      BalancedBehind(s);
    }
  }

  lemma QuotationBalances(text: bytes, q: byte, current: bytes)
    requires IsQuote(q)
    ensures var r := Token(text, ModeOf(q), current); BalancedFrom(text, q) <==> r.Some? && Balanced(r.value.1)
  {
    hide Token, CloseFrom, ClosesWell, Balanced;
    if q == QUOTE { DoubleQuoteEnds(text, current); } else { SingleQuoteEnds(text, current); }
  }

  /** The line balances if a token is read and what comes behind it balances. */
  lemma {:induction false} TokenBalances(s: bytes, current: bytes)
    ensures var r := Token(s, Plain, current); Balanced(s) <==> r.Some? && Balanced(r.value.1)
    decreases |s|
  {
    hide BalancedFrom;
    if s == [] {
    } else if IsQuote(s[0]) {
      QuotationBalances(s[1..], s[0], current);
    } else {
      BalancedBehind(s);
      if !EndsPlain(s[0]) { TokenBalances(s[1..], current + [s[0]]); }
    }
  }

  lemma NothingBalances()
    ensures Balanced([])
  {}

  /** sdssplitargs returns arguments exactly for the lines whose quotes balance. */
  lemma {:induction false} SplitsIffBalanced(s: bytes)
    ensures Arguments(s).Some? <==> Balanced(s)
    decreases |s|
  {
    hide Balanced, Token, SkipSpaces;
    var t := SkipSpaces(s);
    BalancedSkip(s);
    NothingBalances();
    if t != [] {
      TokenBalances(t, []);
      var r := Token(t, Plain, []);
      if r.Some? { SplitsIffBalanced(r.value.1); }
    }
  }
}

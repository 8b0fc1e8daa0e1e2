/** sdsll2str and sdsull2str of sds.c: decimal printing into a fixed buffer. */
module SdsNumber {
  import opened Sequences
  import opened Bytes

  const LLSTR_SIZE: nat := 21
  const LLONG_LIMIT: nat := 0x8000_0000_0000_0000
  const ULLONG_LIMIT: nat := 0x1_0000_0000_0000_0000

  function DigitOf(d: nat): byte
    requires d < 10
  {
    Code('0') + d
  }

  predicate IsDigit(c: byte) { Code('0') <= c <= Code('9') }

  /** The decimal digits of v, most significant first. */
  function Digits(v: nat): (r: bytes)
    ensures r != []
  {
    if v < 10 then [DigitOf(v)] else Digits(v / 10) + [DigitOf(v % 10)]
  }

  function Decimal(value: int): bytes {
    if value < 0 then [Code('-')] + Digits(-value) else Digits(value)
  }

  /** What a string of digits stands for. */
  function ReadDigits(s: bytes): nat {
    if s == [] then 0 else 10 * ReadDigits(s[..|s| - 1]) + (if IsDigit(s[|s| - 1]) then s[|s| - 1] - Code('0') else 0)
  }

  function Read(s: bytes): int {
    if s != [] && s[0] == Code('-') then 0 - ReadDigits(s[1..]) else ReadDigits(s)
  }

  /** A nonempty string of digits that starts with 0 only when it is "0". */
  predicate CanonicalDigits(s: bytes) {
    s != [] && (forall i :: 0 <= i < |s| ==> IsDigit(s[i])) && (s[0] == Code('0') ==> |s| == 1)
  }

  predicate Canonical(s: bytes) {
    if s != [] && s[0] == Code('-') then CanonicalDigits(s[1..]) && s[1] != Code('0') else CanonicalDigits(s)
  }

  lemma {:induction false} DigitsReadBack(v: nat)
    ensures ReadDigits(Digits(v)) == v && CanonicalDigits(Digits(v)) && (Digits(v)[0] == Code('0') <==> v == 0)
  {
    if v >= 10 {
      DigitsReadBack(v / 10);
      var d := Digits(v);
      assert d[..|d| - 1] == Digits(v / 10);
    } else {
      assert Digits(v)[..0] == [];
    }
  }

  lemma DigitsStep(v: nat, d: nat)
    requires v > 0 && d < 10
    ensures Digits(10 * v + d) == Digits(v) + [DigitOf(d)]
  {}

  lemma OneDigit(d: nat)
    requires d < 10
    ensures Digits(d) == [DigitOf(d)]
  {}

  lemma {:induction false} CanonicalDigitsAre(s: bytes)
    requires CanonicalDigits(s)
    ensures Digits(ReadDigits(s)) == s
  {
    hide Digits;
    var m := |s| - 1;
    var d := s[m] - Code('0');
    if m > 0 {
      CanonicalDigitsAre(s[..m]);
      DigitsReadBack(ReadDigits(s[..m]));
      assert s == s[..m] + [DigitOf(d)];
      DigitsStep(ReadDigits(s[..m]), d);
    } else {
      assert s == [DigitOf(d)] && s[..0] == [] && ReadDigits([]) == 0;
      OneDigit(d);
    }
  }

  /** The canonical decimal form reads back to its value, and every canonical form is the form of its value. */
  lemma DecimalReadsBack(value: int)
    ensures Canonical(Decimal(value)) && Read(Decimal(value)) == value
    ensures Decimal(value)[0] == Code('-') <==> value < 0
  {
    DigitsReadBack(if value < 0 then -value else value);
    if value < 0 { assert Decimal(value)[1..] == Digits(-value); }
  }

  lemma CanonicalIsDecimal(s: bytes)
    requires Canonical(s)
    ensures Decimal(Read(s)) == s
  {
    hide Digits, ReadDigits;
    if s[0] == Code('-') {
      CanonicalDigitsAre(s[1..]);
      DigitsReadBack(ReadDigits(s[1..]));
      assert s == [s[0]] + s[1..];
    } else {
      CanonicalDigitsAre(s);
    }
  }

  // ---------- the printer ----------

  function Pow10(n: nat): nat { if n == 0 then 1 else 10 * Pow10(n - 1) }

  lemma {:induction false} DigitsBound(v: nat, n: nat)
    requires n > 0 && v < Pow10(n)
    ensures |Digits(v)| <= n
  {
    if v >= 10 {
      assert n > 1;
      DigitsBound(v / 10, n - 1);
    }
  }

  lemma TenTimes(p: nat, q: nat)
    ensures 10 * (p * q) == p * (10 * q)
  {}

  lemma {:induction false} Pow10Sum(a: nat, b: nat)
    ensures Pow10(a + b) == Pow10(a) * Pow10(b)
  {
    if b == 0 {
    } else {
      Pow10Sum(a, b - 1);
      TenTimes(Pow10(a), Pow10(b - 1));
    }
  }

  lemma TwentyDigits(v: nat)
    ensures v < ULLONG_LIMIT ==> |Digits(v)| <= 20
    ensures v < LLONG_LIMIT ==> |Digits(v)| <= 19
  {
    assert Pow10(10) == 100_0000_0000;
    assert Pow10(19) == 1000_0000_0000_0000_0000 by { Pow10Sum(10, 9); assert Pow10(9) == 10_0000_0000; }
    assert Pow10(20) == 1_0000_0000_0000_0000_0000 by { Pow10Sum(10, 10); }
    if v < LLONG_LIMIT { DigitsBound(v, 19); }
    if v < ULLONG_LIMIT { DigitsBound(v, 20); }
  }

  /** The do-while loop: the digits of v0, last one first. */
  method PutReversed(buf: array<byte>, v0: nat) returns (p: nat)
    requires |Digits(v0)| < buf.Length
    modifies buf
    ensures p == |Digits(v0)| && Rev(buf[..p]) == Digits(v0)
  {
    var v, again := v0, true;
    p := 0;
    while again
      invariant again ==> p + |Digits(v)| == |Digits(v0)| && Digits(v) + Rev(buf[..p]) == Digits(v0)
      invariant !again ==> p == |Digits(v0)| && Rev(buf[..p]) == Digits(v0)
      decreases again, v
    {
      ghost var done := buf[..p];
      buf[p] := DigitOf(v % 10);
      p := p + 1;
      assert buf[..p] == done + [DigitOf(v % 10)];
      assert Rev(buf[..p]) == [DigitOf(v % 10)] + Rev(done);
      v := v / 10;
      again := v != 0;
    }
  }

  /** The loop that reverses the first l bytes. */
  method ReverseInPlace(buf: array<byte>, l: nat)
    requires 0 < l <= buf.Length
    modifies buf
    ensures buf[..l] == Rev(old(buf[..l])) && buf[l..] == old(buf[l..])
  {
    var s, p := 0, l - 1;
    while s < p
      invariant 0 <= s <= p + 1 <= l && s + p == l - 1
      invariant forall i :: 0 <= i < s ==> buf[i] == old(buf[l - 1 - i]) && buf[l - 1 - i] == old(buf[i])
      invariant forall i :: s <= i <= p ==> buf[i] == old(buf[i])
      invariant buf[l..] == old(buf[l..])
    {
      var aux := buf[s];
      buf[s] := buf[p];
      buf[p] := aux;
      s := s + 1;
      p := p - 1;
    }
    forall i | 0 <= i < l ensures buf[i] == old(buf[l - 1 - i]) {
      if i > p { assert buf[l - 1 - (l - 1 - i)] == old(buf[l - 1 - i]); }
    }
  }

  /** sdsll2str. */
  method Ll2Str(buf: array<byte>, value: int) returns (l: nat)
    requires 0 - LLONG_LIMIT < value < LLONG_LIMIT && LLSTR_SIZE <= buf.Length
    modifies buf
    ensures l < LLSTR_SIZE && buf[..l] == Decimal(value) && buf[l] == NUL
  {
    var v := if value < 0 then -value else value;
    TwentyDigits(v);
    l := PutReversed(buf, v);
    ghost var digits := buf[..l];
    if value < 0 {
      buf[l] := Code('-');
      l := l + 1;
      assert buf[..l] == digits + [Code('-')];
      assert Rev(buf[..l]) == [Code('-')] + Rev(digits);
    }
    buf[l] := NUL;
    assert Rev(buf[..l]) == Decimal(value);
    ReverseInPlace(buf, l);
    assert buf[l..][0] == NUL;
  }

  /** sdsull2str. */
  method Ull2Str(buf: array<byte>, v: nat) returns (l: nat)
    requires v < ULLONG_LIMIT && LLSTR_SIZE <= buf.Length
    modifies buf
    ensures l < LLSTR_SIZE && buf[..l] == Decimal(v) && buf[l] == NUL
  {
    TwentyDigits(v);
    l := PutReversed(buf, v);
    buf[l] := NUL;
    assert Rev(buf[..l]) == Decimal(v);
    ReverseInPlace(buf, l);
    assert buf[l..][0] == NUL;
  }
}

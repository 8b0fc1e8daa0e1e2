/** sdssplitlen and sdsjoinsds of sds.c. */
module SdsSplit {
  import opened Bytes
  import opened Sequences

  ghost predicate SepAt(s: bytes, sep: bytes, x: int) {
    0 <= x && x + |sep| <= |s| && s[x..x + |sep|] == sep
  }

  /** k is where sep first occurs in s, or -1 when it does not. */
  ghost predicate FirstSep(s: bytes, sep: bytes, k: int) {
    && (k == -1 || SepAt(s, sep, k))
    && forall x :: 0 <= x && (k == -1 || x < k) ==> !SepAt(s, sep, x)
  }

  /** The search that FirstSep describes, from j on. */
  ghost function Search(s: bytes, sep: bytes, j: nat): (k: int)
    decreases |s| - j
  {
    if j + |sep| > |s| then -1
    else if SepAt(s, sep, j) then j
    else Search(s, sep, j + 1)
  }

  lemma {:induction false} SearchFinds(s: bytes, sep: bytes, j: nat)
    requires forall x :: 0 <= x < j ==> !SepAt(s, sep, x)
    ensures FirstSep(s, sep, Search(s, sep, j))
    decreases |s| - j
  {
    if j + |sep| <= |s| && !SepAt(s, sep, j) { SearchFinds(s, sep, j + 1); }
  }

  lemma FirstSepUnique(s: bytes, sep: bytes, k: int)
    requires FirstSep(s, sep, k)
    ensures Search(s, sep, 0) == k
  {
    SearchFinds(s, sep, 0);
  }

  /** s cut at every separator, leftmost first. */
  ghost function Pieces(s: bytes, sep: bytes): seq<bytes>
    requires sep != []
    decreases |s|
  {
    SearchFinds(s, sep, 0);
    var k := Search(s, sep, 0);
    if k < 0 then [s] else [s[..k]] + Pieces(s[k + |sep|..], sep)
  }

  /** What sdssplitlen returns: an empty input has no tokens. */
  ghost function Split(s: bytes, sep: bytes): seq<bytes>
    requires sep != []
  {
    if s == [] then [] else Pieces(s, sep)
  }

  ghost function Join(tokens: seq<bytes>, sep: bytes): bytes {
    if tokens == [] then []
    else if |tokens| == 1 then tokens[0]
    else tokens[0] + sep + Join(tokens[1..], sep)
  }

  method PutToken(tokens: array<bytes>, k: nat, token: bytes)
    requires k < tokens.Length
    modifies tokens
    ensures tokens[..k + 1] == old(tokens[..k]) + [token]
  {
    tokens[k] := token;
  }

  /** Doubles a full token array, so that one token can be stored in the loop and one behind it. */
  method MakeSlots(tokens: array<bytes>, elements: nat, slots0: nat) returns (r: array<bytes>, slots: nat)
    requires tokens.Length == slots0 > elements
    ensures r.Length == slots >= elements + 2 && (r == tokens || fresh(r))
    ensures r[..elements] == tokens[..elements]
  {
    r, slots := tokens, slots0;
    if slots < elements + 2 {
      slots := slots * 2;
      r := new bytes[slots];
      forall i | 0 <= i < tokens.Length { r[i] := tokens[i]; }
    }
  }

  /** The test of the loop: a one-byte separator is compared without memcmp. */
  method IsSep(s: bytes, sep: bytes, j: nat) returns (found: bool)
    requires sep != [] && j + |sep| <= |s|
    ensures found <==> SepAt(s, sep, j)
  {
    found := (|sep| == 1 && s[j] == sep[0]) || s[j..j + |sep|] == sep;
    if |sep| == 1 { assert s[j..j + 1] == [s[j]] && sep == [sep[0]]; }
  }

  lemma SepAtShifted(s: bytes, sep: bytes, start: nat, x: nat)
    requires start <= |s|
    ensures SepAt(s[start..], sep, x) <==> SepAt(s, sep, x + start)
  {
    if x + start + |sep| <= |s| { assert s[start..][x..x + |sep|] == s[x + start..x + start + |sep|]; }
  }

  lemma FirstSepShifted(s: bytes, sep: bytes, start: nat, j: nat)
    requires start <= j && SepAt(s, sep, j)
    requires forall x :: start <= x < j ==> !SepAt(s, sep, x)
    ensures FirstSep(s[start..], sep, j - start)
  {
    SepAtShifted(s, sep, start, j - start);
    forall x: nat | x < j - start ensures !SepAt(s[start..], sep, x) {
      SepAtShifted(s, sep, start, x);
    }
  }

  lemma FirstPiece(r: bytes, sep: bytes, k: nat)
    requires sep != [] && Search(r, sep, 0) == k
    ensures k + |sep| <= |r| && Pieces(r, sep) == [r[..k]] + Pieces(r[k + |sep|..], sep)
  {
    SearchFinds(r, sep, 0);
  }

  lemma SliceOfSlice(s: bytes, start: nat, j: nat, k: nat)
    requires start <= j <= k <= |s|
    ensures s[start..][..j - start] == s[start..j] && s[start..][k - start..] == s[k..]
  {}

  /** What sdssplitlen keeps true: done are the tokens of s[..start], and none ends between start and j. */
  ghost predicate Splitting(done: seq<bytes>, s: bytes, sep: bytes, start: nat, j: nat)
    requires sep != []
  {
    && start <= j && start <= |s| && done + Pieces(s[start..], sep) == Pieces(s, sep)
    && forall x :: start <= x < j ==> !SepAt(s, sep, x)
  }

  lemma NothingSplit(s: bytes, sep: bytes)
    requires sep != []
    ensures Splitting([], s, sep, 0, 0)
  {
    assert s[0..] == s && [] + Pieces(s, sep) == Pieces(s, sep);
  }

  /** A separator at j after none from start on: s[start..j] is the next token. */
  lemma CutAt(done: seq<bytes>, s: bytes, sep: bytes, start: nat, j: nat)
    requires sep != [] && j + |sep| <= |s| && Splitting(done, s, sep, start, j) && SepAt(s, sep, j)
    ensures Splitting(done + [s[start..j]], s, sep, j + |sep|, j + |sep|)
  {
    hide Pieces, Search, SepAt;
    FirstSepShifted(s, sep, start, j);
    FirstSepUnique(s[start..], sep, j - start);
    FirstPiece(s[start..], sep, j - start);
    SliceOfSlice(s, start, j, j + |sep|);
    Associative(done, [s[start..j]], Pieces(s[j + |sep|..], sep));
  }

  lemma SkipOne(done: seq<bytes>, s: bytes, sep: bytes, start: nat, j: nat)
    requires sep != [] && Splitting(done, s, sep, start, j) && !SepAt(s, sep, j)
    ensures Splitting(done, s, sep, start, j + 1)
  {
    hide SepAt, Pieces;
  }

  /** No room for a further separator: the rest is the last token. */
  lemma CutNowhere(done: seq<bytes>, s: bytes, sep: bytes, start: nat, j: nat)
    requires sep != [] && j + |sep| > |s| && Splitting(done, s, sep, start, j)
    ensures start <= |s| && done + [s[start..]] == Pieces(s, sep)
  {
    var r := s[start..];
    forall x: nat ensures !SepAt(r, sep, x) {
      SepAtShifted(s, sep, start, x);
    }
    FirstSepUnique(r, sep, -1);
  }

  /** sdssplitlen on success: NULL, here no array, for an empty separator. */
  method SplitLen(s: bytes, sep: bytes) returns (tokens: array?<bytes>, count: nat)
    ensures tokens == null <==> sep == []
    ensures tokens != null ==> count <= tokens.Length && tokens[..count] == Split(s, sep) && fresh(tokens)
  {
    var elements, slots, start := 0, 5, 0;
    var seplen := |sep|;
    if seplen < 1 { return null, 0; }
    tokens := new bytes[slots];
    if |s| == 0 { return tokens, 0; }
    hide Splitting, SepAt, Pieces;
    var j := 0;
    NothingSplit(s, sep);
    while j < |s| - (seplen - 1)
      invariant fresh(tokens) && tokens.Length == slots && elements < slots
      invariant start <= j && Splitting(tokens[..elements], s, sep, start, j)
      decreases |s| - j
    {
      tokens, slots := MakeSlots(tokens, elements, slots);
      var found := IsSep(s, sep, j);
      if found {
        CutAt(tokens[..elements], s, sep, start, j);
        PutToken(tokens, elements, s[start..j]);
        elements := elements + 1;
        start := j + seplen;
        j := j + seplen - 1;
      } else {
        SkipOne(tokens[..elements], s, sep, start, j);
      }
      j := j + 1;
    }
    CutNowhere(tokens[..elements], s, sep, start, j);
    PutToken(tokens, elements, s[start..]);
    elements := elements + 1;
    count := elements;
  }

  /** sdsjoinsds. */
  method JoinSds(argv: seq<bytes>, sep: bytes) returns (join: bytes)
    ensures join == Join(argv, sep)
  {
    join := [];
    for j := 0 to |argv|
      invariant join + Join(argv[j..], sep) == Join(argv, sep)
    {
      assert argv[j..][0] == argv[j] && argv[j..][1..] == argv[j + 1..];
      assert join + Join(argv[j..], sep) ==
             join + argv[j] + (if j != |argv| - 1 then sep else []) + Join(argv[j + 1..], sep);
      join := join + argv[j];
      if j != |argv| - 1 { join := join + sep; }
    }
  }

  // ---------- the laws ----------

  /** Joining what splitting gives returns the input. */
  lemma {:induction false} JoinOfPieces(s: bytes, sep: bytes)
    requires sep != []
    ensures Pieces(s, sep) != [] && Join(Pieces(s, sep), sep) == s
    decreases |s|
  {
    SearchFinds(s, sep, 0);
    var k := Search(s, sep, 0);
    if k >= 0 {
      var r := s[k + |sep|..];
      JoinOfPieces(r, sep);
      assert Pieces(s, sep)[1..] == Pieces(r, sep);
      assert s == s[..k] + sep + r;
    }
  }

  lemma JoinOfSplit(s: bytes, sep: bytes)
    requires sep != []
    ensures Join(Split(s, sep), sep) == s
  {
    JoinOfPieces(s, sep);
  }

  /** No token holds the separator. */
  lemma {:induction false} PiecesHoldNoSep(s: bytes, sep: bytes)
    requires sep != []
    ensures forall i, x :: 0 <= i < |Pieces(s, sep)| ==> !SepAt(Pieces(s, sep)[i], sep, x)
    decreases |s|
  {
    SearchFinds(s, sep, 0);
    var k := Search(s, sep, 0);
    if k >= 0 {
      PiecesHoldNoSep(s[k + |sep|..], sep);
      forall x ensures !SepAt(s[..k], sep, x) {
        if SepAt(s[..k], sep, x) {
          assert s[..k][x..x + |sep|] == s[x..x + |sep|];
          assert SepAt(s, sep, x);
        }
      }
    }
  }

  /** Tokens whose join can be taken apart again: in each but the last, the separator written behind the
      token is the first one; in the last there is none. */
  ghost predicate Clean(tokens: seq<bytes>, sep: bytes)
    requires tokens != []
  {
    && FirstSep(tokens[|tokens| - 1], sep, -1)
    && forall i :: 0 <= i < |tokens| - 1 ==> FirstSep(tokens[i] + sep, sep, |tokens[i]|)
  }

  lemma FirstSepOfPrefix(t: bytes, sep: bytes, rest: bytes)
    ensures FirstSep(t + sep, sep, |t|) <==> FirstSep(t + sep + rest, sep, |t|)
  {
    var a, b := t + sep, t + sep + rest;
    forall x | 0 <= x <= |t| ensures SepAt(a, sep, x) <==> SepAt(b, sep, x) {
      assert a[x..x + |sep|] == b[x..x + |sep|];
    }
  }

  lemma CleanOne(t: bytes, sep: bytes)
    ensures Clean([t], sep) <==> FirstSep(t, sep, -1)
  {}

  lemma CleanSplit(tokens: seq<bytes>, sep: bytes)
    requires |tokens| > 1
    ensures Clean(tokens, sep) <==> FirstSep(tokens[0] + sep, sep, |tokens[0]|) && Clean(tokens[1..], sep)
  {
    if Clean(tokens[1..], sep) && FirstSep(tokens[0] + sep, sep, |tokens[0]|) {
      forall i | 0 <= i < |tokens| - 1 ensures FirstSep(tokens[i] + sep, sep, |tokens[i]|) {
        if i > 0 { assert tokens[1..][i - 1] == tokens[i]; }
      }
    }
  }

  lemma PiecesOfOne(t: bytes, sep: bytes)
    requires sep != []
    ensures Pieces(t, sep) == [t] <==> FirstSep(t, sep, -1)
  {
    SearchFinds(t, sep, 0);
    if FirstSep(t, sep, -1) {
      FirstSepUnique(t, sep, -1);
    } else {
      JoinOfPieces(t[Search(t, sep, 0) + |sep|..], sep);
    }
  }

  /** The first piece of a join is the first token exactly when the separator behind it is the first. */
  lemma PiecesOfMore(t: bytes, sep: bytes, rest: bytes)
    requires sep != []
    ensures var p := Pieces(t + sep + rest, sep);
            && p != [] && (p[0] == t <==> FirstSep(t + sep, sep, |t|))
            && (p[0] == t ==> p[1..] == Pieces(rest, sep))
  {
    var s := t + sep + rest;
    FirstSepOfPrefix(t, sep, rest);
    SearchFinds(s, sep, 0);
    if FirstSep(s, sep, |t|) {
      FirstSepUnique(s, sep, |t|);
      assert s[..|t|] == t && s[|t| + |sep|..] == rest;
    }
  }

  lemma SameHeadAndTail<T>(p: seq<T>, q: seq<T>)
    requires p != [] && q != []
    ensures p == q <==> p[0] == q[0] && p[1..] == q[1..]
  {
    assert p == [p[0]] + p[1..] && q == [q[0]] + q[1..];
  }

  lemma {:induction false} PiecesOfJoin(tokens: seq<bytes>, sep: bytes)
    requires tokens != [] && sep != []
    ensures Pieces(Join(tokens, sep), sep) == tokens <==> Clean(tokens, sep)
  {
    hide Pieces, FirstSep, Clean;
    var t := tokens[0];
    if |tokens| == 1 {
      assert tokens == [t];
      PiecesOfOne(t, sep);
      CleanOne(t, sep);
    } else {
      PiecesOfJoin(tokens[1..], sep);
      PiecesOfMore(t, sep, Join(tokens[1..], sep));
      CleanSplit(tokens, sep);
      SameHeadAndTail(Pieces(Join(tokens, sep), sep), tokens);
    }
  }

  /** Splitting undoes joining exactly for clean tokens whose join is not empty, and for no tokens. */
  lemma SplitOfJoin(tokens: seq<bytes>, sep: bytes)
    requires sep != []
    ensures Split(Join(tokens, sep), sep) == tokens <==> tokens == [] || (Join(tokens, sep) != [] && Clean(tokens, sep))
  {
    if tokens != [] { PiecesOfJoin(tokens, sep); }
  }

  lemma OneByteSep(t: bytes, sep: bytes)
    requires |sep| == 1
    ensures FirstSep(t, sep, -1) <==> sep[0] !in t
    ensures FirstSep(t + sep, sep, |t|) <==> sep[0] !in t
  {
    forall x | 0 <= x < |t|
      ensures (SepAt(t, sep, x) <==> t[x] == sep[0]) && (SepAt(t + sep, sep, x) <==> t[x] == sep[0])
    {
      assert t[x..x + 1] == [t[x]] && (t + sep)[x..x + 1] == [t[x]];
    }
    assert (t + sep)[|t|..|t| + 1] == sep;
    if sep[0] in t {
      var x :| 0 <= x < |t| && t[x] == sep[0];
      assert SepAt(t, sep, x) && SepAt(t + sep, sep, x);
    }
  }

  /** For a separator of one byte, clean means that no token holds it. */
  lemma CleanForOneByte(tokens: seq<bytes>, sep: bytes)
    requires tokens != [] && |sep| == 1
    ensures Clean(tokens, sep) <==> forall i :: 0 <= i < |tokens| ==> sep[0] !in tokens[i]
  {
    hide FirstSep;
    forall i | 0 <= i < |tokens|
      ensures (FirstSep(tokens[i], sep, -1) <==> sep[0] !in tokens[i])
           && (FirstSep(tokens[i] + sep, sep, |tokens[i]|) <==> sep[0] !in tokens[i])
    {
      OneByteSep(tokens[i], sep);
    }
  }

  /** With a longer separator, a join of separator-free tokens can split elsewhere. */
  lemma LongSeparatorShifts()
    ensures var a: byte, b: byte := Code('a'), Code('b');
            && (forall x :: !SepAt([a], [a, a], x))
            && Split(Join([[a], [b]], [a, a]), [a, a]) == [[], [a, b]]
  {
    var a: byte, b: byte := Code('a'), Code('b');
    var sep := [a, a];
    var s := [a] + sep + [b];
    assert Join([[a], [b]], sep) == s by { assert [[a], [b]][1..] == [[b]]; }
    assert s[0..2] == sep;
    FirstSepUnique(s, sep, 0);
    FirstPiece(s, sep, 0);
    var r := s[2..];
    assert r == [a, b];
    assert r[0..2] == [a, b];
    FirstSepUnique(r, sep, -1);
  }
}

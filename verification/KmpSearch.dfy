/** The substring search of utstring.h, from left to right. */
module KmpSearch {
  import opened Arithmetic
  import opened Kmp

  /** The inner loop of _utstring_BuildTable. */
  method FallBackL<T(==)>(needle: seq<T>, table: array<int>, i: nat, j0: int) returns (j: int, ghost fallbacks: nat)
    requires i < |needle| && table.Length == |needle| + 1 && -1 <= j0 < i && Candidate(needle, i, j0)
    requires forall x :: 0 <= x < i ==> StrongEntry(needle, x, table[x])
    ensures -1 <= j < i && Candidate(needle, i, j) && (j >= 0 ==> needle[i] == needle[j])
    ensures fallbacks <= j0 - j
  {
    hide StrongEntry, Candidate;
    j, fallbacks := j0, 0;
    while j > -1 && needle[i] != needle[j]
      invariant -1 <= j < i && Candidate(needle, i, j)
      invariant fallbacks <= j0 - j
      decreases j
    {
      FallBack(needle, i, j, table[j]);
      j := table[j];
      fallbacks := fallbacks + 1;
    }
  }

  /** Stores the entry for i, whose longest border is j. */
  method PutEntry<T(==)>(needle: seq<T>, table: array<int>, i: nat, j: nat)
    requires j < i < |needle| && table.Length == |needle| + 1 && Longest(needle, i, j)
    requires StrongEntry(needle, j, table[j])
    modifies table
    ensures StrongEntry(needle, i, table[i])
    ensures forall x :: 0 <= x < table.Length && x != i ==> table[x] == old(table[x])
  {
    hide StrongEntry, Longest;
    Entry(needle, i, j, if needle[i] == needle[j] then table[j] else j);
    if needle[i] == needle[j] {
      table[i] := table[j];
    } else {
      table[i] := j;
    }
  }

  /** _utstring_BuildTable. */
  method BuildTable<T(==)>(needle: seq<T>, table: array<int>) returns (ghost fallbacks: nat)
    requires needle != [] && table.Length == |needle| + 1
    modifies table
    ensures IsTable(needle, table[..])
    ensures fallbacks <= |needle|
  {
    hide StrongEntry, Longest, Candidate;
    NoEntry(needle);
    var i, j := 0, -1;
    table[i] := j;
    fallbacks := 0;
    while i < |needle|
      invariant 0 <= i <= |needle| && Longest(needle, i, j)
      invariant forall x :: 0 <= x <= i && x < |needle| ==> StrongEntry(needle, x, table[x])
      invariant i == |needle| ==> table[i] == j
      invariant fallbacks <= i - j - 1
      invariant -1 <= j < i || i == 0
    {
      StartCandidate(needle, i, j);
      ghost var n;
      j, n := FallBackL(needle, table, i, j);
      fallbacks := fallbacks + n;
      Extend(needle, i, j);
      i := i + 1;
      j := j + 1;
      if i < |needle| {
        PutEntry(needle, table, i, j);
      } else {
        table[i] := j;
      }
    }
    assert table[..][|needle|] == j;
    TableDone(needle, table[..]);
  }

  // ---------- what an int counts ----------

  const INT_MAX: nat := 0x7fff_ffff

  /** The C conversion of a size_t to int. */
  function AsInt(n: nat): int {
    var low := n % UINT_LIMIT;
    if low > INT_MAX then low - UINT_LIMIT else low
  }

  /** The conversion keeps the low 32 bits, in two's complement. */
  lemma AsIntIs(n: nat)
    ensures 0 - INT_MAX - 1 <= AsInt(n) <= INT_MAX
    ensures exists k: nat :: n == AsInt(n) + k * UINT_LIMIT
  {
    var k := if AsInt(n) < 0 then n / UINT_LIMIT + 1 else n / UINT_LIMIT;
    assert n == AsInt(n) + k * UINT_LIMIT;
  }

  /** How many of n elements a search takes into account, because it converts n to int. */
  function Seen(n: nat): (w: nat)
    ensures w <= n
    ensures w == n <==> n <= INT_MAX
    ensures w == if AsInt(n) < 0 then 0 else AsInt(n)
  {
    if AsInt(n) < 0 then 0 else AsInt(n)
  }

  // ---------- the search ----------

  /** r is the first position in h, from start on, of p, or -1 when there is none. */
  ghost predicate IsFirst<T>(p: seq<T>, h: seq<T>, start: int, r: int) {
    && (r >= 0 ==> r >= start && OccursAt(p, h, r))
    && (r < 0 ==> r == -1)
    && forall x :: start <= x && (r < 0 || x < r) ==> !OccursAt(p, h, x)
  }

  /** r is the first position in h, but not behind last, of p, or -1 when there is none. */
  ghost predicate IsFirstUpTo<T>(p: seq<T>, h: seq<T>, last: int, r: int) {
    && (r >= 0 ==> r <= last && OccursAt(p, h, r))
    && (r < 0 ==> r == -1)
    && forall x :: 0 <= x <= last && (r < 0 || x < r) ==> !OccursAt(p, h, x)
  }

  /** What the search answers, for lengths of any size: it looks for as much of the needle as an int
      counts in as much of the haystack, at the places where the whole needle would fit. When it counts
      nothing of the needle, it looks at one element and answers 0 or 1. */
  ghost predicate Answer<T>(p: seq<T>, h: seq<T>, r: int)
    requires p != []
  {
    if Seen(|h|) == 0 || |h| < |p| then r == -1
    else if Seen(|p|) == 0 then r == if p[0] == h[0] then 0 else 1
    else IsFirstUpTo(p[..Seen(|p|)], h[..Seen(|h|)], |h| - |p|, r)
  }

  /** The state of a search that counts nothing of the needle: it ends after one step. */
  ghost predicate Blind<T>(p: seq<T>, h: seq<T>, i: int, j: int)
    requires p != []
  {
    || i == j == 0
    || (h != [] && p[0] != h[0] && j == i + 1 <= 1 && i >= -1)
    || (h != [] && p[0] == h[0] && i == j == 1)
  }

  /** The state of a search when p[i] is to be compared with h[j]. */
  ghost predicate ScanningL<T>(p: seq<T>, h: seq<T>, i: int, j: int)
    requires p != []
  {
    if Seen(|p|) == 0 then Blind(p, h, i, j) else Scanning(p[..Seen(|p|)], h[..Seen(|h|)], i, j)
  }

  lemma StartL<T>(p: seq<T>, h: seq<T>)
    requires p != []
    ensures ScanningL(p, h, 0, 0)
  {}

  /** The table of the needle serves for every prefix of it. */
  lemma PrefixEntry<T>(p: seq<T>, c: int, i: int, t: int)
    requires 0 <= i < c <= |p| && StrongEntry(p, i, t)
    ensures StrongEntry(p[..c], i, t)
  {
    var q := p[..c];
    forall k ensures Border(q, i, k) <==> Border(p, i, k) {
      if 0 <= k < i { assert q[..k] == p[..k] && q[i - k..i] == p[i - k..i]; }
    }
  }

  lemma SlideL<T>(p: seq<T>, h: seq<T>, i: int, j: int, t: int)
    requires 0 <= i < |p| && 0 <= j < Seen(|h|) && ScanningL(p, h, i, j) && (Seen(|p|) == 0 ==> j == 0)
    requires i < Seen(|p|) || i == 0
    requires p[i] != h[j] && StrongEntry(p, i, t)
    ensures -1 <= t < i && ScanningL(p, h, t, j)
  {
    if Seen(|p|) > 0 {
      PrefixEntry(p, Seen(|p|), i, t);
      Slide(p[..Seen(|p|)], h[..Seen(|h|)], i, j, t);
    }
  }

  lemma AdvanceL<T>(p: seq<T>, h: seq<T>, i: int, j: int)
    requires -1 <= i < |p| && p != [] && 0 <= j < Seen(|h|)
    requires ScanningL(p, h, i, j) && (Seen(|p|) == 0 ==> j == 0)
    requires i < Seen(|p|) || i <= 0
    requires i >= 0 ==> p[i] == h[j]
    ensures ScanningL(p, h, i + 1, j + 1)
  {
    if Seen(|p|) > 0 { Advance(p[..Seen(|p|)], h[..Seen(|h|)], i, j); }
  }

  /** What a stopped search has found. */
  lemma AnswerFromScan<T>(p: seq<T>, h: seq<T>, i: int, j: int)
    requires p != [] && 0 <= i && 0 <= j <= Seen(|h|) && ScanningL(p, h, i, j)
    ensures j > 0 && i >= Seen(|p|) && j - i <= |h| - |p| ==> Answer(p, h, j - i)
    ensures i < Seen(|p|) || j == 0 ==> j >= Seen(|h|) || |h| - j + i < |p| ==> Answer(p, h, -1)
  {}

  /** The inner loop of _utstring_find. */
  method Slides<T(==)>(haystack: seq<T>, needle: seq<T>, table: array<int>, i0: nat, j: nat)
    returns (i: int, ghost fallbacks: nat)
    requires IsTable(needle, table[..]) && i0 < |needle| && i0 <= j < Seen(|haystack|)
    requires ScanningL(needle, haystack, i0, j) && (i0 < Seen(|needle|) || i0 == j == 0)
    ensures -1 <= i <= i0 && ScanningL(needle, haystack, i, j)
    ensures i >= 0 ==> needle[i] == haystack[j]
    ensures fallbacks <= i0 - i
  {
    hide StrongEntry, LastEntry, ScanningL, AsInt;
    i, fallbacks := i0, 0;
    while i > -1 && needle[i] != haystack[j]
      invariant -1 <= i <= i0 && ScanningL(needle, haystack, i, j)
      invariant fallbacks <= i0 - i
      decreases i
    {
      SlideL(needle, haystack, i, j, table[i]);
      i := table[i];
      fallbacks := fallbacks + 1;
    }
  }

  lemma TableShape<T>(p: seq<T>, table: seq<int>)
    requires IsTable(p, table)
    ensures p != [] && |table| == |p| + 1
  {}

  /** _utstring_find. */
  method FindIn<T(==)>(haystack: seq<T>, needle: seq<T>, table: array<int>)
    returns (position: int, ghost fallbacks: nat)
    requires IsTable(needle, table[..])
    ensures Answer(needle, haystack, position)
    ensures fallbacks <= |haystack|
  {
    hide IsTable, ScanningL, Answer, AsInt;
    var i, j := 0, 0;
    position, fallbacks := -1, 0;
    TableShape(needle, table[..]);
    StartL(needle, haystack);
    while j < AsInt(|haystack|) && |haystack| - j + i >= |needle|
      invariant 0 <= i < |needle| && i <= j <= Seen(|haystack|) && ScanningL(needle, haystack, i, j)
      invariant i < Seen(|needle|) || i == j == 0
      invariant fallbacks <= j - i
    {
      ghost var k;
      i, k := Slides(haystack, needle, table, i, j);
      fallbacks := fallbacks + k;
      AdvanceL(needle, haystack, i, j);
      i := i + 1;
      j := j + 1;
      if i >= AsInt(|needle|) {
        position := j - i;
        break;
      }
    }
    AnswerFromScan(needle, haystack, i, j);
  }

  lemma AnswerTooShort<T>(p: seq<T>, body: seq<T>, start: nat)
    requires p != [] && |body| - start < |p|
    ensures start <= |body| ==> Answer(p, body[start..], -1)
    ensures IsFirst(p, body, start, -1)
  {}

  lemma AnswerShape<T>(p: seq<T>, h: seq<T>, r: int)
    requires p != [] && Answer(p, h, r)
    ensures r >= -1
  {}

  lemma ShiftFirst<T>(p: seq<T>, h: seq<T>, start: nat, r: int)
    requires start <= |h| && IsFirst(p, h[start..], 0, r)
    ensures IsFirst(p, h, start, if r >= 0 then r + start else r)
  {
    forall x | start <= x ensures OccursAt(p, h, x) <==> OccursAt(p, h[start..], x - start) {
      if x + |p| <= |h| { assert h[x..x + |p|] == h[start..][x - start..x - start + |p|]; }
    }
  }

  /** The answer for a haystack that an int can count. */
  lemma CountedAnswer<T>(p: seq<T>, h: seq<T>, r: int)
    requires p != [] && |h| <= INT_MAX && Answer(p, h, r)
    ensures IsFirst(p, h, 0, r)
  {
    assert h[..|h|] == h && (|p| <= |h| ==> p[..|p|] == p);
  }

  /** utstring_find; body is the used part of the string. */
  method Find<T(==)>(body: seq<T>, startPosition: int, needle: seq<T>) returns (position: int)
    requires startPosition >= -|body|
    ensures needle == [] ==> position == -1
    ensures needle != [] ==>
              var start := if startPosition < 0 then |body| + startPosition else startPosition;
              && (start <= |body| ==>
                    Answer(needle, body[start..], if position < 0 then position else position - start))
              && (|body| - start <= INT_MAX ==> IsFirst(needle, body, start, position))
  {
    hide Answer, IsFirst;
    var start := if startPosition < 0 then |body| + startPosition else startPosition;
    var haystackLen := |body| - start;
    position := -1;
    if needle != [] && haystackLen < |needle| { AnswerTooShort(needle, body, start); }
    if haystackLen >= |needle| && |needle| > 0 {
      var table := new int[|needle| + 1];
      ghost var n := BuildTable(needle, table);
      position, n := FindIn(body[start..], needle, table);
      AnswerShape(needle, body[start..], position);
      if haystackLen <= INT_MAX {
        CountedAnswer(needle, body[start..], position);
        ShiftFirst(needle, body, start, position);
      }
      if position >= 0 { position := position + start; }
    }
  }

  // ---------- when the answer is right ----------

  /** There is one answer. */
  lemma AnswerUnique<T>(p: seq<T>, h: seq<T>, r1: int, r2: int)
    requires p != [] && Answer(p, h, r1) && Answer(p, h, r2)
    ensures r1 == r2
  {}

  /** k times 'a', then a 'b'. */
  function Late(k: nat): string { seq(k, _ => 'a') + "b" }

  function As(k: nat): string { seq(k, _ => 'a') }

  lemma NotInAs(m: nat, n: nat, x: int)
    requires m > 0
    ensures !OccursAt(Late(m - 1), As(n), x)
  {
    if OccursAt(Late(m - 1), As(n), x) { OccurrenceHas(Late(m - 1), As(n), x, m - 1); }
  }

  /** As much as is counted of the needle does not occur in as much as is counted of the haystack. */
  lemma NotInPrefix(m: nat, c: nat, w: nat, last: int)
    requires 0 < c <= m && (c == m || c > w)
    ensures IsFirstUpTo(Late(m - 1)[..c], As(w), last, -1)
  {
    var p, h := Late(m - 1)[..c], As(w);
    forall x ensures !OccursAt(p, h, x) {
      if c == m {
        assert p == Late(m - 1);
        NotInAs(m, w, x);
      }
    }
  }

  lemma LateAtEnd(m: nat, n: nat)
    requires 0 < m <= n
    ensures OccursAt(Late(m - 1), Late(n - 1), n - m)
  {
    var p, h := Late(m - 1), Late(n - 1);
    forall k | 0 <= k < m ensures h[n - m..n][k] == p[k] {}
    assert h[n - m..n] == p;
  }

  /** For every pair of lengths beyond the count, a needle and a haystack with a wrong answer. */
  lemma Misled(m: nat, n: nat) returns (p: string, h: string, r: int)
    requires 0 < m <= n && n > INT_MAX
    ensures |p| == m && |h| == n && Answer(p, h, r) && !IsFirst(p, h, 0, r)
  {
    var c, w := Seen(m), Seen(n);
    p := Late(m - 1);
    if w > 0 && c == 0 {
      h, r := As(n), 0;
      NotInAs(m, n, r);
    } else if w > 0 && c < m && c <= w {
      h, r := As(n), 0;
      assert p[..c] == As(c) == h[..w][..c];
      NotInAs(m, n, r);
    } else {
      h, r := Late(n - 1), -1;
      LateAtEnd(m, n);
      assert h[..w] == As(w);
      if w > 0 { NotInPrefix(m, c, w, n - m); }
    }
  }

  lemma ShortAnswer<T>(p: seq<T>, h: seq<T>, r: int)
    requires p != [] && |h| < |p| && Answer(p, h, r)
    ensures IsFirst(p, h, 0, r)
  {}

  /** The search is right for all needles of m and all haystacks of n elements exactly when the needle is
      too long to fit, or an int can count the haystack. */
  lemma FindExact(m: nat, n: nat)
    requires m > 0
    ensures (forall p: string, h: string, r: int :: |p| == m && |h| == n && Answer(p, h, r) ==>
              IsFirst(p, h, 0, r)) <==>
            n < m || n <= INT_MAX
  {
    hide Answer, IsFirst;
    if n < m || n <= INT_MAX {
      forall p: string, h: string, r: int | |p| == m && |h| == n && Answer(p, h, r) ensures IsFirst(p, h, 0, r) {
        if n <= INT_MAX { CountedAnswer(p, h, r); } else { ShortAnswer(p, h, r); }
      }
    } else {
      var p, h, r := Misled(m, n);
    }
  }

  /** So it is right for all needles that are looked for in n elements exactly when an int can count n. */
  lemma FindExactForAll(n: nat)
    ensures (forall p: string, h: string, r: int :: p != [] && |h| == n && Answer(p, h, r) ==> IsFirst(p, h, 0, r)) <==>
            n <= INT_MAX
  {
    hide Answer, IsFirst;
    if n <= INT_MAX {
      forall p: string, h: string, r: int | p != [] && |h| == n && Answer(p, h, r) ensures IsFirst(p, h, 0, r) {
        CountedAnswer(p, h, r);
      }
    } else {
      var p, h, r := Misled(1, n);
    }
  }
}

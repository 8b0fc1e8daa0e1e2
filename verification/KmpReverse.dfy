/** The substring search of utstring.h, from right to left: the mirror image of the other. */
module KmpReverse {
  import opened Sequences
  import opened Kmp
  import opened KmpSearch

  /** A right-to-left table read backwards, its values counted from the right end. */
  ghost function Reflect(table: seq<int>): (r: seq<int>)
    ensures |r| == |table| && forall t :: 0 <= t < |r| ==> r[t] == |table| - 2 - table[|table| - 1 - t]
  {
    seq(|table|, t requires 0 <= t < |table| => |table| - 2 - table[|table| - 1 - t])
  }

  /** r is the last position in h of p, or -1 when there is none. */
  ghost predicate IsLast<T>(p: seq<T>, h: seq<T>, r: int) {
    && (r >= 0 ==> OccursAt(p, h, r))
    && (r < 0 ==> r == -1)
    && forall x :: r < x ==> !OccursAt(p, h, x)
  }

  lemma ReflectedEntries<T>(p: seq<T>, table: seq<int>)
    requires p != [] && |table| == |p| + 1 && Longest(p, |p|, |p| - 1 - table[0])
    requires forall x :: 0 < x <= |p| ==> StrongEntry(p, |p| - x, |p| - 1 - table[x])
    ensures IsTable(p, Reflect(table))
  {
    hide StrongEntry, Longest;
    var rt := Reflect(table);
    forall t | 0 <= t < |p| ensures StrongEntry(p, t, rt[t]) {
      assert rt[t] == |p| - 1 - table[|p| - t];
    }
    TableDone(p, rt);
  }

  /** The inner loop of _utstring_BuildTableR. */
  method FallBackR<T(==)>(needle: seq<T>, table: array<int>, i: nat, j0: nat)
    returns (j: nat, ghost fallbacks: nat)
    requires i < |needle| && i < j0 <= |needle| && table.Length == |needle| + 1
    requires Candidate(Rev(needle), |needle| - 1 - i, |needle| - 1 - j0)
    requires forall x :: i < x <= |needle| ==> StrongEntry(Rev(needle), |needle| - x, |needle| - 1 - table[x])
    ensures i < j <= |needle| && Candidate(Rev(needle), |needle| - 1 - i, |needle| - 1 - j)
    ensures j < |needle| ==> Rev(needle)[|needle| - 1 - i] == Rev(needle)[|needle| - 1 - j]
    ensures fallbacks <= j - j0
  {
    hide StrongEntry, Longest, Candidate, Rev;
    ghost var m, p := |needle|, Rev(needle);
    j, fallbacks := j0, 0;
    while j < |needle| && needle[i] != needle[j]
      invariant i < j <= m && Candidate(p, m - 1 - i, m - 1 - j)
      invariant fallbacks <= j - j0
      decreases m - j
    {
      RevAt(needle, i);
      RevAt(needle, j);
      FallBack(p, m - 1 - i, m - 1 - j, m - 1 - table[j + 1]);
      j := table[j + 1];
      fallbacks := fallbacks + 1;
    }
    RevAt(needle, i);
    if j < m { RevAt(needle, j); }
  }

  /** Stores the entry for i, whose longest border ends at j. */
  method PutEntryR<T(==)>(needle: seq<T>, table: array<int>, i: nat, j: nat)
    requires i < j < |needle| && table.Length == |needle| + 1
    requires Longest(Rev(needle), |needle| - 1 - i, |needle| - 1 - j)
    requires StrongEntry(Rev(needle), |needle| - 1 - j, |needle| - 1 - table[j + 1])
    modifies table
    ensures StrongEntry(Rev(needle), |needle| - 1 - i, |needle| - 1 - table[i + 1])
    ensures forall x :: 0 <= x < table.Length && x != i + 1 ==> table[x] == old(table[x])
  {
    hide StrongEntry, Longest, Rev;
    RevAt(needle, i);
    RevAt(needle, j);
    var t := if needle[i] == needle[j] then table[j + 1] else j;
    Entry(Rev(needle), |needle| - 1 - i, |needle| - 1 - j, |needle| - 1 - t);
    table[i + 1] := t;
  }

  /** _utstring_BuildTableR: the reflected table of the reversed needle. */
  method BuildTableR<T(==)>(needle: seq<T>, table: array<int>) returns (ghost fallbacks: nat)
    requires needle != [] && table.Length == |needle| + 1
    modifies table
    ensures IsTable(Rev(needle), Reflect(table[..]))
    ensures fallbacks <= |needle|
  {
    hide StrongEntry, Longest, Candidate, Rev, Reflect, IsTable;
    ghost var m, p := |needle|, Rev(needle);
    NoEntry(p);
    var i := |needle| - 1;
    var j := i + 1;
    table[i + 1] := j;
    fallbacks := 0;
    ghost var a, b := 0, -1;
    while i >= 0
      invariant -1 <= i < m && 0 <= j <= m && a == m - 1 - i && b == m - 1 - j && Longest(p, a, b)
      invariant forall x :: i + 1 <= x <= m && 0 < x ==> StrongEntry(p, m - x, m - 1 - table[x])
      invariant i == -1 ==> table[0] == j
      invariant fallbacks <= j - i - 1 && i < j
    {
      StartCandidate(p, a, b);
      ghost var n;
      j, n := FallBackR(needle, table, i, j);
      fallbacks := fallbacks + n;
      b := m - 1 - j;
      Extend(p, a, b);
      i := i - 1;
      j := j - 1;
      a, b := a + 1, b + 1;
      if i >= 0 {
        PutEntryR(needle, table, i, j);
      } else {
        table[i + 1] := j;
      }
    }
    ReflectedEntries(p, table[..]);
  }

  lemma OccursReversed<T>(p: seq<T>, h: seq<T>, x: int)
    ensures OccursAt(p, h, x) <==> OccursAt(Rev(p), Rev(h), |h| - |p| - x)
  {
    if 0 <= x && x + |p| <= |h| {
      var y := |h| - |p| - x;
      assert Rev(h)[y..y + |p|] == Rev(h[x..x + |p|]);
      if Rev(h[x..x + |p|]) == Rev(p) {
        forall k | 0 <= k < |p| ensures h[x..x + |p|][k] == p[k] {
          assert Rev(p)[|p| - 1 - k] == Rev(h[x..x + |p|])[|p| - 1 - k];
        }
        assert h[x..x + |p|] == p;
      }
    }
  }

  /** What a stopped reflected scan has found. */
  lemma LastFromScan<T>(needle: seq<T>, haystack: seq<T>, i: int, j: int)
    requires needle != [] && -1 <= i < |needle| && -1 <= j < |haystack|
    requires Scanning(Rev(needle), Rev(haystack), |needle| - 1 - i, |haystack| - 1 - j)
    requires i == -1 || j < i || j == -1
    ensures IsLast(needle, haystack, if i == -1 then j + 1 else -1)
  {
    var p, h := Rev(needle), Rev(haystack);
    forall x ensures OccursAt(needle, haystack, x) <==> OccursAt(p, h, |haystack| - |needle| - x) {
      OccursReversed(needle, haystack, x);
    }
  }

  // ---------- needles that an int cannot count ----------

  /** The greatest border of p[..a] that p[a] does not extend, among those up to t, or -1. */
  ghost function StrongUpTo<T>(p: seq<T>, a: nat, t: int): (e: int)
    requires -1 <= t < a < |p|
    ensures -1 <= e <= t
    decreases t + 1
  {
    if t < 0 then -1 else if Border(p, a, t) && p[t] != p[a] then t else StrongUpTo(p, a, t - 1)
  }

  lemma {:induction false} EntryIsStrong<T>(p: seq<T>, a: nat, t: int, e: int)
    requires e <= t < a < |p| && StrongEntry(p, a, e)
    ensures e == StrongUpTo(p, a, t)
    decreases t + 1
  {
    if e < t { EntryIsStrong(p, a, t - 1, e); }
  }

  /** The last of the first n places of the needle that differs from the haystack at x, or -1. */
  ghost function Mismatch<T>(p: seq<T>, h: seq<T>, x: nat, n: nat): (i: int)
    requires x + |p| <= |h| && n <= |p|
    ensures -1 <= i < n && (i >= 0 ==> p[i] != h[x + i])
    ensures forall k :: i < k < n ==> p[k] == h[x + k]
  {
    if n == 0 || p[n - 1] != h[x + n - 1] then n - 1 else Mismatch(p, h, x, n - 1)
  }

  /** How far to the left a mismatch at place i moves the needle. */
  ghost function Shift<T>(p: seq<T>, i: nat): (d: int)
    requires i < |p|
    ensures d > 0
  {
    |p| - 1 - i - StrongUpTo(Rev(p), |p| - 1 - i, |p| - 2 - i)
  }

  /** The place that is reported when the needle stands at x: that place, if the counted part is there,
      otherwise what is reported after the shift that the last mismatch causes. */
  ghost function Report<T>(p: seq<T>, h: seq<T>, x: int): (r: int)
    requires x + |p| <= |h|
    ensures -1 <= r && (r <= x || x < 0)
    decreases if x < 0 then 0 else x + 1
  {
    if x < 0 then -1
    else
      var i := Mismatch(p, h, x, Seen(|p|));
      if i < 0 then x else Report(p, h, x - Shift(p, i))
  }

  /** A reported place holds the counted part of the needle. */
  lemma {:induction false} ReportHolds<T>(p: seq<T>, h: seq<T>, x: int)
    requires x + |p| <= |h|
    ensures var r := Report(p, h, x); r >= 0 ==> OccursAt(p[..Seen(|p|)], h, r)
    decreases if x < 0 then 0 else x + 1
  {
    hide Shift;
    if x >= 0 {
      var c := Seen(|p|);
      var i := Mismatch(p, h, x, c);
      if i >= 0 { ReportHolds(p, h, x - Shift(p, i)); } else { assert h[x..x + c] == p[..c]; }
    }
  }

  /** The state of a search with such a needle: what is counted behind p[i] stands behind h[j], and what
      is left to do decides the answer. */
  ghost predicate Partial<T>(p: seq<T>, h: seq<T>, i: int, j: int)
    requires |p| <= |h|
  {
    && -1 <= i <= |p| && -1 <= j < |h| && j - i <= |h| - |p|
    && (forall k :: i < k < Seen(|p|) ==> p[k] == h[k + j - i])
    && Report(p, h, j - i) == Report(p, h, |h| - |p|)
  }

  /** A border repeats its elements further on. */
  lemma BorderAt<T>(p: seq<T>, i: int, j: int, y: int)
    requires Border(p, i, j) && 0 <= y < j
    ensures p[y] == p[i - j + y]
  {
    assert p[..j][y] == p[i - j..i][y];
  }

  lemma {:induction false} MismatchIs<T>(p: seq<T>, h: seq<T>, x: nat, n: nat, i: int)
    requires x + |p| <= |h| && -1 <= i < |p| && i <= n <= |p| && (i >= 0 ==> i < n)
    requires i >= 0 ==> p[i] != h[x + i]
    requires forall k :: i < k < n ==> p[k] == h[k + x]
    ensures Mismatch(p, h, x, n) == i
  {
    if i < n - 1 { MismatchIs(p, h, x, n - 1, i); }
  }

  /** One step of Report, from what the search has compared at x: i is the last mismatch, or -1. */
  lemma ReportStep<T>(p: seq<T>, h: seq<T>, x: nat, i: int)
    requires x + |p| <= |h| && -1 <= i && (i >= 0 ==> i < Seen(|p|)) && (i >= 0 ==> p[i] != h[x + i])
    requires forall k :: i < k < Seen(|p|) ==> p[k] == h[k + x]
    ensures i < 0 ==> Report(p, h, x) == x
    ensures i >= 0 ==> Report(p, h, x) == Report(p, h, x - Shift(p, i))
  {
    hide Shift, Mismatch, AsInt;
    MismatchIs(p, h, x, Seen(|p|), i);
  }

  lemma ShiftIsEntry<T>(p: seq<T>, i: nat, t: int)
    requires i < |p| && StrongEntry(Rev(p), |p| - 1 - i, |p| - 1 - t)
    ensures i < t <= |p| && t == i + Shift(p, i)
  {
    hide Rev, StrongUpTo;
    EntryIsStrong(Rev(p), |p| - 1 - i, |p| - 2 - i, |p| - 1 - t);
  }

  lemma ReportPastStart<T>(p: seq<T>, h: seq<T>, x: int)
    requires x + |p| <= |h|
    ensures x < 0 ==> Report(p, h, x) == -1
  {}

  /** A mismatch leads to the place of the table entry. */
  lemma ReportShifts<T>(p: seq<T>, h: seq<T>, i: int, j: int, t: int)
    requires 0 <= i < Seen(|p|) && 0 <= j && |p| <= |h| && Partial(p, h, i, j) && p[i] != h[j]
    requires StrongEntry(Rev(p), |p| - 1 - i, |p| - 1 - t)
    ensures i < t <= |p| && Report(p, h, j - t) == Report(p, h, j - i)
  {
    hide Report, Rev, StrongUpTo, Shift, AsInt, Border, StrongEntry;
    ShiftIsEntry(p, i, t);
    ReportPastStart(p, h, j - i);
    ReportPastStart(p, h, j - t);
    if j >= i { ReportStep(p, h, j - i, i); }
  }

  /** The table entry keeps what has been compared. */
  lemma SlidePartial<T>(p: seq<T>, h: seq<T>, i: int, j: int, t: int)
    requires 0 <= i < Seen(|p|) && 0 <= j && |p| <= |h| && Partial(p, h, i, j) && p[i] != h[j]
    requires StrongEntry(Rev(p), |p| - 1 - i, |p| - 1 - t)
    ensures i < t <= |p| && Partial(p, h, t, j)
  {
    hide Rev, Border, Report;
    ReportShifts(p, h, i, j, t);
    var d := t - i;
    forall k | t < k < Seen(|p|) ensures p[k] == h[k + j - t] {
      BorderAt(Rev(p), |p| - 1 - i, |p| - 1 - t, |p| - 1 - k);
      RevAt(p, k);
      RevAt(p, k - d);
      assert p[k - d] == h[k - d + j - i];
    }
  }

  lemma AdvancePartial<T>(p: seq<T>, h: seq<T>, i: int, j: int)
    requires 0 <= i <= |p| <= |h| && 0 <= j && Partial(p, h, i, j)
    requires i < Seen(|p|) ==> p[i] == h[j]
    ensures Partial(p, h, i - 1, j - 1)
  {
    hide Report;
  }

  // ---------- the search ----------

  /** What the search answers: the last occurrence, when an int can count the needle, and otherwise the
      place that is reported from the last place where the needle fits. */
  ghost predicate AnswerR<T>(p: seq<T>, h: seq<T>, r: int) {
    if |p| <= INT_MAX then IsLast(p, h, r) else r == Report(p, h, |h| - |p|)
  }

  /** There is one answer. */
  lemma AnswerRUnique<T>(p: seq<T>, h: seq<T>, r1: int, r2: int)
    requires AnswerR(p, h, r1) && AnswerR(p, h, r2)
    ensures r1 == r2
  {}

  /** The state of a search when p[i] is to be compared with h[j]. */
  ghost predicate ScanningR<T>(p: seq<T>, h: seq<T>, i: int, j: int)
    requires |p| <= |h|
  {
    if |p| <= INT_MAX then Scanning(Rev(p), Rev(h), |p| - 1 - i, |h| - 1 - j) else Partial(p, h, i, j)
  }

  lemma StartR<T>(p: seq<T>, h: seq<T>)
    requires |p| <= |h|
    ensures ScanningR(p, h, |p| - 1, |h| - 1)
  {}

  lemma ReflectAt<T>(p: seq<T>, table: seq<int>, i: nat)
    requires IsTable(Rev(p), Reflect(table)) && i < |p|
    ensures |table| == |p| + 1 && StrongEntry(Rev(p), |p| - 1 - i, |p| - 1 - table[i + 1])
  {
    hide StrongEntry, LastEntry;
    assert Reflect(table)[|p| - 1 - i] == |p| - 1 - table[i + 1];
  }

  lemma SlideBack<T>(p: seq<T>, h: seq<T>, table: seq<int>, i: int, j: int)
    requires IsTable(Rev(p), Reflect(table)) && 0 <= i < Seen(|p|) && 0 <= j < |h|
    requires |p| <= |h| && ScanningR(p, h, i, j) && p[i] != h[j]
    ensures |table| == |p| + 1 && i < table[i + 1] <= |p| && ScanningR(p, h, table[i + 1], j)
  {
    hide StrongEntry, LastEntry, Scanning, Partial, Rev, Reflect;
    var t := table[i + 1];
    ReflectAt(p, table, i);
    if |p| <= INT_MAX {
      RevAt(p, i);
      RevAt(h, j);
      Slide(Rev(p), Rev(h), |p| - 1 - i, |h| - 1 - j, |p| - 1 - t);
    } else {
      SlidePartial(p, h, i, j, t);
    }
  }

  lemma AdvanceBack<T>(p: seq<T>, h: seq<T>, i: int, j: int)
    requires 0 <= i <= |p| <= |h| && 0 <= j < |h| && ScanningR(p, h, i, j)
    requires i < Seen(|p|) ==> p[i] == h[j]
    ensures ScanningR(p, h, i - 1, j - 1)
  {
    hide Scanning, Partial, Rev;
    if |p| <= INT_MAX {
      RevAt(h, j);
      if i < |p| { RevAt(p, i); }
      Advance(Rev(p), Rev(h), |p| - 1 - i, |h| - 1 - j);
    } else {
      AdvancePartial(p, h, i, j);
    }
  }

  lemma AnswerFromScanR<T>(p: seq<T>, h: seq<T>, i: int, j: int)
    requires p != [] && |p| <= |h| && -1 <= i < |p| && -1 <= j < |h| && ScanningR(p, h, i, j)
    requires i == -1 || j < i || j == -1
    ensures AnswerR(p, h, if i == -1 then j + 1 else -1)
  {
    hide Scanning, Rev, Mismatch, Shift, AsInt, IsLast;
    if |p| <= INT_MAX {
      LastFromScan(p, h, i, j);
    } else if i == -1 {
      ReportStep(p, h, j + 1, -1);
    }
  }

  /** The inner loop of _utstring_findR. */
  method SlideR<T(==)>(haystack: seq<T>, needle: seq<T>, table: array<int>, i0: nat, j: nat)
    returns (i: nat, ghost fallbacks: nat)
    requires IsTable(Rev(needle), Reflect(table[..])) && i0 < |needle| && j < |haystack|
    requires |needle| <= |haystack| && ScanningR(needle, haystack, i0, j)
    ensures i0 <= i <= |needle| && ScanningR(needle, haystack, i, j)
    ensures i < Seen(|needle|) ==> needle[i] == haystack[j]
    ensures fallbacks <= i - i0
  {
    hide IsTable, Rev, Reflect, ScanningR, AsInt;
    i, fallbacks := i0, 0;
    assert Seen(|needle|) <= |needle|;
    while i < AsInt(|needle|) && needle[i] != haystack[j]
      invariant i0 <= i <= |needle| && ScanningR(needle, haystack, i, j)
      invariant fallbacks <= i - i0
      decreases |needle| - i
    {
      SlideBack(needle, haystack, table[..], i, j);
      i := table[i + 1];
      fallbacks := fallbacks + 1;
    }
  }

  lemma TooShortR<T>(p: seq<T>, h: seq<T>)
    requires |h| < |p|
    ensures AnswerR(p, h, -1)
  {}

  /** _utstring_findR. */
  method FindInR<T(==)>(haystack: seq<T>, needle: seq<T>, table: array<int>)
    returns (position: int, ghost fallbacks: nat)
    requires needle != [] && IsTable(Rev(needle), Reflect(table[..]))
    ensures AnswerR(needle, haystack, position)
    ensures fallbacks <= |haystack|
  {
    hide IsTable, Rev, Reflect, ScanningR, AnswerR, AsInt;
    var j, i := |haystack| - 1, |needle| - 1;
    position, fallbacks := -1, 0;
    if |haystack| < |needle| { TooShortR(needle, haystack); } else { StartR(needle, haystack); }
    while j >= 0 && j >= i
      invariant -1 <= j < |haystack| && 0 <= i < |needle| && position == -1
      invariant |haystack| < |needle| ==> j < i
      invariant |haystack| >= |needle| ==> ScanningR(needle, haystack, i, j)
      invariant fallbacks <= |haystack| - |needle| - (j - i)
    {
      ghost var k;
      i, k := SlideR(haystack, needle, table, i, j);
      fallbacks := fallbacks + k;
      AdvanceBack(needle, haystack, i, j);
      i := i - 1;
      j := j - 1;
      if i < 0 {
        position := j + 1;
        break;
      }
    }
    if |haystack| >= |needle| { AnswerFromScanR(needle, haystack, i, j); }
  }

  /** utstring_findR, in what lies within indices 0..start. */
  method FindR<T(==)>(body: seq<T>, startPosition: int, needle: seq<T>) returns (position: int)
    requires startPosition < |body|
    ensures needle == [] ==> position == -1
    ensures needle != [] ==>
              var start := if startPosition < 0 then |body| + startPosition else startPosition;
              AnswerR(needle, if start < 0 then [] else body[..start + 1], position)
  {
    hide AnswerR;
    var start := if startPosition < 0 then |body| + startPosition else startPosition;
    var haystackLen := start + 1;
    position := -1;
    if haystackLen >= |needle| && |needle| > 0 {
      var table := new int[|needle| + 1];
      ghost var n := BuildTableR(needle, table);
      position, n := FindInR(body[..haystackLen], needle, table);
    } else if needle != [] {
      TooShortR(needle, if start < 0 then [] else body[..start + 1]);
    }
  }

  // ---------- when the answer is right ----------

  /** For every pair of lengths beyond the count, a needle and a haystack with a wrong answer. */
  lemma MisledR(m: nat, n: nat) returns (p: string, h: string)
    requires INT_MAX < m <= n
    ensures |p| == m && |h| == n && AnswerR(p, h, n - m) && !IsLast(p, h, n - m)
  {
    p, h := Late(m - 1), As(n);
    assert Mismatch(p, h, n - m, Seen(m)) == -1;
    NotInAs(m, n, n - m);
  }

  lemma NoneFits<T>(p: seq<T>, h: seq<T>)
    requires |h| < |p|
    ensures forall r :: IsLast(p, h, r) <==> r == -1
  {}

  /** The search is right for all needles of m and all haystacks of n elements exactly when the needle is
      too long to fit, or an int can count it. */
  lemma FindRExact(m: nat, n: nat)
    requires m > 0
    ensures (forall p: string, h: string, r: int :: |p| == m && |h| == n && AnswerR(p, h, r) ==>
              IsLast(p, h, r)) <==>
            n < m || m <= INT_MAX
  {
    hide IsLast;
    if n < m || m <= INT_MAX {
      forall p: string, h: string, r: int | |p| == m && |h| == n && AnswerR(p, h, r) ensures IsLast(p, h, r) {
        if n < m { NoneFits(p, h); }
      }
    } else {
      var p, h := MisledR(m, n);
    }
  }

  /** So it is right for all needles of m elements, in whatever haystack, exactly when an int can count m. */
  lemma FindRExactForAll(m: nat)
    requires m > 0
    ensures (forall p: string, h: string, r: int :: |p| == m && AnswerR(p, h, r) ==> IsLast(p, h, r)) <==> m <= INT_MAX
  {
    hide IsLast;
    if m > INT_MAX { var p, h := MisledR(m, m); }
  }
}

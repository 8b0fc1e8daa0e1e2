/** Border theory and the failure table of utstring.h's Knuth-Morris-Pratt search. */
module Kmp {

  /** The first j elements of p end the first i. */
  ghost predicate Border<T>(p: seq<T>, i: int, j: int) {
    0 <= j < i <= |p| && p[..j] == p[i - j..i]
  }

  /** t is the greatest proper border of p[..i] that the next element cannot extend, or -1. */
  ghost predicate StrongEntry<T>(p: seq<T>, i: int, t: int)
    requires 0 <= i < |p|
  {
    && -1 <= t < i
    && (t >= 0 ==> Border(p, i, t) && p[t] != p[i])
    && forall k :: t < k < i && Border(p, i, k) ==> p[k] == p[i]
  }

  /** t is the longest proper border of the whole of p. */
  ghost predicate LastEntry<T>(p: seq<T>, t: int)
  {
    Border(p, |p|, t) && forall k :: t < k < |p| ==> !Border(p, |p|, k)
  }

  /** The table that _utstring_BuildTable is to fill in. */
  ghost predicate IsTable<T>(p: seq<T>, table: seq<int>) {
    && p != [] && |table| == |p| + 1
    && (forall i :: 0 <= i < |p| ==> StrongEntry(p, i, table[i]))
    && LastEntry(p, table[|p|])
  }

  /** Occurrence of p in h at position x. */
  ghost predicate OccursAt<T>(p: seq<T>, h: seq<T>, x: int) {
    0 <= x && x + |p| <= |h| && h[x..x + |p|] == p
  }

  lemma BorderOfBorder<T>(p: seq<T>, i: int, j: int, k: int)
    requires Border(p, i, j)
    ensures k < j ==> (Border(p, i, k) <==> Border(p, j, k))
  {
    if 0 <= k < j {
      assert p[i - k..i] == p[i - j..i][j - k..];
      assert p[j - k..j] == p[..j][j - k..];
    }
  }

  lemma BorderStep<T>(p: seq<T>, i: int, j: int)
    requires 0 <= j < i < |p|
    ensures Border(p, i + 1, j + 1) <==> Border(p, i, j) && p[j] == p[i]
  {
    assert p[..j + 1] == p[..j] + [p[j]];
    assert p[i - j..i + 1] == p[i - j..i] + [p[i]];
  }

  // ---------- building the table ----------

  /** j is the longest proper border of p[..i]; -1 stands for "none yet" at i == 0. */
  ghost predicate Longest<T>(p: seq<T>, i: int, j: int) {
    if i == 0 then j == -1 else Border(p, i, j) && forall k :: j < k < i ==> !Border(p, i, k)
  }

  /** While falling back: no border of p[..i] longer than j can be extended by p[i]. */
  ghost predicate Candidate<T>(p: seq<T>, i: int, j: int)
    requires 0 <= i < |p|
  {
    && -1 <= j < i && (j >= 0 ==> Border(p, i, j))
    && forall k :: j < k < i && Border(p, i, k) ==> p[k] != p[i]
  }

  lemma NoEntry<T>(p: seq<T>)
    requires p != []
    ensures Longest(p, 0, -1) && StrongEntry(p, 0, -1)
  {}

  lemma StartCandidate<T>(p: seq<T>, i: int, j: int)
    requires 0 <= i < |p| && Longest(p, i, j)
    ensures Candidate(p, i, j) && -1 <= j < i
  {}

  lemma FallBack<T>(p: seq<T>, i: int, j: int, t: int)
    requires 0 <= j < i < |p| && Candidate(p, i, j) && p[i] != p[j] && StrongEntry(p, j, t)
    ensures Candidate(p, i, t) && -1 <= t < j
  {
    forall k | t <= k < j ensures Border(p, i, k) <==> Border(p, j, k) {
      BorderOfBorder(p, i, j, k);
    }
  }

  lemma Extend<T>(p: seq<T>, i: int, j: int)
    requires 0 <= i < |p| && Candidate(p, i, j) && (j >= 0 ==> p[i] == p[j])
    ensures Longest(p, i + 1, j + 1)
  {
    if j >= 0 { BorderStep(p, i, j); }
    forall k {:trigger Border(p, i + 1, k)} | j + 1 < k < i + 1 ensures !Border(p, i + 1, k) {
      BorderStep(p, i, k - 1);
    }
  }

  /** The entry for i, from its longest border j and, when j extends, the entry of j. */
  lemma Entry<T>(p: seq<T>, i: int, j: int, t: int)
    requires 0 < i < |p| && Longest(p, i, j)
    requires if p[i] == p[j] then StrongEntry(p, j, t) else t == j
    ensures StrongEntry(p, i, t) && -1 <= t < i
  {
    forall k | 0 <= k < j ensures Border(p, i, k) <==> Border(p, j, k) {
      BorderOfBorder(p, i, j, k);
    }
  }

  lemma TableDone<T>(p: seq<T>, table: seq<int>)
    requires p != [] && |table| == |p| + 1 && Longest(p, |p|, table[|p|])
    requires forall i :: 0 <= i < |p| ==> StrongEntry(p, i, table[i])
    ensures IsTable(p, table)
  {}

  /** The table is determined by the needle. */
  lemma TableUnique<T>(p: seq<T>, t1: seq<int>, t2: seq<int>)
    requires IsTable(p, t1) && IsTable(p, t2)
    ensures t1 == t2
  {
    forall i | 0 <= i < |p| ensures t1[i] == t2[i] {
      assert StrongEntry(p, i, t1[i]) && StrongEntry(p, i, t2[i]);
    }
  }

  // ---------- searching ----------

  /** The state of a left-to-right search: p[..i] ends at h[..j], and nothing occurs before j - i. */
  ghost predicate Scanning<T>(p: seq<T>, h: seq<T>, i: int, j: int) {
    && 0 <= j <= |h| && -1 <= i <= |p| && i <= j
    && (i >= 0 ==> p[..i] == h[j - i..j])
    && forall x :: 0 <= x < j - i ==> !OccursAt(p, h, x)
  }

  lemma OccurrenceHas<T>(p: seq<T>, h: seq<T>, x: int, k: int)
    requires OccursAt(p, h, x) && 0 <= k < |p|
    ensures h[x + k] == p[k]
  {
    assert h[x..x + |p|][k] == h[x + k];
  }

  /** An occurrence that starts inside the matched part makes a border of it. */
  lemma OccurrenceBorder<T>(p: seq<T>, h: seq<T>, i: int, j: int, x: int)
    requires 0 <= i < |p| && i <= j < |h| && p[..i] == h[j - i..j]
    requires j - i < x <= j && OccursAt(p, h, x)
    ensures Border(p, i, j - x) && p[j - x] == h[j]
  {
    var k := j - x;
    OccurrenceHas(p, h, x, k);
    assert p[i - k..i] == h[j - i..j][i - k..] == h[x..j] == h[x..x + |p|][..k];
  }

  /** A mismatch of p[i] and h[j]: sliding to the table entry skips no occurrence. */
  lemma Slide<T>(p: seq<T>, h: seq<T>, i: int, j: int, t: int)
    requires 0 <= i < |p| && j < |h| && Scanning(p, h, i, j) && p[i] != h[j] && StrongEntry(p, i, t)
    ensures Scanning(p, h, t, j) && -1 <= t < i
  {
    if t >= 0 {
      assert h[j - t..j] == h[j - i..j][i - t..] == p[..i][i - t..] == p[i - t..i];
    }
    forall x | j - i < x < j - t && OccursAt(p, h, x) ensures Border(p, i, j - x) && p[j - x] == h[j] {
      OccurrenceBorder(p, h, i, j, x);
    }
    if OccursAt(p, h, j - i) { OccurrenceHas(p, h, j - i, i); }
  }

  lemma Advance<T>(p: seq<T>, h: seq<T>, i: int, j: int)
    requires i < |p| && j < |h| && Scanning(p, h, i, j) && (i >= 0 ==> p[i] == h[j])
    ensures Scanning(p, h, i + 1, j + 1)
  {
    if i >= 0 {
      assert p[..i + 1] == p[..i] + [p[i]];
      assert h[j - i..j + 1] == h[j - i..j] + [h[j]];
    }
  }
}

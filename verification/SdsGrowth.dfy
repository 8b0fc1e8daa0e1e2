/** What the preallocation of sdsMakeRoomFor is for: appending piece by piece moves each byte a bounded number
    of times. */
module SdsGrowth {
  import opened Arithmetic
  import opened Bytes
  import opened Sds
  import opened Sequences

  /** The bytes moved so far, against the length and the allocation. */
  ghost predicate Paid(moved: nat, len: nat, alloc: nat) {
    && (moved == 0 || alloc <= 2 * len)
    && (moved > 0 && len < MAX_PREALLOC ==> moved <= alloc)
    && MAX_PREALLOC * moved <= alloc * (MAX_PREALLOC + alloc)
  }

  lemma NothingMoved(len: nat, alloc: nat)
    ensures Paid(0, len, alloc)
  {}

  lemma LargerFactor(x: nat, y: nat, m: nat)
    requires x <= y
    ensures x * m <= y * m
  {
    assert y * m == x * m + (y - x) * m;
  }

  lemma LargerArea(x: nat, y: nat, m: nat)
    requires x <= y
    ensures m * x <= m * y && x * (m + x) <= y * (m + y)
  {
    LargerFactor(x, y, m);
    LargerFactor(x, y, m + x);
    LargerFactor(m + x, m + y, y);
  }

  /** What an allocation of twice the need, or of m more, leaves for the bytes it moves. */
  lemma GrownArea(n: nat, m: nat)
    ensures n * (m + n) + m * n <= 2 * n * (m + 2 * n)
    ensures n * (m + n) + m * n <= (n + m) * (m + (n + m))
  {
    assert 2 * n * (m + 2 * n) == n * (m + n) + m * n + 3 * (n * n);
    assert (n + m) * (m + (n + m)) == n * (m + n) + m * n + n * m + 2 * (m * m);
  }

  /** A string that fits leaves the account alone. */
  lemma LongerIsPaid(moved: nat, len: nat, alloc: nat, longer: nat)
    requires Paid(moved, len, alloc) && len <= longer
    ensures Paid(moved, longer, alloc)
  {}

  /** A growth to hold need bytes is paid for by what it allocates. */
  lemma GrowthIsPaid(moved: nat, len: nat, alloc: nat, need: nat)
    requires Paid(moved, len, alloc) && len <= alloc < need
    ensures Paid(moved + len + 1, need, need + Min(need, MAX_PREALLOC))
  {
    LargerArea(len + 1, need, MAX_PREALLOC);
    LargerArea(alloc, need, MAX_PREALLOC);
    GrownArea(need, MAX_PREALLOC);
    assert MAX_PREALLOC * (moved + len + 1) == MAX_PREALLOC * moved + MAX_PREALLOC * (len + 1);
  }

  /** Any number of bytes, moved and paid for, in terms of the length alone. */
  lemma PaidByLength(moved: nat, len: nat, alloc: nat)
    requires Paid(moved, len, alloc)
    ensures len < MAX_PREALLOC ==> moved <= 2 * len
    ensures MAX_PREALLOC * moved <= 2 * len * (MAX_PREALLOC + 2 * len)
  {
    if moved > 0 { LargerArea(alloc, 2 * len, MAX_PREALLOC); }
  }

  lemma ConcatFrom(pieces: seq<bytes>, i: nat)
    requires i < |pieces|
    ensures Concat(pieces[i..]) == pieces[i] + Concat(pieces[i + 1..])
  {
    assert pieces[i..][1..] == pieces[i + 1..];
  }

  lemma ConcatNothing(s: bytes, pieces: seq<bytes>)
    ensures s + Concat(pieces[|pieces|..]) == s
  {}

  /** One more sdscatlen, and what it moves. */
  method AppendNext(s: String, t: bytes, ghost moved0: nat) returns (ghost moved: nat)
    requires s.Valid() && s.Len() + |t| + MAX_PREALLOC < SIZE_LIMIT && Paid(moved0, s.Len(), s.Alloc())
    modifies s, s.buf
    ensures s.Valid() && s.Contents() == old(s.Contents()) + t && Paid(moved, s.Len(), s.Alloc())
    ensures s.buf == old(s.buf) || fresh(s.buf)
  {
    hide Paid;
    ghost var len, alloc := s.Len(), s.Alloc();
    ghost var copied := s.CatLen(t);
    assert s.Len() == |s.Contents()| == len + |t|;
    if copied > 0 { GrowthIsPaid(moved0, len, alloc, s.Len()); } else { LongerIsPaid(moved0, len, alloc, s.Len()); }
    moved := moved0 + copied;
  }

  /** Appends the pieces one by one. Below a megabyte all the moving comes to at most twice the final length,
      however small the pieces are; beyond, where room grows by a megabyte at a time, the bound is quadratic
      with that divisor. */
  method AppendAll(s: String, pieces: seq<bytes>) returns (ghost moved: nat)
    requires s.Valid() && s.Len() + |Concat(pieces)| + MAX_PREALLOC < SIZE_LIMIT
    modifies s, s.buf
    ensures s.Valid() && s.Contents() == old(s.Contents()) + Concat(pieces)
    ensures s.Len() < MAX_PREALLOC ==> moved <= 2 * s.Len()
    ensures MAX_PREALLOC * moved <= 2 * s.Len() * (MAX_PREALLOC + 2 * s.Len())
  {
    hide Paid, Concat;
    moved := 0;
    NothingMoved(s.Len(), s.Alloc());
    assert pieces[0..] == pieces;
    ghost var all := s.Contents() + Concat(pieces);
    for i := 0 to |pieces|
      invariant s.Valid() && s.Contents() + Concat(pieces[i..]) == all
      invariant s.buf == old(s.buf) || fresh(s.buf)
      invariant Paid(moved, s.Len(), s.Alloc())
    {
      ConcatFrom(pieces, i);
      Associative(s.Contents(), pieces[i], Concat(pieces[i + 1..]));
      moved := AppendNext(s, pieces[i], moved);
    }
    ConcatNothing(s.Contents(), pieces);
    PaidByLength(moved, s.Len(), s.Alloc());
  }
}

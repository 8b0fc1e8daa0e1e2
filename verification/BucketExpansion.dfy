/** HASH_EXPAND_BUCKETS: moving every chain into twice as many buckets. */
module BucketExpansion {
  import opened Arithmetic
  import opened Elements
  import opened BucketChains

  /** The multiplier of a bucket that has been filled one by one with count elements. */
  function Mult(count: nat, ideal: nat): nat {
    if count == 0 then 0
    else
      var m := Mult(count - 1, ideal);
      if count > ideal && count > m * ideal then m + 1 else m
  }

  ghost predicate MultsOk<T>(buckets: array<Bucket<T>>, ideal: nat)
    reads buckets
  {
    forall c :: 0 <= c < buckets.Length ==> buckets[c].expandMult == Mult(buckets[c].count, ideal)
  }

  function Over(n: nat, ideal: nat): nat { if n > ideal then n - ideal else 0 }

  /** The number of elements beyond the ideal length, over all chains. */
  ghost function Excess<T>(chains: seq<seq<Element<T>>>, ideal: nat): nat {
    if chains == [] then 0 else Over(|chains[0]|, ideal) + Excess(chains[1..], ideal)
  }

  lemma {:induction false} ExcessUpdate<T>(chains: seq<seq<Element<T>>>, c: nat, chain: seq<Element<T>>, ideal: nat)
    requires c < |chains|
    ensures Excess(chains[c := chain], ideal) + Over(|chains[c]|, ideal) == Excess(chains, ideal) + Over(|chain|, ideal)
  {
    if c > 0 {
      ExcessUpdate(chains[1..], c - 1, chain, ideal);
      assert chains[c := chain][1..] == chains[1..][c - 1 := chain];
    } else {
      assert chains[c := chain][1..] == chains[1..];
    }
  }

  /** The elements of chain that belong in bucket c of m, in the opposite order. */
  ghost function Rechain<T>(chain: seq<Element<T>>, m: nat, c: nat): seq<Element<T>>
    requires m > 0
    reads chain`hashv
  {
    if chain == [] then []
    else Rechain(chain[1..], m, c) + if chain[0].hashv % m == c then [chain[0]] else []
  }

  lemma {:induction false} RechainMembers<T>(chain: seq<Element<T>>, m: nat, c: nat)
    requires m > 0
    ensures forall x :: 0 <= x < |Rechain(chain, m, c)| ==>
              Rechain(chain, m, c)[x] in chain && Rechain(chain, m, c)[x].hashv % m == c
    ensures forall y :: 0 <= y < |chain| && chain[y].hashv % m == c ==> chain[y] in Rechain(chain, m, c)
  {
    if chain == [] {
    } else {
      RechainMembers(chain[1..], m, c);
    }
  }

  /** Puts one element into its new bucket, and counts it. */
  method MoveOne<T>(e: Element<T>, newBuckets: array<Bucket<T>>, k: nat, ideal: nat, nonideal0: nat,
                    ghost nc: seq<seq<Element<T>>>)
    returns (nonideal: nat, ghost c: nat)
    requires newBuckets.Length == Pow2(k) && ChainsOk(newBuckets, nc) && Placed(nc)
    requires e !in nc[e.hashv % Pow2(k)]
    requires MultsOk(newBuckets, ideal) && nonideal0 == Excess(nc, ideal)
    modifies newBuckets, e`hhPrev, e`hhNext, nc[e.hashv % Pow2(k)]`hhPrev
    ensures c == e.hashv % Pow2(k)
    ensures ChainsOk(newBuckets, nc[c := nc[c] + [e]]) && Placed(nc[c := nc[c] + [e]])
    ensures MultsOk(newBuckets, ideal) && nonideal == Excess(nc[c := nc[c] + [e]], ideal)
  {
    hide And, Excess;
    MaskIsMod(e.hashv, k);
    var bkt := And(e.hashv, newBuckets.Length - 1);
    c := bkt;
    var b := newBuckets[bkt];
    assert ChainOk(b, nc[c]);
    var mult := b.expandMult;
    nonideal := nonideal0;
    if b.count + 1 > ideal {
      nonideal := nonideal + 1;
      if b.count + 1 > mult * ideal { mult := mult + 1; }
    }
    ExcessUpdate(nc, c, nc[c] + [e], ideal);
    Push(newBuckets, bkt, e, mult, nc);
  }

  /** chain[..t] still hangs together along hhNext. */
  ghost predicate Hanging<T>(chain: seq<Element<T>>, t: nat)
    reads chain`hhNext
  {
    forall x {:trigger chain[x].hhNext} :: 0 <= x < t && x < |chain| ==> chain[x].hhNext == Before(chain, x, null)
  }

  /** The new chains after moving chain[t..] out of bucket i of n. */
  ghost function Moved<T>(nc: seq<seq<Element<T>>>, chain: seq<Element<T>>, t: nat, n: nat, i: nat)
    : (m: seq<seq<Element<T>>>)
    requires 0 < n && i < n && |nc| == 2 * n && t <= |chain|
    reads chain`hashv
    ensures |m| == 2 * n
  {
    nc[i := Rechain(chain[t..], 2 * n, i)][i + n := Rechain(chain[t..], 2 * n, i + n)]
  }

  lemma RechainStep<T>(chain: seq<Element<T>>, t: nat, m: nat, c: nat)
    requires m > 0 && 0 < t <= |chain|
    ensures var r := Rechain(chain[t..], m, c);
            Rechain(chain[t - 1..], m, c) == if chain[t - 1].hashv % m == c then r + [chain[t - 1]] else r
  {
    assert chain[t - 1..][1..] == chain[t..];
  }

  lemma RechainApart<T>(chain: seq<Element<T>>, t: nat, m: nat, c: nat)
    requires m > 0 && 0 < t <= |chain| && NoDup(chain)
    ensures forall x :: 0 <= x < |Rechain(chain[t..], m, c)| ==> Rechain(chain[t..], m, c)[x] in chain
    ensures chain[t - 1] !in Rechain(chain[t..], m, c)
  {
    RechainMembers(chain[t..], m, c);
    hide Rechain;
    assert forall x :: 0 <= x < |chain[t..]| ==> chain[t..][x] == chain[t + x];
    assert chain[t - 1] !in chain[t..];
  }

  lemma ApartFromEarlier<T>(chain: seq<Element<T>>, t: nat)
    requires 0 < t <= |chain| && NoDup(chain)
    ensures forall x :: 0 <= x < t - 1 ==> chain[x] != chain[t - 1]
  {}

  lemma MovedStep<T>(nc: seq<seq<Element<T>>>, chain: seq<Element<T>>, t: nat, n: nat, i: nat, c: nat)
    requires 0 < n && i < n && |nc| == 2 * n && 0 < t <= |chain| && NoDup(chain)
    requires chain[t - 1].hashv % n == i && c == chain[t - 1].hashv % (2 * n)
    ensures c == i || c == i + n
    ensures forall x :: 0 <= x < t - 1 ==> chain[x] != chain[t - 1]
    ensures var m := Moved(nc, chain, t, n, i);
            && (forall x :: 0 <= x < |m[c]| ==> m[c][x] in chain)
            && chain[t - 1] !in m[c]
            && Moved(nc, chain, t - 1, n, i) == m[c := m[c] + [chain[t - 1]]]
  {
    hide Rechain, NoDup;
    ModOfDouble(chain[t - 1].hashv, n);
    ApartFromEarlier(chain, t);
    RechainApart(chain, t, 2 * n, c);
    RechainStep(chain, t, 2 * n, i);
    RechainStep(chain, t, 2 * n, i + n);
  }

  lemma MovedNone<T>(nc: seq<seq<Element<T>>>, chain: seq<Element<T>>, n: nat, i: nat)
    requires 0 < n && i < n && |nc| == 2 * n && nc[i] == nc[i + n] == []
    ensures Moved(nc, chain, |chain|, n, i) == nc
  {}

  /** What MoveChain keeps true while chain[t..] has been moved. */
  ghost predicate Moving<T>(newBuckets: array<Bucket<T>>, ideal: nat, nonideal: nat, chain: seq<Element<T>>,
                            nc: seq<seq<Element<T>>>, t: nat)
    reads newBuckets, chain`hhNext, Members(nc)`hhPrev, Members(nc)`hhNext, Members(nc)`hashv
  {
    && Hanging(chain, t) && ChainsOk(newBuckets, nc) && Placed(nc)
    && MultsOk(newBuckets, ideal) && nonideal == Excess(nc, ideal)
  }

  /** One trip round the loop of MoveChain. */
  method MoveNext<T>(thh: Element<T>, newBuckets: array<Bucket<T>>, k: nat, ideal: nat, nonideal0: nat,
                     ghost chain: seq<Element<T>>, ghost t: nat, ghost n: nat, ghost i: nat,
                     ghost nc0: seq<seq<Element<T>>>, ghost nc1: seq<seq<Element<T>>>)
    returns (nxt: Element?<T>, nonideal: nat, ghost nc: seq<seq<Element<T>>>)
    requires newBuckets.Length == Pow2(k) == 2 * n && i < n && |nc0| == 2 * n
    requires 0 < t <= |chain| && NoDup(chain) && thh == chain[t - 1] && thh.hashv % n == i
    requires nc1 == Moved(nc0, chain, t, n, i) && Moving(newBuckets, ideal, nonideal0, chain, nc1, t)
    modifies newBuckets, chain`hhPrev, chain`hhNext
    ensures nxt == Before(chain, t - 1, null)
    ensures nc == Moved(nc0, chain, t - 1, n, i) && Moving(newBuckets, ideal, nonideal, chain, nc, t - 1)
  {
    hide ChainsOk, Placed, MultsOk, Excess, Pow2, Rechain, NoDup, Moved;
    nxt := thh.hhNext;
    ghost var c;
    MovedStep(nc0, chain, t, n, i, thh.hashv % (2 * n));
    nonideal, c := MoveOne(thh, newBuckets, k, ideal, nonideal0, nc1);
    nc := nc1[c := nc1[c] + [thh]];
  }

  /** Empties one old chain, head first, into the new buckets. */
  method MoveChain<T>(head: Element?<T>, newBuckets: array<Bucket<T>>, k: nat, ideal: nat, nonideal0: nat,
                      ghost chain: seq<Element<T>>, ghost n: nat, ghost i: nat, ghost nc0: seq<seq<Element<T>>>)
    returns (nonideal: nat, ghost nc: seq<seq<Element<T>>>)
    requires newBuckets.Length == Pow2(k) == 2 * n && i < n && |nc0| == 2 * n
    requires ChainsOk(newBuckets, nc0) && Placed(nc0) && nc0[i] == nc0[i + n] == []
    requires MultsOk(newBuckets, ideal) && nonideal0 == Excess(nc0, ideal)
    requires head == Last(chain) && NoDup(chain) && Hanging(chain, |chain|)
    requires forall x :: 0 <= x < |chain| ==> chain[x].hashv % n == i
    modifies newBuckets, chain`hhPrev, chain`hhNext
    ensures nc == Moved(nc0, chain, 0, n, i)
    ensures ChainsOk(newBuckets, nc) && Placed(nc)
    ensures MultsOk(newBuckets, ideal) && nonideal == Excess(nc, ideal)
  {
    hide ChainsOk, Placed, MultsOk, Excess, Pow2, Rechain, NoDup;
    var thh := head;
    ghost var t: nat := |chain|;
    nonideal, nc := nonideal0, nc0;
    MovedNone(nc0, chain, n, i);
    hide Moved, Hanging;
    while thh != null
      invariant t <= |chain| && thh == Before(chain, t, null)
      invariant nc == Moved(nc0, chain, t, n, i) && Moving(newBuckets, ideal, nonideal, chain, nc, t)
      decreases t
    {
      thh, nonideal, nc := MoveNext(thh, newBuckets, k, ideal, nonideal, chain, t, n, i, nc0, nc);
      t := t - 1;
    }
  }

  ghost predicate SplitAt<T>(chain: seq<Element<T>>, low: seq<Element<T>>, high: seq<Element<T>>,
                             n: nat, c: nat, done: bool)
    requires n > 0
    reads chain`hashv
  {
    if done then low == Rechain(chain, 2 * n, c) && high == Rechain(chain, 2 * n, c + n) else low == high == []
  }

  /** The new chains: each old chain is split over its bucket and the one n further on. */
  ghost predicate Split<T>(chains: seq<seq<Element<T>>>, nc: seq<seq<Element<T>>>, i: nat)
    requires |nc| == 2 * |chains| && i <= |chains|
    reads Members(chains)`hashv
  {
    forall c {:trigger chains[c]} :: 0 <= c < |chains| ==>
      SplitAt(chains[c], nc[c], nc[c + |chains|], |chains|, c, c < i)
  }

  lemma SplitStep<T>(chains: seq<seq<Element<T>>>, nc: seq<seq<Element<T>>>, i: nat)
    requires |nc| == 2 * |chains| && i < |chains| && Split(chains, nc, i)
    ensures nc[i] == nc[i + |chains|] == []
    ensures Split(chains, Moved(nc, chains[i], 0, |chains|, i), i + 1)
  {
    var n := |chains|;
    assert SplitAt(chains[i], nc[i], nc[i + n], n, i, false);
    assert chains[i][0..] == chains[i];
    hide Rechain;
    var m := Moved(nc, chains[i], 0, n, i);
    forall c | 0 <= c < n ensures SplitAt(chains[c], m[c], m[c + n], n, c, c < i + 1) {
      assert SplitAt(chains[c], nc[c], nc[c + n], n, c, c < i);
    }
  }

  ghost predicate ChainsFrom<T>(buckets: array<Bucket<T>>, chains: seq<seq<Element<T>>>, i: nat)
    reads buckets, Members(chains)`hhPrev, Members(chains)`hhNext
  {
    |chains| == buckets.Length && forall c :: i <= c < |chains| ==> ChainOk(buckets[c], chains[c])
  }

  lemma {:induction false} NoExcess<T>(nc: seq<seq<Element<T>>>, ideal: nat)
    requires forall c :: 0 <= c < |nc| ==> nc[c] == []
    ensures Excess(nc, ideal) == 0
  {
    if nc == [] {
    } else {
      NoExcess(nc[1..], ideal);
    }
  }

  lemma NoChains<T>(newBuckets: array<Bucket<T>>, ideal: nat, nc: seq<seq<Element<T>>>)
    requires newBuckets.Length == |nc| && forall c :: 0 <= c < |nc| ==> newBuckets[c] == Bucket(null, 0, 0)
    requires forall c :: 0 <= c < |nc| ==> nc[c] == []
    ensures MultsOk(newBuckets, ideal) && Excess(nc, ideal) == 0
  {
    NoExcess(nc, ideal);
  }

  lemma ChainHangs<T>(b: Bucket<T>, chain: seq<Element<T>>)
    requires ChainOk(b, chain)
    ensures b.head == Last(chain) && NoDup(chain) && Hanging(chain, |chain|)
  {}

  /** MoveChain for bucket i of the old array; the buckets after it keep their chains. */
  method MoveBucket<T>(buckets: array<Bucket<T>>, newBuckets: array<Bucket<T>>, k: nat, ideal: nat, nonideal0: nat,
                       i: nat, ghost chains: seq<seq<Element<T>>>, ghost nc0: seq<seq<Element<T>>>)
    returns (nonideal: nat, ghost nc: seq<seq<Element<T>>>)
    requires buckets != newBuckets && newBuckets.Length == Pow2(k) == 2 * buckets.Length == |nc0| && i < buckets.Length
    requires ChainsFrom(buckets, chains, i) && Placed(chains)
    requires ChainsOk(newBuckets, nc0) && Placed(nc0) && nc0[i] == nc0[i + buckets.Length] == []
    requires MultsOk(newBuckets, ideal) && nonideal0 == Excess(nc0, ideal)
    modifies newBuckets, chains[i]`hhPrev, chains[i]`hhNext
    ensures ChainsFrom(buckets, chains, i + 1)
    ensures nc == Moved(nc0, chains[i], 0, buckets.Length, i) && |nc| == |nc0|
    ensures ChainsOk(newBuckets, nc) && Placed(nc)
    ensures MultsOk(newBuckets, ideal) && nonideal == Excess(nc, ideal)
  {
    hide ChainsOk, MultsOk, Excess, Pow2, Rechain;
    ChainHangs(buckets[i], chains[i]);
    hide ChainOk, NoDup, Hanging;
    nonideal, nc := MoveChain(buckets[i].head, newBuckets, k, ideal, nonideal0, chains[i], buckets.Length, i, nc0);
  }

  lemma AllChains<T>(buckets: array<Bucket<T>>, chains: seq<seq<Element<T>>>)
    requires ChainsOk(buckets, chains)
    ensures ChainsFrom(buckets, chains, 0) && |chains| == buckets.Length
  {}

  lemma SplitNone<T>(chains: seq<seq<Element<T>>>, nc: seq<seq<Element<T>>>)
    requires |nc| == 2 * |chains| && forall c :: 0 <= c < |nc| ==> nc[c] == []
    ensures Split(chains, nc, 0)
  {}

  /** Takes all chains over into a fresh array of twice the size. */
  method RehashAll<T>(buckets: array<Bucket<T>>, k: nat, ideal: nat, ghost chains: seq<seq<Element<T>>>)
    returns (newBuckets: array<Bucket<T>>, nonideal: nat, ghost nc: seq<seq<Element<T>>>)
    requires Pow2(k) == 2 * buckets.Length
    requires ChainsOk(buckets, chains) && Placed(chains)
    modifies Members(chains)`hhPrev, Members(chains)`hhNext
    ensures fresh(newBuckets) && newBuckets.Length == 2 * buckets.Length == |nc|
    ensures ChainsOk(newBuckets, nc) && Placed(nc) && Split(chains, nc, |chains|)
    ensures MultsOk(newBuckets, ideal) && nonideal == Excess(nc, ideal)
  {
    hide ChainsOk, ChainsFrom, Placed, MultsOk, Excess, Pow2, Rechain, Split, Moved, ChainOk;
    AllChains(buckets, chains);
    var n := buckets.Length;
    newBuckets := NewBuckets(2 * n);
    nonideal, nc := 0, EmptyChains(2 * n);
    NoChains(newBuckets, ideal, nc);
    SplitNone(chains, nc);
    for i := 0 to n
      invariant |nc| == 2 * n && Split(chains, nc, i)
      invariant ChainsFrom(buckets, chains, i)
      invariant ChainsOk(newBuckets, nc) && Placed(nc)
      invariant MultsOk(newBuckets, ideal) && nonideal == Excess(nc, ideal)
    {
      SplitStep(chains, nc, i);
      nonideal, nc := MoveBucket(buckets, newBuckets, k, ideal, nonideal, i, chains, nc);
    }
  }

  lemma SplitAtBucket<T>(chains: seq<seq<Element<T>>>, nc: seq<seq<Element<T>>>, c: nat)
    requires |nc| == 2 * |chains| && Split(chains, nc, |chains|) && c < |chains|
    ensures nc[c] == Rechain(chains[c], 2 * |chains|, c)
    ensures nc[c + |chains|] == Rechain(chains[c], 2 * |chains|, c + |chains|)
  {
    assert SplitAt(chains[c], nc[c], nc[c + |chains|], |chains|, c, true);
  }

  /** The same elements are filed in the new chains as in the old. */
  lemma SplitKeeps<T>(chains: seq<seq<Element<T>>>, nc: seq<seq<Element<T>>>)
    requires |nc| == 2 * |chains| && Split(chains, nc, |chains|) && Placed(chains)
    ensures forall c, x :: 0 <= c < |chains| && 0 <= x < |chains[c]| ==> chains[c][x] in nc[chains[c][x].hashv % |nc|]
    ensures forall d, y :: 0 <= d < |nc| && 0 <= y < |nc[d]| ==> nc[d][y] in chains[d % |chains|]
  {
    var n := |chains|;
    hide Rechain, Split;
    forall c, x | 0 <= c < n && 0 <= x < |chains[c]| ensures chains[c][x] in nc[chains[c][x].hashv % |nc|] {
      SplitAtBucket(chains, nc, c);
      ModOfDouble(chains[c][x].hashv, n);
      RechainMembers(chains[c], 2 * n, c);
      RechainMembers(chains[c], 2 * n, c + n);
    }
    forall d, y | 0 <= d < |nc| && 0 <= y < |nc[d]| ensures nc[d][y] in chains[d % n] {
      var c := if d < n then d else d - n;
      assert c == d % n by { ModOf(d, n, if d < n then 0 else 1, c); }
      SplitAtBucket(chains, nc, c);
      RechainMembers(chains[c], 2 * n, d);
    }
  }

  /** ceil(n / 2^k), by the shift and mask of the C code. */
  function IdealLength(n: nat, k: nat): nat {
    Shr(n, k) + if And(n, Pow2(k) - 1) != 0 then 1 else 0
  }

  lemma Ceiling(n: nat, p: nat)
    requires p > 0
    ensures n % p == 0 ==> n == (n / p) * p
    ensures n / p * p <= n < (n / p + 1) * p
  {
    assert n == p * (n / p) + n % p;
  }

  /** IdealLength is the least chain length that could hold n elements in 2^k buckets. */
  lemma IdealIsCeiling(n: nat, k: nat)
    ensures n <= IdealLength(n, k) * Pow2(k)
    ensures IdealLength(n, k) > 0 ==> (IdealLength(n, k) - 1) * Pow2(k) < n
    ensures n > 0 ==> IdealLength(n, k) > 0
  {
    hide Pow2, And, Shr;
    MaskIsMod(n, k);
    ShrIsDiv(n, k);
    Ceiling(n, Pow2(k));
  }

  /** The exact multiplier. */
  lemma {:induction false} MultExact(c: nat, ideal: nat)
    requires ideal > 0
    ensures c <= ideal ==> Mult(c, ideal) == 0
    ensures c == ideal + 1 ==> Mult(c, ideal) == 1
    ensures c > ideal + 1 && ideal == 1 ==> Mult(c, ideal) == c - 1
    ensures c > ideal + 1 && ideal > 1 ==> (Mult(c, ideal) - 1) * ideal < c <= Mult(c, ideal) * ideal
  {
    if c == 0 {
    } else {
      MultExact(c - 1, ideal);
      var m := Mult(c - 1, ideal);
      var p := m * ideal;
      assert (m - 1) * ideal == p - ideal && (m + 1) * ideal == p + ideal;
    }
  }

  /** How far the multiplier of a bucket can be from its length over the ideal. */
  lemma MultBounds(c: nat, ideal: nat)
    requires ideal > 0
    ensures Mult(c, ideal) == 0 <==> c <= ideal
    ensures Mult(c, ideal) > 0 ==> (Mult(c, ideal) - 1) * ideal < c <= (Mult(c, ideal) + 1) * ideal
  {
    MultExact(c, ideal);
    hide Mult;
    var m := Mult(c, ideal);
    assert (m + 1) * ideal == m * ideal + ideal;
    if c > ideal + 1 && ideal > 1 && m <= 0 { MultipleAtLeast(ideal, m - 1); }
  }
}

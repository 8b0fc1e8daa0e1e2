/** The buckets of uthash.h: an array of chains threaded through hhPrev and hhNext. */
module BucketChains {
  import opened Elements

  datatype Bucket<T> = Bucket(head: Element?<T>, count: nat, expandMult: nat)

  /** chain lists a bucket's elements oldest first, so its last element is the head. */
  ghost predicate ChainOk<T>(b: Bucket<T>, chain: seq<Element<T>>)
    reads chain`hhPrev, chain`hhNext
  {
    && b.head == Last(chain) && b.count == |chain| && NoDup(chain)
    && (forall x {:trigger chain[x].hhNext} :: 0 <= x < |chain| ==> chain[x].hhNext == Before(chain, x, null))
    && (forall x {:trigger chain[x].hhPrev} :: 0 <= x < |chain| ==> chain[x].hhPrev == After(chain, x, null))
  }

  ghost function Members<T>(chains: seq<seq<Element<T>>>): set<Element<T>> {
    set c, x | 0 <= c < |chains| && 0 <= x < |chains[c]| :: chains[c][x]
  }

  ghost predicate ChainsOk<T>(buckets: array<Bucket<T>>, chains: seq<seq<Element<T>>>)
    reads buckets, Members(chains)`hhPrev, Members(chains)`hhNext
  {
    && |chains| == buckets.Length
    && forall c :: 0 <= c < |chains| ==> ChainOk(buckets[c], chains[c])
  }

  /** Every element is in the chain its hash value masks to. */
  ghost predicate Placed<T>(chains: seq<seq<Element<T>>>)
    reads Members(chains)`hashv
  {
    forall c, x :: 0 <= c < |chains| && 0 <= x < |chains[c]| ==> chains[c][x].hashv % |chains| == c
  }

  ghost function EmptyChains<T>(n: nat): (chains: seq<seq<Element<T>>>)
    ensures |chains| == n && forall c :: 0 <= c < n ==> chains[c] == []
  {
    seq(n, _ => [])
  }

  /** A cleared bucket array. */
  method NewBuckets<T>(n: nat) returns (buckets: array<Bucket<T>>)
    ensures fresh(buckets) && buckets.Length == n
    ensures forall c :: 0 <= c < n ==> buckets[c] == Bucket(null, 0, 0)
    ensures ChainsOk(buckets, EmptyChains(n)) && Placed(EmptyChains<T>(n))
  {
    buckets := new Bucket<T>[n](_ => Bucket(null, 0, 0));
  }

  /** HASH_ADD_TO_BKT on one bucket: links e in at the head of its chain. */
  method PushOn<T>(b: Bucket<T>, e: Element<T>, mult: nat, ghost chain: seq<Element<T>>) returns (r: Bucket<T>)
    requires ChainOk(b, chain) && e !in chain
    modifies e`hhPrev, e`hhNext, (if b.head == null then {} else {b.head})`hhPrev
    ensures ChainOk(r, chain + [e]) && r == Bucket(e, b.count + 1, mult)
  {
    e.hhNext := b.head;
    e.hhPrev := null;
    if b.head != null { b.head.hhPrev := e; }
    r := Bucket(e, b.count + 1, mult);
  }

  lemma HeadInChain<T>(buckets: array<Bucket<T>>, chains: seq<seq<Element<T>>>, c: nat)
    requires ChainsOk(buckets, chains) && c < |chains|
    ensures ChainOk(buckets[c], chains[c])
    ensures buckets[c].head != null ==> buckets[c].head in chains[c]
  {}

  /** Links e in at the head of chain c, whose count and multiplier become the given ones. */
  method Push<T>(buckets: array<Bucket<T>>, c: nat, e: Element<T>, mult: nat, ghost chains: seq<seq<Element<T>>>)
    requires ChainsOk(buckets, chains) && Placed(chains)
    requires c < buckets.Length && e.hashv % |chains| == c && e !in chains[c]
    modifies buckets, e`hhPrev, e`hhNext, (if buckets[c].head == null then {} else {buckets[c].head})`hhPrev
    ensures ChainsOk(buckets, chains[c := chains[c] + [e]])
    ensures buckets[c] == Bucket(e, old(buckets[c].count) + 1, mult)
    ensures forall d :: 0 <= d < buckets.Length && d != c ==> buckets[d] == old(buckets[d])
  {
    HeadInChain(buckets, chains, c);
    hide ChainOk;
    var b := PushOn(buckets[c], e, mult, chains[c]);
    buckets[c] := b;
  }

  /** All elements of chain but the one at x are linked as they are without it. */
  ghost predicate Bypassed<T>(chain: seq<Element<T>>, x: nat)
    requires x < |chain|
    reads chain`hhPrev, chain`hhNext
  {
    && (forall z {:trigger chain[z].hhNext} :: 0 <= z < |chain| && z != x ==>
          chain[z].hhNext == Before(chain, if z == x + 1 then x else z, null))
    && (forall z {:trigger chain[z].hhPrev} :: 0 <= z < |chain| && z != x ==>
          chain[z].hhPrev == After(chain, if z == x - 1 then x else z, null))
  }

  lemma BypassedChain<T>(b: Bucket<T>, chain: seq<Element<T>>, x: nat)
    requires x < |chain| && NoDup(chain) && Bypassed(chain, x)
    requires b.count == |chain| - 1 && b.head == if x == |chain| - 1 then Before(chain, x, null) else Last(chain)
    ensures ChainOk(b, RemoveAt(chain, x))
  {
    hide RemoveAt, Before, After, NoDup, First, Last;
    var rest := RemoveAt(chain, x);
    RemovedAt(chain, x);
    RemovedEnds(chain, x);
    forall y | 0 <= y < |rest|
      ensures rest[y].hhNext == Before(rest, y, null) && rest[y].hhPrev == After(rest, y, null)
    {
      RemovedNeighbours(chain, x, y);
    }
  }

  /** HASH_DEL_IN_BKT on one bucket: unlinks e, at position x of its chain. */
  method UnlinkFrom<T>(b: Bucket<T>, e: Element<T>, ghost chain: seq<Element<T>>, ghost x: nat) returns (r: Bucket<T>)
    requires ChainOk(b, chain) && x < |chain| && chain[x] == e
    modifies chain`hhPrev, chain`hhNext
    ensures ChainOk(r, RemoveAt(chain, x))
  {
    hide RemoveAt;
    r := b.(count := b.count - 1);
    if r.head == e { r := r.(head := e.hhNext); }
    assert r.head == if x == |chain| - 1 then Before(chain, x, null) else Last(chain);
    if e.hhPrev != null { e.hhPrev.hhNext := e.hhNext; }
    if e.hhNext != null { e.hhNext.hhPrev := e.hhPrev; }
    BypassedChain(r, chain, x);
  }

  /** Unlinks e from chain c. */
  method Unlink<T>(buckets: array<Bucket<T>>, c: nat, e: Element<T>, ghost chains: seq<seq<Element<T>>>, ghost x: nat)
    requires ChainsOk(buckets, chains) && Placed(chains)
    requires c < |chains| && x < |chains[c]| && chains[c][x] == e
    modifies buckets, chains[c]`hhPrev, chains[c]`hhNext
    ensures ChainsOk(buckets, chains[c := RemoveAt(chains[c], x)])
  {
    hide ChainOk;
    var b := UnlinkFrom(buckets[c], e, chains[c], x);
    buckets[c] := b;
  }
}

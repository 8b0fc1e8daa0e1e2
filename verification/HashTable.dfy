/** uthash.h: an intrusive hash table that refines an insertion-ordered finite map. */
module HashTable {
  import opened Arithmetic
  import opened Elements
  import opened AppOrder
  import opened BucketChains
  import opened BucketExpansion
  import opened StableSort
  import opened LinkedListSort

  const INITIAL_NUM_BUCKETS: nat := 32
  const INITIAL_NUM_BUCKETS_LOG2: nat := 5
  const BKT_CAPACITY_THRESH: nat := 10

  /** Chains and app order hold the same elements, each in the chain of its hash value. */
  ghost predicate Filed<T>(chains: seq<seq<Element<T>>>, order: seq<Element<T>>)
    reads order`hashv, Members(chains)`hashv
  {
    && |chains| > 0 && Placed(chains)
    && (forall x :: 0 <= x < |order| ==> order[x] in chains[order[x].hashv % |chains|])
    && (forall c, x :: 0 <= c < |chains| && 0 <= x < |chains[c]| ==> chains[c][x] in order)
  }

  lemma FiledAdd<T>(chains: seq<seq<Element<T>>>, order: seq<Element<T>>, e: Element<T>, c: nat)
    requires Filed(chains, order) && c == e.hashv % |chains|
    ensures Filed(chains[c := chains[c] + [e]], order + [e])
  {}

  lemma FiledRemove<T>(chains: seq<seq<Element<T>>>, order: seq<Element<T>>, k: nat, c: nat, x: nat)
    requires Filed(chains, order) && k < |order| && c == order[k].hashv % |chains|
    requires x < |chains[c]| && chains[c][x] == order[k] && NoDup(chains[c]) && NoDup(order)
    ensures Filed(chains[c := RemoveAt(chains[c], x)], RemoveAt(order, k))
  {}

  lemma FiledSplit<T>(chains: seq<seq<Element<T>>>, nc: seq<seq<Element<T>>>, order: seq<Element<T>>)
    requires Filed(chains, order) && |nc| == 2 * |chains| && Split(chains, nc, |chains|) && Placed(nc)
    ensures Filed(nc, order)
  {
    SplitKeeps(chains, nc);
  }

  /** Handles hold the hash of their key, and keys are distinct. */
  ghost predicate Keyed<K, T>(order: seq<Element<T>>, keyOf: T -> K, hash: K -> nat)
    reads order`hashv
  {
    && (forall x {:trigger order[x].hashv} :: 0 <= x < |order| ==> order[x].hashv == hash(keyOf(order[x].data)))
    && (forall x, y :: 0 <= x < y < |order| ==> keyOf(order[x].data) != keyOf(order[y].data))
  }

  lemma KeyedRemove<K, T>(order: seq<Element<T>>, keyOf: T -> K, hash: K -> nat, k: nat)
    requires Keyed(order, keyOf, hash) && k < |order|
    ensures Keyed(RemoveAt(order, k), keyOf, hash) && |RemoveAt(order, k)| == |order| - 1
    ensures forall x :: 0 <= x < |order| - 1 ==> RemoveAt(order, k)[x] in order
  {}

  lemma FiledPlaced<T>(chains: seq<seq<Element<T>>>, order: seq<Element<T>>)
    requires Filed(chains, order)
    ensures Placed(chains) && |chains| > 0
  {}

  lemma HalfShifted(n: nat)
    ensures forall m: nat :: m > Shr(n, 1) <==> 2 * m > n
  {
    assert Shr(n, 1) == Shr(n / 2, 0) == n / 2;
  }

  lemma Doubled(k: nat)
    ensures Pow2(k + 1) == 2 * Pow2(k)
  {}

  lemma SameElements<T>(s: seq<T>, t: seq<T>)
    requires multiset(s) == multiset(t)
    ensures forall x :: 0 <= x < |s| ==> s[x] in t
  {
    forall x | 0 <= x < |s| ensures s[x] in t {
      assert s[x] in multiset(t);
    }
  }

  lemma FiledPermuted<T>(chains: seq<seq<Element<T>>>, order: seq<Element<T>>, order': seq<Element<T>>)
    requires Filed(chains, order) && multiset(order) == multiset(order')
    ensures Filed(chains, order')
  {
    SameElements(order, order');
    SameElements(order', order);
  }

  lemma HeadLinks<T>(order: seq<Element<T>>, head: Element?<T>, tail: Element?<T>)
    requires AppOk(order, head, tail) && order != []
    ensures order[0].next == At(order, 1)
    ensures forall k :: 0 < k < |order| ==> order[k] != order[0]
  {}

  /** Ends the list a pass of HASH_SRT leaves. */
  method CloseApp<T>(list: Element?<T>, tail: Element?<T>, ghost out: seq<Element<T>>)
    requires OpenEnded(out, list, tail, true)
    modifies (if tail == null then {} else {tail})`next
    ensures NextLinked(out, null) && PrevLinked(out, null) && NoDup(out)
  {
    if tail != null { tail.next := null; }
  }

  lemma KeyedPermuted<K, T>(s: seq<Element<T>>, t: seq<Element<T>>, keyOf: T -> K, hash: K -> nat)
    requires Keyed(s, keyOf, hash) && multiset(s) == multiset(t) && NoDup(t)
    ensures Keyed(t, keyOf, hash) && |t| == |s|
  {
    SameElements(t, s);
    assert |s| == |multiset(s)| == |multiset(t)| == |t|;
  }

  /** Where the k-th element is in its chain, and what deleting it leaves. */
  lemma PlaceOf<T>(buckets: array<Bucket<T>>, chains: seq<seq<Element<T>>>, order: seq<Element<T>>, k: nat)
    returns (x: nat)
    requires ChainsOk(buckets, chains) && Filed(chains, order) && NoDup(order) && k < |order|
    ensures Placed(chains)
    ensures var c := order[k].hashv % |chains|;
            && (forall y :: 0 <= y < |chains[c]| ==> chains[c][y] in order)
            && x < |chains[c]| && chains[c][x] == order[k]
            && Filed(chains[c := RemoveAt(chains[c], x)], RemoveAt(order, k))
  {
    var c := order[k].hashv % |chains|;
    assert order[k] in chains[c];
    x :| x < |chains[c]| && chains[c][x] == order[k];
    assert ChainOk(buckets[c], chains[c]);
    FiledRemove(chains, order, k, c, x);
  }

  /** HASH_DELETE_HH's test for the last element. */
  lemma AloneIffUnlinked<T>(order: seq<Element<T>>, head: Element?<T>, tail: Element?<T>, k: nat)
    requires AppOk(order, head, tail) && k < |order|
    ensures order[k].prev == null && order[k].next == null <==> |order| == 1
  {}

  lemma AppFacts<T>(order: seq<Element<T>>, head: Element<T>, tail: Element?<T>)
    requires AppOk(order, head, tail)
    ensures NoDup(order) && tail != null && tail in order && NextLinked(order, null)
  {}

  lemma HeadFiled<T>(buckets: array<Bucket<T>>, chains: seq<seq<Element<T>>>, order: seq<Element<T>>, c: nat)
    requires ChainsOk(buckets, chains) && Filed(chains, order) && c < |chains|
    ensures buckets[c].head != null ==> buckets[c].head in order
    ensures forall x :: 0 <= x < |chains[c]| ==> chains[c][x] in order
  {
    assert ChainOk(buckets[c], chains[c]);
  }

  lemma MembersFiled<T>(chains: seq<seq<Element<T>>>, order: seq<Element<T>>)
    requires Filed(chains, order)
    ensures Members(chains) <= Elems(order)
  {}

  lemma InitialSize()
    ensures Pow2(INITIAL_NUM_BUCKETS_LOG2) == INITIAL_NUM_BUCKETS
  {
    assert Pow2(5) == 32;
  }

  class HashTable<K(==), T(!new)> {
    const keyOf: T -> K
    const hash: K -> nat

    var head: Element?<T>
    var tail: Element?<T>
    var buckets: array<Bucket<T>>
    var numBuckets: nat
    var log2NumBuckets: nat
    var numItems: nat
    var idealChainMaxlen: nat
    var nonidealItems: nat
    var ineffExpands: nat
    var noexpand: bool

    ghost var order: seq<Element<T>>
    ghost var chains: seq<seq<Element<T>>>

    /** The table structure behind a non-NULL head. */
    ghost predicate TableOk()
      reads this, buckets, Members(chains)`hhPrev, Members(chains)`hhNext
    {
      && numBuckets == buckets.Length == |chains| == Pow2(log2NumBuckets)
      && ChainsOk(buckets, chains)
    }

    ghost predicate Valid()
      reads this, buckets, order, Members(chains)
    {
      && head == First(order)
      && (head == null ==> chains == [])
      && (head != null ==>
            && AppOk(order, head, tail) && numItems == |order|
            && TableOk() && Filed(chains, order) && Keyed(order, keyOf, hash))
    }

    constructor (keyOf: T -> K, hash: K -> nat)
      ensures Valid() && order == [] && this.keyOf == keyOf && this.hash == hash && fresh(buckets)
    {
      this.keyOf, this.hash := keyOf, hash;
      head, tail, order, chains := null, null, [], [];
      buckets := new Bucket<T>[0];
      numBuckets, log2NumBuckets, numItems, idealChainMaxlen, nonidealItems, ineffExpands := 0, 0, 0, 0, 0, 0;
      noexpand := false;
    }

    /** HASH_FIND_IN_BKT: walks one chain from its head. */
    method FindInBucket(key: K, hashv: nat) returns (out: Element?<T>)
      requires Valid() && head != null && hashv == hash(key)
      ensures out != null ==> out in order && keyOf(out.data) == key
      ensures out == null ==> forall x :: 0 <= x < |order| ==> keyOf(order[x].data) != key
    {
      MaskIsMod(hashv, log2NumBuckets);
      var bkt := And(hashv, numBuckets - 1);
      ghost var chain := chains[bkt];
      assert ChainOk(buckets[bkt], chain);
      out := buckets[bkt].head;
      ghost var t: nat := |chain|;
      while out != null
        invariant t <= |chain| && out == Before(chain, t, null)
        invariant forall x :: t <= x < |chain| ==> keyOf(chain[x].data) != key
        decreases t
      {
        if out.hashv == hashv && keyOf(out.data) == key { break; }
        out := out.hhNext;
        t := t - 1;
      }
    }

    /** HASH_FIND. */
    method Find(key: K) returns (out: Element?<T>)
      requires Valid()
      ensures Valid()
      ensures out != null ==> out in order && keyOf(out.data) == key
      ensures out == null ==> forall x :: 0 <= x < |order| ==> keyOf(order[x].data) != key
    {
      out := null;
      if head != null {
        var hashv := hash(key);
        out := FindInBucket(key, hashv);
      }
    }

    /** Replaces the bucket array, and stops expanding after two expansions that did not help. */
    method Install(newBuckets: array<Bucket<T>>, ideal: nat, nonideal: nat, ghost nc: seq<seq<Element<T>>>)
      modifies this`buckets, this`numBuckets, this`log2NumBuckets, this`idealChainMaxlen, this`nonidealItems
      modifies this`ineffExpands, this`noexpand, this`chains
      ensures buckets == newBuckets && chains == nc
      ensures idealChainMaxlen == ideal && nonidealItems == nonideal
      ensures numBuckets == 2 * old(numBuckets) && log2NumBuckets == old(log2NumBuckets) + 1
      ensures ineffExpands == if 2 * nonideal > numItems then old(ineffExpands) + 1 else 0
      ensures noexpand == (old(noexpand) || ineffExpands > 1)
    {
      HalfShifted(numItems);
      hide Shr;
      idealChainMaxlen, nonidealItems := ideal, nonideal;
      numBuckets := 2 * numBuckets;
      log2NumBuckets := log2NumBuckets + 1;
      buckets, chains := newBuckets, nc;
      ineffExpands := if nonidealItems > Shr(numItems, 1) then ineffExpands + 1 else 0;
      if ineffExpands > 1 { noexpand := true; }
    }

    /** HASH_EXPAND_BUCKETS. */
    method Expand()
      requires Valid() && head != null
      modifies this`buckets, this`numBuckets, this`log2NumBuckets, this`idealChainMaxlen, this`nonidealItems
      modifies this`ineffExpands, this`noexpand, this`chains, order`hhPrev, order`hhNext
      ensures Valid() && fresh(buckets)
      ensures numBuckets == 2 * old(numBuckets) && log2NumBuckets == old(log2NumBuckets) + 1
      ensures |chains| == 2 * old(|chains|) && Split(old(chains), chains, old(|chains|))
      ensures idealChainMaxlen == IdealLength(numItems, log2NumBuckets)
      ensures nonidealItems == Excess(chains, idealChainMaxlen) && MultsOk(buckets, idealChainMaxlen)
      ensures ineffExpands == if 2 * nonidealItems > numItems then old(ineffExpands) + 1 else 0
      ensures noexpand == (old(noexpand) || ineffExpands > 1)
    {
      hide ChainsOk, Filed, Placed, Split, Excess, MultsOk, IdealLength, Pow2, AppOk, Keyed;
      FiledPlaced(chains, order);
      Doubled(log2NumBuckets);
      MembersFiled(chains, order);
      var ideal := IdealLength(numItems, log2NumBuckets + 1);
      var newBuckets, nonideal;
      ghost var nc;
      newBuckets, nonideal, nc := RehashAll(buckets, log2NumBuckets + 1, ideal, chains);
      FiledSplit(chains, nc, order);
      ghost var members := Members(nc);
      Install(newBuckets, ideal, nonideal, nc);
      assert members == Members(nc);
    }

    /** e is last in the app order but in no bucket yet. */
    ghost predicate Pending(e: Element<T>, before: seq<Element<T>>)
      reads this, buckets, order, Members(chains), before
    {
      && order == before + [e] && e !in before
      && AppOk(order, head, tail) && head == First(order) && numItems == |before|
      && TableOk() && Filed(chains, before) && Keyed(order, keyOf, hash)
    }

    /** HASH_MAKE_TABLE: a fresh table whose only element is e. */
    method MakeTable(e: Element<T>)
      modifies this`tail, this`buckets, this`numBuckets, this`log2NumBuckets, this`numItems, this`chains
      modifies this`idealChainMaxlen, this`nonidealItems, this`ineffExpands, this`noexpand
      ensures TableOk() && chains == EmptyChains(INITIAL_NUM_BUCKETS) && fresh(buckets)
      ensures forall c :: 0 <= c < buckets.Length ==> buckets[c] == Bucket(null, 0, 0)
      ensures numItems == 0 && tail == e
    {
      hide ChainsOk, Placed, Pow2, EmptyChains, Members;
      InitialSize();
      tail := e;
      numBuckets, log2NumBuckets := INITIAL_NUM_BUCKETS, INITIAL_NUM_BUCKETS_LOG2;
      numItems, idealChainMaxlen, nonidealItems, ineffExpands := 0, 0, 0, 0;
      noexpand := false;
      buckets := NewBuckets(INITIAL_NUM_BUCKETS);
      chains := EmptyChains(INITIAL_NUM_BUCKETS);
    }

    method AddFirst(e: Element<T>)
      requires Valid() && head == null
      modifies this, e`hashv, e`prev, e`next
      ensures Pending(e, []) && fresh(buckets) && numBuckets == INITIAL_NUM_BUCKETS
      ensures e.hashv == hash(keyOf(e.data))
      ensures forall c :: 0 <= c < buckets.Length ==> buckets[c] == Bucket(null, 0, 0)
    {
      hide ChainsOk, Pow2;
      e.hashv := hash(keyOf(e.data));
      e.next, e.prev := null, null;
      MakeTable(e);
      head, order := e, [e];
    }

    method AddNext(e: Element<T>)
      requires Valid() && head != null && e !in order
      requires forall x :: 0 <= x < |order| ==> keyOf(order[x].data) != keyOf(e.data)
      modifies this`tail, this`order, order`next, e`hashv, e`prev, e`next
      ensures Pending(e, old(order)) && e.hashv == hash(keyOf(e.data))
    {
      hide ChainsOk, AppOk, Filed, Pow2;
      MembersFiled(chains, order);
      AppFacts(order, head, tail);
      ghost var members := Members(chains);
      e.hashv := hash(keyOf(e.data));
      tail := Append(e, head, tail, order);
      order := order + [e];
      assert members == Members(chains);
    }

    /** The linking half of HASH_ADD_TO_BKT. */
    method LinkInBucket(e: Element<T>, bkt: nat, ghost before: seq<Element<T>>)
      requires TableOk() && Filed(chains, before) && e !in before && order == before + [e]
      requires bkt == e.hashv % numBuckets
      modifies this`chains, buckets, order`hhPrev, order`hhNext
      ensures TableOk() && Filed(chains, order)
      ensures bkt < buckets.Length && buckets[bkt].expandMult == old(buckets[bkt].expandMult)
      ensures buckets[bkt].count == old(buckets[bkt].count) + 1
    {
      hide ChainsOk, Pow2, Filed, Placed;
      FiledPlaced(chains, before);
      FiledAdd(chains, before, e, bkt);
      HeadFiled(buckets, chains, before, bkt);
      assert order[|before|] == e;
      assert buckets[bkt].head != null ==> buckets[bkt].head in order;
      ghost var nc := chains[bkt := chains[bkt] + [e]];
      ghost var members := Members(nc);
      Push(buckets, bkt, e, buckets[bkt].expandMult, chains);
      assert members == Members(nc);
      assert Filed(nc, order);
      chains := nc;
    }

    /** HASH_ADD_TO_TABLE, up to the expansion. */
    method AddToTable(e: Element<T>, ghost before: seq<Element<T>>) returns (bkt: nat)
      requires Pending(e, before)
      modifies this`numItems, this`chains, buckets, order`hhPrev, order`hhNext
      ensures Valid() && bkt < buckets.Length && head != null
      ensures bkt == e.hashv % numBuckets && buckets[bkt].expandMult == old(buckets[bkt].expandMult)
      ensures buckets[bkt].count == old(buckets[bkt].count) + 1
    {
      hide ChainsOk, Pow2, And, AppOk, Filed;
      numItems := numItems + 1;
      MaskIsMod(e.hashv, log2NumBuckets);
      bkt := And(e.hashv, numBuckets - 1);
      LinkInBucket(e, bkt, before);
    }

    /** One more element with hash value h makes its bucket count reach the threshold. */
    ghost predicate Crowded(h: nat)
      requires TableOk()
      reads this, buckets, Members(chains)`hhPrev, Members(chains)`hhNext
    {
      var b := buckets[h % numBuckets];
      b.count + 1 >= (b.expandMult + 1) * BKT_CAPACITY_THRESH && !noexpand
    }

    /** HASH_ADD_KEYPTR of a key that is not in the table. */
    method Add(e: Element<T>)
      requires Valid() && e !in order
      requires forall x :: 0 <= x < |order| ==> keyOf(order[x].data) != keyOf(e.data)
      modifies this, buckets, order, e
      ensures Valid() && order == old(order) + [e]
      ensures buckets == old(buckets) || fresh(buckets)
      ensures var h := hash(keyOf(e.data));
              numBuckets == if old(head) == null then INITIAL_NUM_BUCKETS
                            else if old(Crowded(h)) then 2 * old(numBuckets) else old(numBuckets)
    {
      hide ChainsOk, AppOk, Filed, Keyed, Pow2;
      ghost var before, h := order, hash(keyOf(e.data));
      ghost var grows := head != null && Crowded(h);
      if head == null { AddFirst(e); } else { AddNext(e); }
      var bkt := AddToTable(e, before);
      var b := buckets[bkt];
      if b.count >= (b.expandMult + 1) * BKT_CAPACITY_THRESH && !noexpand {
        Expand();
      }
    }

    /** The bucket half of HASH_DELETE_HH. */
    method UnlinkFromBucket(e: Element<T>, ghost k: nat)
      requires TableOk() && Filed(chains, order) && NoDup(order) && k < |order| && order[k] == e
      requires numItems > 0
      modifies this`chains, this`order, this`numItems, buckets, order`hhPrev, order`hhNext
      ensures order == RemoveAt(old(order), k) && numItems == old(numItems) - 1
      ensures TableOk() && Filed(chains, order)
    {
      hide ChainsOk, Filed, Pow2, And, NoDup;
      MaskIsMod(e.hashv, log2NumBuckets);
      var bkt := And(e.hashv, numBuckets - 1);
      ghost var x := PlaceOf(buckets, chains, order, k);
      ghost var nc := chains[bkt := RemoveAt(chains[bkt], x)];
      ghost var members := Members(nc);
      Unlink(buckets, bkt, e, chains, x);
      assert members == Members(nc);
      assert Filed(nc, RemoveAt(order, k));
      chains, order := nc, RemoveAt(order, k);
      numItems := numItems - 1;
    }

    /** The app-order half of HASH_DELETE_HH. */
    method UnlinkFromOrder(e: Element<T>, ghost k: nat)
      requires head == First(order) && AppOk(order, head, tail) && TableOk() && Filed(chains, order)
      requires |order| > 1 && k < |order| && order[k] == e
      modifies this`head, this`tail, order`prev, order`next
      ensures AppOk(RemoveAt(order, k), head, tail)
      ensures head == First(RemoveAt(order, k)) && head != null
      ensures TableOk() && Filed(chains, order) && NoDup(order)
    {
      hide ChainsOk, AppOk, Filed, Keyed, Pow2, NoDup;
      AppFacts(order, head, tail);
      MembersFiled(chains, order);
      ghost var members := Members(chains);
      head, tail := Remove(e, head, tail, order, k);
      assert members == Members(chains);
    }

    /** HASH_DELETE_HH when other elements remain. */
    method Unfile(e: Element<T>, ghost k: nat)
      requires Valid() && |order| > 1 && k < |order| && order[k] == e
      modifies this, buckets, order
      ensures Valid() && order == RemoveAt(old(order), k) && buckets == old(buckets)
    {
      hide TableOk, AppOk, Filed, Keyed, NoDup, RemoveAt;
      KeyedRemove(order, keyOf, hash, k);
      UnlinkFromOrder(e, k);
      UnlinkFromBucket(e, k);
    }

    /** HASH_DELETE. */
    method Delete(e: Element<T>) returns (ghost k: nat)
      requires Valid() && e in order
      modifies this, buckets, order
      ensures k < old(|order|) && old(order)[k] == e
      ensures Valid() && order == RemoveAt(old(order), k) && buckets == old(buckets)
    {
      k :| k < |order| && order[k] == e;
      AloneIffUnlinked(order, head, tail, k);
      hide ChainsOk, AppOk, Filed, Keyed, TableOk;
      if e.prev == null && e.next == null {
        head, order, chains := null, [], [];
      } else {
        Unfile(e, k);
      }
    }

    /** HASH_CNT. */
    method Count() returns (n: nat)
      requires Valid()
      ensures Valid() && n == |order|
    {
      n := if head != null then numItems else 0;
    }

    /** The passes of HASH_SRT; head and tail are set by the last one. */
    method SortLoop(list0: Element<T>, cmp: Comparator<T>) returns (ghost passes: nat, ghost comparisons: nat)
      requires order != [] && list0 == First(order) && NextLinked(order, null) && NoDup(order)
      modifies this`head, this`tail, this`order, order`prev, order`next
      ensures order == Passes(old(order), 1, cmp) && PassesFor(|old(order)|, passes)
      ensures comparisons <= (|old(order)| - 1) * passes
      ensures AppOk(order, head, tail) && head == First(order) && NoDup(order)
    {
      hide NoDup, NextLinked, PrevLinked, Passes, OpenEnded, Pass, Pow2, PassesFor, Sorting;
      var list: Element?<T>, insize: nat, looping := list0, 1, true;
      passes, comparisons := 0, 0;
      ghost var s, out := order, order;
      SortingStarts(s, cmp);
      while looping
        invariant Sorting(s, out, insize, passes, comparisons, looping, cmp) && insize > 0
        invariant looping ==> insize <= |s|
        invariant list == First(out) && NextLinked(out, null) && NoDup(out)
        invariant !looping ==> PrevLinked(out, null) && head == First(out) && tail == Last(out)
        decreases looping, |s| - insize
      {
        var last, nmerges;
        SortingShape(s, out, insize, passes, comparisons, true, cmp);
        ghost var cur := out;
        ghost var compared;
        list, last, nmerges, out, compared := SortPass(list, insize, true, null, cmp, cur);
        SortingStep(s, cur, insize, passes, comparisons, compared, cmp);
        passes, comparisons := passes + 1, comparisons + compared;
        SortingShape(s, out, 2 * insize, passes, comparisons, nmerges > 1, cmp);
        CloseApp(list, last, out);
        if nmerges <= 1 {
          looping := false;
          tail := last;
          head := list;
        }
        insize := 2 * insize;
      }
      SortingDone(s, out, insize, passes, comparisons, cmp);
      order := out;
    }

    /** HASH_SRT of a table that is not empty, with what it leaves alone. */
    method SortOrder(cmp: Comparator<T>) returns (ghost passes: nat, ghost comparisons: nat)
      requires Valid() && head != null
      modifies this`head, this`tail, this`order, order`prev, order`next
      ensures order == Passes(old(order), 1, cmp) && PassesFor(|old(order)|, passes)
      ensures comparisons <= (|old(order)| - 1) * passes
      ensures AppOk(order, head, tail) && head == First(order) && NoDup(order)
      ensures TableOk() && Filed(chains, old(order)) && Keyed(old(order), keyOf, hash) && numItems == |old(order)|
    {
      hide AppOk, NoDup, NextLinked, Passes, Pow2, PassesFor, ChainsOk, Filed, Keyed;
      AppFacts(order, head, tail);
      MembersFiled(chains, order);
      ghost var members := Members(chains);
      passes, comparisons := SortLoop(head, cmp);
      assert members == Members(chains);
    }

    /** HASH_SRT: sorts the app order in place; bucket chains are outside its frame. */
    method Sort(cmp: Comparator<T>) returns (ghost passes: nat, ghost comparisons: nat)
      requires Valid()
      modifies this`head, this`tail, this`order, order`prev, order`next
      ensures Valid() && order == Passes(old(order), 1, cmp)
      ensures TotalPreorder(cmp) ==> order == Stable(old(order), cmp)
      ensures order != [] ==> PassesFor(|order|, passes)
      ensures comparisons <= (|old(order)| - 1) * passes
    {
      hide AppOk, NoDup, Passes, PassesFor, TotalPreorder, Stable, Filed, Keyed, TableOk;
      passes, comparisons := 0, 0;
      ghost var s := order;
      if TotalPreorder(cmp) { PassesSort(s, cmp); }
      PassesNothing<T>(cmp);
      PassesPermute(s, 1, cmp);
      if head != null {
        passes, comparisons := SortOrder(cmp);
        FiledPermuted(chains, s, order);
        KeyedPermuted(s, order, keyOf, hash);
      }
    }

    /** Deletes the first element. */
    method DeleteHead(e: Element<T>)
      requires Valid() && order != [] && e == order[0]
      modifies this, buckets, order
      ensures Valid() && order == old(order)[1..] && buckets == old(buckets)
    {
      HeadLinks(order, head, tail);
      hide AppOk, Filed, Keyed, TableOk;
      ghost var k := Delete(e);
    }

    /** HASH_ITER with HASH_DEL in its body: the saved successor survives the deletion. */
    method DeleteAll() returns (visited: seq<Element<T>>)
      requires Valid()
      modifies this, buckets, order
      ensures Valid() && order == [] && visited == old(order)
    {
      hide AppOk, Filed, Keyed, TableOk;
      ghost var s := order;
      visited := [];
      var el := head;
      var tmp: Element?<T> := null;
      if head != null {
        HeadLinks(order, head, tail);
        tmp := head.next;
      }
      while el != null
        invariant Valid() && |visited| <= |s| && visited == s[..|visited|] && order == s[|visited|..]
        invariant el == First(order) && tmp == At(order, 1)
        invariant buckets == old(buckets)
        decreases |order|
      {
        visited := visited + [el];
        DeleteHead(el);
        el := tmp;
        if tmp != null {
          HeadLinks(order, head, tail);
          tmp := tmp.next;
        }
      }
    }
  }

  // ---------- HASH_FSCK ----------

  /** The bucket counts, summed over the first k buckets. */
  ghost function CountSum<T>(buckets: seq<Bucket<T>>, k: nat): nat
    requires k <= |buckets|
  {
    if k == 0 then 0 else CountSum(buckets, k - 1) + buckets[k - 1].count
  }

  ghost function MembersOfFirst<T>(chains: seq<seq<Element<T>>>, k: nat): set<Element<T>> {
    set c, x | 0 <= c < |chains| && c < k && 0 <= x < |chains[c]| :: chains[c][x]
  }

  lemma MembersOfNone<T>(chains: seq<seq<Element<T>>>)
    ensures MembersOfFirst(chains, 0) == {}
  {}

  lemma MembersOfNext<T>(chains: seq<seq<Element<T>>>, k: nat)
    requires Placed(chains) && k < |chains|
    ensures MembersOfFirst(chains, k + 1) == MembersOfFirst(chains, k) + Elems(chains[k])
    ensures MembersOfFirst(chains, k) !! Elems(chains[k])
  {}

  lemma ChainCount<T>(buckets: array<Bucket<T>>, chains: seq<seq<Element<T>>>, c: nat)
    requires ChainsOk(buckets, chains) && c < |chains|
    ensures |chains| == buckets.Length && buckets[c].count == |Elems(chains[c])|
  {
    assert ChainOk(buckets[c], chains[c]);
    CardOfNoDup(chains[c]);
  }

  lemma {:induction false} CountSumIsCard<T>(buckets: array<Bucket<T>>, chains: seq<seq<Element<T>>>, k: nat)
    requires ChainsOk(buckets, chains) && Placed(chains) && k <= |chains|
    ensures |MembersOfFirst(chains, k)| == CountSum(buckets[..], k)
  {
    hide ChainOk, Placed, MembersOfFirst, Elems;
    if k == 0 {
      MembersOfNone(chains);
    } else {
      CountSumIsCard(buckets, chains, k - 1);
      ChainCount(buckets, chains, k - 1);
      MembersOfNext(chains, k - 1);
    }
  }

  lemma SameMembers<T>(chains: seq<seq<Element<T>>>, order: seq<Element<T>>)
    requires Filed(chains, order)
    ensures MembersOfFirst(chains, |chains|) == Elems(order)
  {
    forall e | e in Elems(order) ensures e in MembersOfFirst(chains, |chains|) {
      var c := e.hashv % |chains|;
      assert e in chains[c];
      var x :| 0 <= x < |chains[c]| && chains[c][x] == e;
    }
  }

  /** A valid table passes the library's own consistency check: the counts of the buckets add up to
      the number of elements in the app order, and each of those is in one chain only. */
  lemma Fsck<K, T(!new)>(table: HashTable<K, T>)
    requires table.Valid() && table.head != null
    ensures CountSum(table.buckets[..], table.buckets.Length) == table.numItems == |table.order|
    ensures forall x, c :: 0 <= x < |table.order| && 0 <= c < |table.chains| ==>
              (table.order[x] in table.chains[c] <==> c == table.order[x].hashv % |table.chains|)
  {
    var n := |table.chains|;
    CountSumIsCard(table.buckets, table.chains, n);
    CardOfNoDup(table.order);
    SameMembers(table.chains, table.order);
  }

  // ---------- what clients need to know ----------

  lemma UniqueKeys<K, T(!new)>(table: HashTable<K, T>)
    requires table.Valid()
    ensures NoDup(table.order)
    ensures forall x, y :: 0 <= x < y < |table.order| ==>
              table.keyOf(table.order[x].data) != table.keyOf(table.order[y].data)
  {}

  lemma HeadIsFirst<K, T(!new)>(table: HashTable<K, T>)
    requires table.Valid()
    ensures table.head == First(table.order)
  {}

  /** A valid table reaches no element outside its app order. */
  lemma Reach<K, T(!new)>(table: HashTable<K, T>)
    requires table.Valid()
    ensures Members(table.chains) <= Elems(table.order)
  {
    if table.head != null { MembersFiled(table.chains, table.order); }
  }
}

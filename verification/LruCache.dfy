/** lru_cache/cache.c: a bounded cache kept in the app order of a hash table. */
module LruCache {
  import opened BucketChains
  import opened Elements
  import opened HashTable
  import opened Options
  import opened Recency

  lemma AbsentKey<V>(order: seq<Element<Entry<V>>>, key: string)
    requires Place(Data(order), key) == |order|
    ensures forall x :: 0 <= x < |order| ==> StoredKey(order[x].data.key) != key
  {
    assert forall x :: 0 <= x < |order| ==> Data(order)[x] == order[x].data;
  }

  lemma PlaceIs<V>(order: seq<Element<Entry<V>>>, key: string, k: nat)
    requires k <= |order| && (k < |order| ==> StoredKey(order[k].data.key) == key)
    requires forall x :: 0 <= x < |order| && x != k ==> StoredKey(order[x].data.key) != key
    ensures Place(Data(order), key) == k
  {
    hide StoredKey, Place;
    var p := Place(Data(order), key);
    assert p < |order| ==> Data(order)[p] == order[p].data;
    assert k < |order| ==> Data(order)[k] == order[k].data;
  }

  /** Moving an element to the end, on the data alone. */
  lemma DataMoved<T>(order: seq<Element<T>>, k: nat)
    requires k < |order|
    ensures Data(RemoveAt(order, k) + [order[k]]) == Without(Data(order), k) + [Data(order)[k]]
  {}

  /** foo_cache, with the callback that frees data left to the caller. */
  class Cache<V(!new)> {
    const maxEntries: nat
    const entries: HashTable<string, Entry<V>>

    ghost predicate Valid()
      reads this, entries, entries.buckets, entries.order, Members(entries.chains)
    {
      entries.Valid() && forall e :: entries.keyOf(e) == StoredKey(e.key)
    }

    ghost function Items(): seq<Entry<V>>
      reads this, entries
    {
      Data(entries.order)
    }

    /** What the cache can reach and change. */
    ghost function Owned(): set<object>
      reads this, entries
    {
      {entries, entries.buckets} + (set i | 0 <= i < |entries.order| :: entries.order[i])
    }

    /** foo_cache_create. */
    constructor (capacity: nat, hash: string -> nat)
      ensures Valid() && Items() == [] && maxEntries == capacity && fresh(Owned())
    {
      maxEntries := capacity;
      entries := new HashTable<string, Entry<V>>((e: Entry<V>) => StoredKey(e.key), hash);
    }

    /** HASH_FIND_STR. */
    method FindEntry(key: string) returns (tmp: Element?<Entry<V>>, ghost k: nat)
      requires Valid()
      ensures k == Place(Items(), key) && tmp == At(entries.order, k) && k <= |entries.order|
    {
      hide HashTable.Valid, StoredKey, Place;
      tmp := entries.Find(key);
      UniqueKeys(entries);
      if tmp == null {
        k := |entries.order|;
      } else {
        k :| k < |entries.order| && entries.order[k] == tmp;
      }
      PlaceIs(entries.order, key, k);
    }

    /** Moves a found entry to the end of the app order. */
    method MoveToEnd(tmp: Element<Entry<V>>, ghost k: nat)
      requires Valid() && k < |entries.order| && entries.order[k] == tmp
      modifies entries, entries.buckets, entries.order
      ensures Valid() && entries.order == RemoveAt(old(entries.order), k) + [tmp]
      ensures entries.buckets == old(entries.buckets) || fresh(entries.buckets)
    {
      hide HashTable.Valid, StoredKey;
      UniqueKeys(entries);
      ghost var j := entries.Delete(tmp);
      entries.Add(tmp);
    }

    /** foo_cache_lookup: an entry that is found is deleted and added again. */
    method Lookup(key: string) returns (result: Option<V>)
      requires Valid()
      modifies Owned()
      ensures Valid() && Items() == AfterLookup(old(Items()), key) && result == Found(old(Items()), key)
      ensures fresh(Owned() - old(Owned()))
    {
      hide HashTable.Valid, StoredKey, Place, Without;
      var tmp;
      ghost var k;
      ghost var members := Members(entries.chains);
      tmp, k := FindEntry(key);
      assert members == Members(entries.chains);
      result := None;
      if tmp != null {
        DataMoved(entries.order, k);
        MoveToEnd(tmp, k);
        result := Some(tmp.data.data);
      }
    }

    method AddEntry(entry: Entry<V>)
      requires Valid() && Place(Items(), StoredKey(entry.key)) == |Items()|
      modifies entries, entries.buckets, entries.order
      ensures Valid() && Items() == old(Items()) + [entry]
      ensures fresh(Owned() - old(Owned())) && |entries.order| == old(|entries.order|) + 1
    {
      hide HashTable.Valid, StoredKey, Place;
      ghost var members := Members(entries.chains);
      AbsentKey(entries.order, StoredKey(entry.key));
      var e := new Element<Entry<V>>(entry);
      assert members == Members(entries.chains);
      assert entries.Valid() && e !in entries.order;
      entries.Add(e);
    }

    /** HASH_ITER that deletes the first entry and breaks off. */
    method DropFirst() returns (freed: V)
      requires Valid() && entries.order != []
      modifies entries, entries.buckets, entries.order
      ensures Valid() && Items() == old(Items())[1..] && freed == old(Items())[0].data
      ensures fresh(Owned() - old(Owned()))
    {
      hide HashTable.Valid, StoredKey;
      HeadIsFirst(entries);
      var entry := entries.head;
      entries.DeleteHead(entry);
      freed := entry.data.data;
    }

    /** foo_cache_insert of a key that is not in the cache; evicted is what the callback frees. */
    method Insert(key: string, data: V) returns (evicted: Option<V>)
      requires Valid() && Place(Items(), StoredKey(key)) == |Items()|
      modifies Owned()
      ensures Valid() && Items() == AfterInsert(old(Items()), Entry(key, data), maxEntries)
      ensures fresh(Owned() - old(Owned()))
      ensures evicted == if |old(Items())| + 1 >= maxEntries
                         then Some((old(Items()) + [Entry(key, data)])[0].data) else None
    {
      hide HashTable.Valid, StoredKey, Place;
      AddEntry(Entry(key, data));
      var count := entries.Count();
      evicted := None;
      if count >= maxEntries {
        var freed := DropFirst();
        evicted := Some(freed);
      }
    }
  }

  /** One call, and what a look-up answers. */
  method Perform<V(!new)>(cache: Cache<V>, op: Op<V>) returns (result: Option<V>)
    requires cache.Valid() && Allowed(cache.Items(), op)
    modifies cache.Owned()
    ensures cache.Valid() && cache.Items() == Next(old(cache.Items()), op, cache.maxEntries)
    ensures op.Lookup? ==> result == Found(old(cache.Items()), op.key)
    ensures fresh(cache.Owned() - old(cache.Owned()))
  {
    hide HashTable.Valid, StoredKey, Place, AfterLookup, AfterInsert, Found;
    match op
    case Lookup(key) =>
      result := cache.Lookup(key);
    case Insert(key, data) =>
      var freed := cache.Insert(key, data);
      result := None;
  }

  /** What the last maxEntries - 1 touched keys of a run answer. */
  ghost function Answer<V>(ops: seq<Op<V>>, key: string, maxEntries: nat): Option<V> {
    if key in LastOf(Recent(Log(ops, maxEntries)), Room(maxEntries)) then LastData(ops, key) else None
  }

  /** One call further into a legal run. */
  lemma LegalStep<V>(ops: seq<Op<V>>, i: nat, maxEntries: nat)
    requires i < |ops| && Legal([], ops, maxEntries)
    ensures Run([], ops[..i + 1], maxEntries) == Next(Run([], ops[..i], maxEntries), ops[i], maxEntries)
    ensures Allowed(Run([], ops[..i], maxEntries), ops[i])
    ensures ops[i].Lookup? ==>
              Found(Run([], ops[..i], maxEntries), ops[i].key) == Answer(ops[..i], ops[i].key, maxEntries)
  {
    hide Next, Allowed, Found, Keys, Recent, Log;
    assert ops[..i + 1][..i] == ops[..i];
    assert forall j :: 0 <= j < i ==> ops[..i][..j] == ops[..j];
    if ops[i].Lookup? { FindsMostRecent(ops[..i], maxEntries, ops[i].key); }
  }

  /** A whole run from the empty cache: every look-up is answered from the most recently touched keys. */
  method PerformAll<V(!new)>(cache: Cache<V>, ops: seq<Op<V>>) returns (results: seq<Option<V>>)
    requires cache.Valid() && cache.Items() == [] && Legal([], ops, cache.maxEntries)
    modifies cache.Owned()
    ensures cache.Valid() && |results| == |ops|
    ensures forall i :: 0 <= i < |ops| && ops[i].Lookup? ==>
              results[i] == Answer(ops[..i], ops[i].key, cache.maxEntries)
    ensures Keys(cache.Items()) == LastOf(Recent(Log(ops, cache.maxEntries)), Room(cache.maxEntries))
  {
    hide HashTable.Valid, Keys, Recent, Log, Next, Allowed, Answer, Legal, Found;
    results := [];
    var i := 0;
    while i < |ops|
      invariant i == |results| <= |ops| && cache.Valid()
      invariant cache.Items() == Run([], ops[..i], cache.maxEntries)
      invariant forall j :: 0 <= j < i && ops[j].Lookup? ==>
                  results[j] == Answer(ops[..j], ops[j].key, cache.maxEntries)
      invariant fresh(cache.Owned() - old(cache.Owned()))
    {
      LegalStep(ops, i, cache.maxEntries);
      var result := Perform(cache, ops[i]);
      results := results + [result];
      i := i + 1;
    }
    assert ops[..i] == ops;
    HoldsMostRecent(ops, cache.maxEntries);
  }
}

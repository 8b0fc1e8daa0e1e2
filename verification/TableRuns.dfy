/** Whole runs of a hash table: it is an insertion-ordered map, whatever the hash function. */
module TableRuns {
  import opened BucketChains
  import opened Elements
  import opened HashTable
  import opened Options
  import opened Sequences

  datatype Op<K, T> = Add(item: T) | Delete(key: K) | Find(key: K)

  /** item, unless it is filed under key. */
  function Kept<K(==), T>(item: T, keyOf: T -> K, key: K): seq<T> {
    if keyOf(item) == key then [] else [item]
  }

  /** items without those filed under key. */
  function Drop<K(==), T>(items: seq<T>, keyOf: T -> K, key: K): seq<T> {
    if items == [] then [] else Kept(items[0], keyOf, key) + Drop(items[1..], keyOf, key)
  }

  function Lookup<K(==), T>(items: seq<T>, keyOf: T -> K, key: K): Option<T> {
    if items == [] then None
    else if keyOf(items[0]) == key then Some(items[0])
    else Lookup(items[1..], keyOf, key)
  }

  /** A look-up finds an item under its key, and finds none exactly when there is none. */
  lemma {:induction false} LookupIs<K, T>(items: seq<T>, keyOf: T -> K, key: K)
    ensures var r := Lookup(items, keyOf, key);
            && (r.Some? ==> r.value in items && keyOf(r.value) == key)
            && (r.None? <==> forall i :: 0 <= i < |items| ==> keyOf(items[i]) != key)
  {
    if items != [] && keyOf(items[0]) != key {
      LookupIs(items[1..], keyOf, key);
      assert forall i :: 1 <= i < |items| ==> items[i] == items[1..][i - 1];
    }
  }

  function Next<K(==), T>(items: seq<T>, keyOf: T -> K, op: Op<K, T>): seq<T> {
    match op
    case Add(item) => items + [item]
    case Delete(key) => Drop(items, keyOf, key)
    case Find(_) => items
  }

  function Run<K(==), T>(ops: seq<Op<K, T>>, keyOf: T -> K): seq<T> {
    if ops == [] then [] else Next(Run(ops[..|ops| - 1], keyOf), keyOf, ops[|ops| - 1])
  }

  /** Only keys that are not in the table are added. */
  predicate Allowed<K(==), T>(items: seq<T>, keyOf: T -> K, op: Op<K, T>) {
    op.Add? ==> Lookup(items, keyOf, keyOf(op.item)).None?
  }

  predicate Legal<K(==), T>(ops: seq<Op<K, T>>, keyOf: T -> K) {
    forall i :: 0 <= i < |ops| ==> Allowed(Run(ops[..i], keyOf), keyOf, ops[i])
  }

  // ---------- what a run leaves ----------

  /** ops[i] adds an item that nothing later in the run deletes. */
  predicate Survives<K(==), T>(ops: seq<Op<K, T>>, keyOf: T -> K, i: nat)
    requires i < |ops|
  {
    ops[i].Add? && forall j :: i < j < |ops| ==> ops[j] != Delete(keyOf(ops[i].item))
  }

  /** What ops[i] leaves at the end of the run. */
  function Survivor<K(==), T>(ops: seq<Op<K, T>>, keyOf: T -> K, i: nat): seq<T>
    requires i < |ops|
  {
    if Survives(ops, keyOf, i) then [ops[i].item] else []
  }

  /** The surviving items of the first n operations, in the order they were added. */
  function Survivors<K(==), T>(ops: seq<Op<K, T>>, keyOf: T -> K, n: nat): seq<T>
    requires n <= |ops|
  {
    if n == 0 then []
    else Survivors(ops, keyOf, n - 1) + Survivor(ops, keyOf, n - 1)
  }

  lemma DropNothing<K, T>(keyOf: T -> K)
    ensures forall key :: Drop([], keyOf, key) == []
  {}

  lemma DropStep<K, T>(items: seq<T>, keyOf: T -> K, key: K)
    requires items != []
    ensures Drop(items, keyOf, key) == Kept(items[0], keyOf, key) + Drop(items[1..], keyOf, key)
  {}

  lemma {:induction false} DropOfTwo<K, T>(a: seq<T>, b: seq<T>, keyOf: T -> K, key: K)
    ensures Drop(a + b, keyOf, key) == Drop(a, keyOf, key) + Drop(b, keyOf, key)
  {
    hide Kept, Drop;
    DropNothing<K, T>(keyOf);
    if a == [] {
      assert a + b == b && [] + Drop(b, keyOf, key) == Drop(b, keyOf, key);
    } else {
      DropOfTwo(a[1..], b, keyOf, key);
      assert (a + b)[1..] == a[1..] + b;
      DropStep(a, keyOf, key);
      DropStep(a + b, keyOf, key);
      Associative(Kept(a[0], keyOf, key), Drop(a[1..], keyOf, key), Drop(b, keyOf, key));
    }
  }

  lemma StillSurvives<K, T>(before: seq<Op<K, T>>, op: Op<K, T>, keyOf: T -> K, i: nat)
    requires i < |before|
    ensures Survives(before, keyOf, i) ==> before[i].Add?
    ensures Survives(before + [op], keyOf, i) <==>
            Survives(before, keyOf, i) && op != Delete(keyOf(before[i].item))
  {
    var ops := before + [op];
    assert ops[|before|] == op;
    assert forall j :: 0 <= j < |before| ==> ops[j] == before[j];
  }

  /** The same for what one operation of the run leaves. */
  lemma SurvivorStep<K, T>(before: seq<Op<K, T>>, op: Op<K, T>, keyOf: T -> K, i: nat)
    requires i < |before|
    ensures Survivor(before + [op], keyOf, i) ==
            if op.Delete? then Drop(Survivor(before, keyOf, i), keyOf, op.key) else Survivor(before, keyOf, i)
  {
    hide Survives;
    StillSurvives(before, op, keyOf, i);
    assert (before + [op])[i] == before[i];
    if Survives(before, keyOf, i) && op.Delete? {
      var item := before[i].item;
      assert [item][1..] == [];
      DropNothing<K, T>(keyOf);
    }
  }

  /** What one more operation does to the survivors. */
  lemma {:induction false} SurvivorsStep<K, T>(before: seq<Op<K, T>>, op: Op<K, T>, keyOf: T -> K, n: nat)
    requires n <= |before|
    ensures Survivors(before + [op], keyOf, n) ==
            if op.Delete? then Drop(Survivors(before, keyOf, n), keyOf, op.key) else Survivors(before, keyOf, n)
  {
    hide Drop, Survives, Survivor;
    DropNothing<K, T>(keyOf);
    if n == 0 {
    } else {
      SurvivorsStep(before, op, keyOf, n - 1);
      SurvivorStep(before, op, keyOf, n - 1);
      if op.Delete? { DropOfTwo(Survivors(before, keyOf, n - 1), Survivor(before, keyOf, n - 1), keyOf, op.key); }
    }
  }

  lemma LastSurvivor<K, T>(before: seq<Op<K, T>>, op: Op<K, T>, keyOf: T -> K)
    ensures Survivor(before + [op], keyOf, |before|) == if op.Add? then [op.item] else []
  {}

  /** A run leaves exactly the added items that were not deleted again, in the order they were added. */
  lemma {:induction false} RunLeavesSurvivors<K, T>(ops: seq<Op<K, T>>, keyOf: T -> K)
    ensures Run(ops, keyOf) == Survivors(ops, keyOf, |ops|)
  {
    hide Drop, Survivor;
    if ops == [] {
    } else {
      var before, op := ops[..|ops| - 1], ops[|ops| - 1];
      RunLeavesSurvivors(before, keyOf);
      SurvivorsStep(before, op, keyOf, |before|);
      LastSurvivor(before, op, keyOf);
      assert ops == before + [op];
    }
  }

  // ---------- the table performs the run ----------

  lemma {:induction false} LookupFinds<K, T>(order: seq<Element<T>>, keyOf: T -> K, key: K, k: nat)
    requires k <= |order| && (k < |order| ==> keyOf(order[k].data) == key)
    requires forall x :: 0 <= x < k ==> keyOf(order[x].data) != key
    ensures Lookup(Data(order), keyOf, key) == if k < |order| then Some(order[k].data) else None
  {
    if k == 0 {
    } else {
      LookupFinds(order[1..], keyOf, key, k - 1);
      assert Data(order)[1..] == Data(order[1..]);
    }
  }

  lemma {:induction false} LookupMisses<K, T>(order: seq<Element<T>>, keyOf: T -> K, key: K)
    requires Lookup(Data(order), keyOf, key).None?
    ensures forall x :: 0 <= x < |order| ==> keyOf(order[x].data) != key
  {
    if order == [] {
    } else {
      assert Data(order)[1..] == Data(order[1..]);
      LookupMisses(order[1..], keyOf, key);
      assert forall x :: 1 <= x < |order| ==> order[x] == order[1..][x - 1];
    }
  }

  lemma {:induction false} DropNone<K, T>(order: seq<Element<T>>, keyOf: T -> K, key: K)
    requires forall x :: 0 <= x < |order| ==> keyOf(order[x].data) != key
    ensures Drop(Data(order), keyOf, key) == Data(order)
  {
    if order == [] {
    } else {
      assert Data(order)[1..] == Data(order[1..]);
      DropNone(order[1..], keyOf, key);
      assert [order[0].data] + Data(order[1..]) == Data(order);
    }
  }

  lemma DropSingle<K, T>(d: T, keyOf: T -> K)
    ensures Drop([d], keyOf, keyOf(d)) == []
  {}

  /** Dropping a key that is filed once is deleting its element. */
  lemma DropOne<K, T>(order: seq<Element<T>>, keyOf: T -> K, k: nat)
    requires k < |order|
    requires forall x, y :: 0 <= x < y < |order| ==> keyOf(order[x].data) != keyOf(order[y].data)
    ensures Drop(Data(order), keyOf, keyOf(order[k].data)) == Data(RemoveAt(order, k))
  {
    hide Drop;
    var key, d := keyOf(order[k].data), order[k].data;
    var a, b := order[..k], order[k + 1..];
    assert Data(order) == Data(a) + ([d] + Data(b)) && Data(RemoveAt(order, k)) == Data(a) + Data(b);
    DropNone(a, keyOf, key);
    DropNone(b, keyOf, key);
    DropOfTwo(Data(a), [d] + Data(b), keyOf, key);
    DropOfTwo([d], Data(b), keyOf, key);
    DropSingle(d, keyOf);
  }

  ghost function Owned<K, T(!new)>(table: HashTable<K, T>): set<object>
    reads table
  {
    {table, table.buckets} + (set i | 0 <= i < |table.order| :: table.order[i])
  }

  method FindKey<K(==), T(!new)>(table: HashTable<K, T>, key: K) returns (e: Element?<T>, ghost k: nat)
    requires table.Valid()
    ensures table.Valid() && k <= |table.order| && e == At(table.order, k)
    ensures Lookup(Data(table.order), table.keyOf, key) == if e == null then None else Some(e.data)
    ensures e != null ==> table.keyOf(e.data) == key
    ensures e == null ==> forall x :: 0 <= x < |table.order| ==> table.keyOf(table.order[x].data) != key
  {
    hide HashTable.Valid, Lookup;
    e := table.Find(key);
    UniqueKeys(table);
    if e == null {
      k := |table.order|;
    } else {
      k :| k < |table.order| && table.order[k] == e;
    }
    LookupFinds(table.order, table.keyOf, key, k);
  }

  method DeleteKey<K(==), T(!new)>(table: HashTable<K, T>, key: K)
    requires table.Valid()
    modifies Owned(table)
    ensures table.Valid() && Data(table.order) == Drop(old(Data(table.order)), table.keyOf, key)
    ensures Owned(table) <= old(Owned(table))
  {
    hide HashTable.Valid, Lookup, Drop;
    var e;
    ghost var k;
    e, k := FindKey(table, key);
    if e == null {
      DropNone(table.order, table.keyOf, key);
    } else {
      UniqueKeys(table);
      DropOne(table.order, table.keyOf, k);
      ghost var j := table.Delete(e);
    }
  }

  method AddItem<K(==), T(!new)>(table: HashTable<K, T>, item: T)
    requires table.Valid() && Lookup(Data(table.order), table.keyOf, table.keyOf(item)).None?
    modifies Owned(table)
    ensures table.Valid() && Data(table.order) == old(Data(table.order)) + [item]
    ensures fresh(Owned(table) - old(Owned(table)))
  {
    hide HashTable.Valid, Lookup;
    LookupMisses(table.order, table.keyOf, table.keyOf(item));
    ghost var members := Members(table.chains);
    var e := new Element<T>(item);
    assert members == Members(table.chains);
    assert table.Valid() && e !in table.order;
    table.Add(e);
  }

  method Perform<K(==), T(!new)>(table: HashTable<K, T>, op: Op<K, T>) returns (result: Option<T>)
    requires table.Valid() && Allowed(Data(table.order), table.keyOf, op)
    modifies Owned(table)
    ensures table.Valid() && Data(table.order) == Next(old(Data(table.order)), table.keyOf, op)
    ensures op.Find? ==> result == Lookup(old(Data(table.order)), table.keyOf, op.key)
    ensures fresh(Owned(table) - old(Owned(table)))
  {
    hide HashTable.Valid, Lookup, Drop;
    result := None;
    match op
    case Add(item) =>
      AddItem(table, item);
    case Delete(key) =>
      DeleteKey(table, key);
    case Find(key) =>
      var e;
      ghost var k;
      e, k := FindKey(table, key);
      if e != null { result := Some(e.data); }
  }

  /** One command further into a legal run. */
  lemma LegalStep<K, T>(ops: seq<Op<K, T>>, i: nat, keyOf: T -> K)
    requires i < |ops| && Legal(ops, keyOf)
    ensures Allowed(Run(ops[..i], keyOf), keyOf, ops[i])
    ensures Run(ops[..i + 1], keyOf) == Next(Run(ops[..i], keyOf), keyOf, ops[i])
  {
    assert ops[..i + 1][..i] == ops[..i];
  }

  /** A whole run from the empty table: its elements and its answers depend on the run alone, not on the hash. */
  method PerformAll<K(==), T(!new)>(table: HashTable<K, T>, ops: seq<Op<K, T>>) returns (results: seq<Option<T>>)
    requires table.Valid() && table.order == [] && Legal(ops, table.keyOf)
    modifies Owned(table)
    ensures table.Valid() && Data(table.order) == Survivors(ops, table.keyOf, |ops|)
    ensures |results| == |ops|
    ensures forall i :: 0 <= i < |ops| && ops[i].Find? ==>
              results[i] == Lookup(Survivors(ops[..i], table.keyOf, i), table.keyOf, ops[i].key)
  {
    hide HashTable.Valid, Lookup, Next, Survivors, Legal, Allowed;
    results := [];
    var i := 0;
    while i < |ops|
      invariant i == |results| <= |ops| && table.Valid() && Data(table.order) == Run(ops[..i], table.keyOf)
      invariant forall j :: 0 <= j < i && ops[j].Find? ==>
                  results[j] == Lookup(Survivors(ops[..j], table.keyOf, j), table.keyOf, ops[j].key)
      invariant fresh(Owned(table) - old(Owned(table)))
    {
      LegalStep(ops, i, table.keyOf);
      RunLeavesSurvivors(ops[..i], table.keyOf);
      var result := Perform(table, ops[i]);
      results := results + [result];
      i := i + 1;
    }
    assert ops[..i] == ops;
    RunLeavesSurvivors(ops, table.keyOf);
  }
}

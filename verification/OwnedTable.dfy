/** A hash table together with the set of objects it may touch, so that many can stand side by side. */
module OwnedTable {
  import opened BucketChains
  import opened Elements
  import opened HashTable

  /** The hash table field of a chirc_user_t or chirc_channel_t. */
  class Owner<T(!new)> {
    const table: HashTable<nat, T>
    ghost var repr: set<object>

    /** What the table consists of. */
    ghost function Foot(): set<object>
      reads table
    {
      {table, table.buckets} + (set e | e in table.order) + (set e | e in Members(table.chains))
    }

    ghost predicate Valid()
      reads this, repr
    {
      this in repr && table in repr && Foot() <= repr && table.Valid()
    }

    constructor (keyOf: T -> nat, hash: nat -> nat)
      ensures Valid() && table.order == [] && table.keyOf == keyOf && fresh(repr)
    {
      table := new HashTable<nat, T>(keyOf, hash);
      new;
      repr := {this, table, table.buckets};
    }

    method Find(key: nat) returns (e: Element?<T>)
      requires Valid()
      ensures Valid()
      ensures e != null ==> e in table.order && table.keyOf(e.data) == key
      ensures e == null ==> forall x :: 0 <= x < |table.order| ==> table.keyOf(table.order[x].data) != key
    {
      hide HashTable.Valid;
      e := table.Find(key);
    }

    method Add(e: Element<T>)
      requires Valid() && e !in repr
      requires forall x :: 0 <= x < |table.order| ==> table.keyOf(table.order[x].data) != table.keyOf(e.data)
      modifies repr, e
      ensures Valid() && fresh(repr - old(repr) - {e})
      ensures table.order == old(table.order) + [e]
    {
      hide HashTable.Valid;
      table.Add(e);
      Reach(table);
      repr := repr + {e, table.buckets};
    }

    method Delete(e: Element<T>) returns (ghost k: nat)
      requires Valid() && e in table.order
      modifies repr
      ensures Valid() && repr == old(repr)
      ensures k < old(|table.order|) && old(table.order)[k] == e && table.order == RemoveAt(old(table.order), k)
    {
      hide HashTable.Valid;
      k := table.Delete(e);
      Reach(table);
    }

    method Count() returns (n: nat)
      requires Valid()
      ensures n == |table.order|
    {
      n := table.Count();
    }
  }

  /** All tables are valid, share nothing, lie within repr, and have the given app orders. */
  ghost predicate AllValid<T(!new)>(owners: seq<Owner<T>>, orders: seq<seq<Element<T>>>, repr: set<object>)
    reads owners, repr
  {
    && |orders| == |owners|
    && (forall i :: 0 <= i < |owners| ==> owners[i] in repr && owners[i].repr <= repr)
    && (forall i :: 0 <= i < |owners| ==> owners[i].Valid())
    && (forall i {:trigger orders[i]} :: 0 <= i < |owners| ==> owners[i].table.order == orders[i])
    && (forall i, j :: 0 <= i < j < |owners| ==> owners[i].repr !! owners[j].repr)
  }

  lemma RootedIn<T(!new)>(owner: Owner<T>)
    requires owner.Valid()
    ensures owner in owner.repr && owner.table in owner.repr
  {}

  lemma Rooted<T(!new)>(owners: seq<Owner<T>>, orders: seq<seq<Element<T>>>, repr: set<object>)
    requires AllValid(owners, orders, repr)
    ensures forall i {:trigger owners[i]} :: 0 <= i < |owners| ==>
              owners[i] in owners[i].repr && owners[i].table in owners[i].repr && owners[i].table.order == orders[i]
  {
    hide HashTable.Valid;
  }

  /** n empty tables. */
  method NewOwners<T(!new)>(n: nat, keyOf: T -> nat, hash: nat -> nat)
    returns (owners: seq<Owner<T>>, ghost repr: set<object>)
    ensures |owners| == n && fresh(repr) && AllValid(owners, seq(n, _ => []), repr)
    ensures forall i :: 0 <= i < n ==> owners[i].table.keyOf == keyOf
  {
    hide Owner.Valid;
    owners, repr := [], {};
    while |owners| < n
      invariant |owners| <= n && fresh(repr) && AllValid(owners, seq(|owners|, _ => []), repr)
      invariant forall i :: 0 <= i < |owners| ==> owners[i].table.keyOf == keyOf
    {
      ghost var before := repr;
      Rooted(owners, seq(|owners|, _ => []), repr);
      var owner := new Owner<T>(keyOf, hash);
      assert forall i :: 0 <= i < |owners| ==> owners[i].Valid();
      owners := owners + [owner];
      RootedIn(owner);
      repr := repr + owner.repr;
    }
  }

  lemma Within<T(!new)>(owners: seq<Owner<T>>, orders: seq<seq<Element<T>>>, repr: set<object>)
    requires AllValid(owners, orders, repr)
    ensures forall i {:trigger owners[i]} :: 0 <= i < |owners| ==> owners[i] in repr && owners[i].repr <= repr
  {}

  /** HASH_ADD to one of many tables. */
  method AddTo<T(!new)>(owners: seq<Owner<T>>, j: nat, e: Element<T>, ghost orders: seq<seq<Element<T>>>,
                        ghost repr: set<object>)
    returns (ghost repr': set<object>)
    requires AllValid(owners, orders, repr) && j < |owners| && e !in repr
    requires forall x :: 0 <= x < |orders[j]| ==>
               owners[j].table.keyOf(orders[j][x].data) != owners[j].table.keyOf(e.data)
    modifies owners[j].repr, e
    ensures AllValid(owners, orders[j := orders[j] + [e]], repr')
    ensures fresh(repr' - repr - {e})
  {
    hide Owner.Valid;
    Rooted(owners, orders, repr);
    owners[j].Add(e);
    repr' := repr + owners[j].repr;
    assert forall i :: 0 <= i < |owners| && i != j ==> owners[i].repr == old(owners[i].repr) && owners[i].Valid();
  }

  /** HASH_DELETE from one of many tables. */
  method DeleteFrom<T(!new)>(owners: seq<Owner<T>>, j: nat, e: Element<T>, ghost orders: seq<seq<Element<T>>>,
                             ghost repr: set<object>)
    returns (ghost k: nat)
    requires AllValid(owners, orders, repr) && j < |owners| && e in orders[j]
    modifies owners[j].repr
    ensures k < |orders[j]| && orders[j][k] == e
    ensures AllValid(owners, orders[j := RemoveAt(orders[j], k)], repr)
  {
    hide Owner.Valid;
    Rooted(owners, orders, repr);
    k := owners[j].Delete(e);
    assert forall i :: 0 <= i < |owners| && i != j ==> owners[i].repr == old(owners[i].repr) && owners[i].Valid();
  }
}

/** What the cache of lru_cache/cache.c computes: runs of look-ups and inserts, and the recency list. */
module Recency {
  import opened Options

  const KEY_MAX_LENGTH: nat := 32

  /** The key an entry is filed under: strnlen cuts it off. */
  function StoredKey(key: string): string {
    if |key| <= KEY_MAX_LENGTH then key else key[..KEY_MAX_LENGTH]
  }

  datatype Entry<V> = Entry(key: string, data: V)

  datatype Op<V> = Lookup(key: string) | Insert(key: string, data: V)

  /** Where key is filed, or |items|. */
  function Place<V>(items: seq<Entry<V>>, key: string): (k: nat)
    ensures k <= |items| && (k < |items| ==> StoredKey(items[k].key) == key)
    ensures forall i :: 0 <= i < k ==> StoredKey(items[i].key) != key
  {
    if items == [] || StoredKey(items[0].key) == key then 0
    else
      assert forall i :: 1 <= i < |items| ==> items[i] == items[1..][i - 1];
      Place(items[1..], key) + 1
  }

  function Without<T>(s: seq<T>, k: nat): seq<T> { if k < |s| then s[..k] + s[k + 1..] else s }

  function AfterLookup<V>(items: seq<Entry<V>>, key: string): seq<Entry<V>> {
    var k := Place(items, key);
    if k < |items| then Without(items, k) + [items[k]] else items
  }

  function Found<V>(items: seq<Entry<V>>, key: string): Option<V> {
    var k := Place(items, key);
    if k < |items| then Some(items[k].data) else None
  }

  function AfterInsert<V>(items: seq<Entry<V>>, e: Entry<V>, maxEntries: nat): seq<Entry<V>> {
    var all := items + [e];
    if |all| >= maxEntries then all[1..] else all
  }

  function Next<V>(items: seq<Entry<V>>, op: Op<V>, maxEntries: nat): seq<Entry<V>> {
    match op
    case Lookup(key) => AfterLookup(items, key)
    case Insert(key, data) => AfterInsert(items, Entry(key, data), maxEntries)
  }

  function Run<V>(items: seq<Entry<V>>, ops: seq<Op<V>>, maxEntries: nat): seq<Entry<V>> {
    if ops == [] then items
    else Next(Run(items, ops[..|ops| - 1], maxEntries), ops[|ops| - 1], maxEntries)
  }

  /** Only absent keys are inserted. */
  predicate Allowed<V>(items: seq<Entry<V>>, op: Op<V>) {
    op.Insert? ==> Place(items, StoredKey(op.key)) == |items|
  }

  predicate Legal<V>(items: seq<Entry<V>>, ops: seq<Op<V>>, maxEntries: nat) {
    forall i :: 0 <= i < |ops| ==> Allowed(Run(items, ops[..i], maxEntries), ops[i])
  }

  // ---------- the recency list ----------

  /** Where x first is in s, or |s|. */
  function IndexIn(s: seq<string>, x: string): (k: nat)
    ensures k <= |s| && (k < |s| ==> s[k] == x)
    ensures forall i :: 0 <= i < k ==> s[i] != x
  {
    if s == [] || s[0] == x then 0
    else
      assert forall i :: 1 <= i < |s| ==> s[i] == s[1..][i - 1];
      IndexIn(s[1..], x) + 1
  }

  /** Moves x to the end, or puts it there. */
  function Touch(s: seq<string>, x: string): seq<string> { Without(s, IndexIn(s, x)) + [x] }

  /** The keys of a log, each once, in the order of their last occurrence. */
  function Recent(log: seq<string>): seq<string> {
    if log == [] then [] else Touch(Recent(log[..|log| - 1]), log[|log| - 1])
  }

  function LastOf<T>(s: seq<T>, m: nat): seq<T> { if |s| <= m then s else s[|s| - m..] }

  /** The most entries a cache ever holds between calls. */
  function Room(maxEntries: nat): nat { if maxEntries == 0 then 0 else maxEntries - 1 }

  function Keys<V>(items: seq<Entry<V>>): (keys: seq<string>)
    ensures |keys| == |items| && forall i :: 0 <= i < |items| ==> keys[i] == StoredKey(items[i].key)
  {
    seq(|items|, i requires 0 <= i < |items| => StoredKey(items[i].key))
  }

  /** What an operation touches: an inserted key, or one that is found. */
  function Touched<V>(items: seq<Entry<V>>, op: Op<V>): seq<string> {
    match op
    case Lookup(key) => if Found(items, key).Some? then [key] else []
    case Insert(key, _) => [StoredKey(key)]
  }

  function Log<V>(ops: seq<Op<V>>, maxEntries: nat): seq<string> {
    if ops == [] then []
    else
      var before := ops[..|ops| - 1];
      Log(before, maxEntries) + Touched(Run([], before, maxEntries), ops[|ops| - 1])
  }

  ghost predicate Distinct(s: seq<string>) { forall i, j :: 0 <= i < j < |s| ==> s[i] != s[j] }

  lemma WithoutMembers(s: seq<string>, k: nat, y: string)
    requires Distinct(s) && k < |s|
    ensures y in Without(s, k) <==> y in s && y != s[k]
  {
    var w := Without(s, k);
    assert forall j :: 0 <= j < |w| ==> w[j] == s[if j < k then j else j + 1];
    if y in s && y != s[k] {
      var i :| 0 <= i < |s| && s[i] == y;
      assert w[if i < k then i else i - 1] == y;
    }
  }

  lemma WithoutDistinct(s: seq<string>, k: nat)
    requires Distinct(s)
    ensures Distinct(Without(s, k))
  {}

  lemma TouchDistinct(s: seq<string>, x: string)
    requires Distinct(s)
    ensures Distinct(Touch(s, x))
    ensures forall y :: y in Touch(s, x) <==> y == x || y in s
  {
    var k := IndexIn(s, x);
    var w := Without(s, k);
    WithoutDistinct(s, k);
    forall y ensures y in w <==> y in s && y != x {
      if k < |s| { WithoutMembers(s, k, y); }
    }
    hide Without, IndexIn;
    assert x !in w && Touch(s, x) == w + [x];
  }

  lemma {:induction false} RecentDistinct(log: seq<string>)
    ensures Distinct(Recent(log))
    ensures forall y :: y in Recent(log) <==> y in log
  {
    if log == [] {
    } else {
      var before, x := log[..|log| - 1], log[|log| - 1];
      RecentDistinct(before);
      TouchDistinct(Recent(before), x);
      assert log == before + [x];
    }
  }

  lemma TailIndex(s: seq<string>, x: string, d: nat)
    requires Distinct(s) && d <= |s|
    ensures var k := IndexIn(s, x);
            && IndexIn(s[d..], x) == (if k < d then |s| - d else k - d)
            && (k < d ==> Without(s, k)[d - 1..] == s[d..])
  {
    hide IndexIn;
    var k, i := IndexIn(s, x), IndexIn(s[d..], x);
    assert i < |s| - d ==> s[d + i] == x;
    assert d <= k < |s| ==> s[d..][k - d] == x;
  }

  /** Touching changes a list in front of its last d and behind it separately. */
  lemma TouchTail(s: seq<string>, x: string, d: nat) returns (p: seq<string>)
    requires Distinct(s) && d <= |s|
    ensures Touch(s, x) == p + Touch(s[d..], x) && |Touch(s[d..], x)| >= |s| - d
  {
    hide IndexIn;
    var k := IndexIn(s, x);
    TailIndex(s, x, d);
    p := if k < d then Without(s, k)[..d - 1] else s[..d];
  }

  lemma LastBehind(p: seq<string>, w: seq<string>, m: nat)
    requires m <= |w|
    ensures LastOf(p + w, m) == LastOf(w, m)
  {}

  /** Touching, then keeping the last m, needs to know no more than the last m. */
  lemma TouchLast(s: seq<string>, x: string, m: nat)
    requires Distinct(s)
    ensures LastOf(Touch(s, x), m) == LastOf(Touch(LastOf(s, m), x), m)
  {
    hide IndexIn, Touch, Without;
    if |s| > m {
      var p := TouchTail(s, x, |s| - m);
      LastBehind(p, Touch(s[|s| - m..], x), m);
    }
  }

  lemma PlaceIsIndex<V>(items: seq<Entry<V>>, key: string)
    ensures Place(items, key) == IndexIn(Keys(items), key)
  {
    var k, i := Place(items, key), IndexIn(Keys(items), key);
    assert i < |items| ==> Keys(items)[i] == key;
    assert k < |items| ==> Keys(items)[k] == key;
  }

  lemma KeysOfTwo<V>(a: seq<Entry<V>>, b: seq<Entry<V>>)
    ensures Keys(a + b) == Keys(a) + Keys(b)
  {}

  lemma KeysMoved<V>(items: seq<Entry<V>>, k: nat)
    requires k < |items|
    ensures Keys(Without(items, k) + [items[k]]) == Without(Keys(items), k) + [StoredKey(items[k].key)]
  {
    hide StoredKey;
    KeysOfTwo(items[..k], items[k + 1..]);
    KeysOfTwo(Without(items, k), [items[k]]);
    assert Keys(items[..k]) == Keys(items)[..k] && Keys(items[k + 1..]) == Keys(items)[k + 1..];
  }

  lemma KeysAdd<V>(items: seq<Entry<V>>, e: Entry<V>)
    ensures Keys(items + [e]) == Keys(items) + [StoredKey(e.key)]
    ensures Keys((items + [e])[1..]) == (Keys(items) + [StoredKey(e.key)])[1..]
  {}

  lemma TouchKeys<V>(items: seq<Entry<V>>, key: string)
    ensures Touch(Keys(items), key) ==
            if Place(items, key) < |items| then Keys(AfterLookup(items, key)) else Keys(items) + [key]
  {
    hide Place, IndexIn, Keys;
    PlaceIsIndex(items, key);
    var k := Place(items, key);
    if k < |items| { KeysMoved(items, k); }
  }

  /** What an insert leaves, when there was room for one more. */
  lemma InsertKeys<V>(items: seq<Entry<V>>, e: Entry<V>, maxEntries: nat)
    requires |items| <= Room(maxEntries)
    ensures var next := AfterInsert(items, e, maxEntries);
            && |next| <= Room(maxEntries)
            && Keys(next) == LastOf(Keys(items) + [StoredKey(e.key)], Room(maxEntries))
  {
    hide Keys;
    KeysAdd(items, e);
  }

  lemma SameCount<V>(items: seq<Entry<V>>, key: string)
    ensures |AfterLookup(items, key)| == |items|
  {
    hide Place;
  }

  lemma AfterMiss<V>(items: seq<Entry<V>>, key: string)
    ensures Place(items, key) == |items| ==> AfterLookup(items, key) == items
  {}

  /** One operation on the keys alone. */
  lemma StepTouches<V>(items: seq<Entry<V>>, op: Op<V>, maxEntries: nat)
    requires Allowed(items, op) && |items| <= Room(maxEntries)
    ensures var t := Touched(items, op);
            Keys(Next(items, op, maxEntries)) ==
            if t == [] then Keys(items) else LastOf(Touch(Keys(items), t[0]), Room(maxEntries))
    ensures |Touched(items, op)| <= 1 && |Next(items, op, maxEntries)| <= Room(maxEntries)
  {
    hide Place, Keys, Touch, AfterInsert, AfterLookup;
    match op
    case Lookup(key) =>
      TouchKeys(items, key);
      SameCount(items, key);
      AfterMiss(items, key);
    case Insert(key, data) =>
      TouchKeys(items, StoredKey(key));
      InsertKeys(items, Entry(key, data), maxEntries);
  }

  lemma NothingRecent<V>()
    ensures Recent([]) == [] && Keys<V>([]) == []
  {}

  lemma RecentMore(log: seq<string>, x: string)
    ensures Recent(log + [x]) == Touch(Recent(log), x)
  {
    assert (log + [x])[..|log|] == log;
  }

  /** After any legal run the cache holds the keys most recently inserted or found, least recent first:
      the last maxEntries - 1 of the recency list, and what is dropped is always its oldest. */
  lemma {:induction false} HoldsMostRecent<V>(ops: seq<Op<V>>, maxEntries: nat)
    requires Legal([], ops, maxEntries)
    ensures Keys(Run([], ops, maxEntries)) == LastOf(Recent(Log(ops, maxEntries)), Room(maxEntries))
    ensures |Run([], ops, maxEntries)| <= Room(maxEntries)
  {
    hide Keys, Recent, Touched, Next, Allowed, Touch;
    NothingRecent<V>();
    if ops == [] {
    } else {
      var before, op := ops[..|ops| - 1], ops[|ops| - 1];
      var items, log := Run([], before, maxEntries), Log(before, maxEntries);
      assert forall i :: 0 <= i < |before| ==> before[..i] == ops[..i];
      HoldsMostRecent(before, maxEntries);
      StepTouches(items, op, maxEntries);
      var t := Touched(items, op);
      if t == [] {
        assert log + t == log;
      } else {
        assert t == [t[0]];
        RecentMore(log, t[0]);
        RecentDistinct(log);
        TouchLast(Recent(log), t[0], Room(maxEntries));
      }
    }
  }

  // ---------- what a look-up finds ----------

  /** The data last inserted under key. */
  function LastData<V>(ops: seq<Op<V>>, key: string): Option<V> {
    if ops == [] then None
    else
      var op := ops[|ops| - 1];
      if op.Insert? && StoredKey(op.key) == key then Some(op.data) else LastData(ops[..|ops| - 1], key)
  }

  /** An operation brings in no entry but the inserted one. */
  lemma NextHolds<V>(items: seq<Entry<V>>, op: Op<V>, maxEntries: nat, e: Entry<V>)
    requires e in Next(items, op, maxEntries) && Allowed(items, op)
    ensures (op.Insert? && e == Entry(op.key, op.data)) ||
            (e in items && (op.Insert? ==> StoredKey(e.key) != StoredKey(op.key)))
  {
    hide StoredKey;
  }

  lemma {:induction false} HoldsLatestData<V>(ops: seq<Op<V>>, maxEntries: nat)
    requires Legal([], ops, maxEntries)
    ensures forall i :: 0 <= i < |Run([], ops, maxEntries)| ==>
              var e := Run([], ops, maxEntries)[i]; LastData(ops, StoredKey(e.key)) == Some(e.data)
  {
    hide StoredKey, Place;
    if ops == [] {
    } else {
      var before, op := ops[..|ops| - 1], ops[|ops| - 1];
      assert forall i :: 0 <= i < |before| ==> before[..i] == ops[..i];
      HoldsLatestData(before, maxEntries);
      var items := Run([], before, maxEntries);
      forall e | e in Run([], ops, maxEntries) ensures LastData(ops, StoredKey(e.key)) == Some(e.data) {
        NextHolds(items, op, maxEntries, e);
      }
    }
  }

  /** After any legal run a key is found exactly when it is among the last maxEntries - 1 that were touched,
      and then with the data last inserted under it. */
  lemma FindsMostRecent<V>(ops: seq<Op<V>>, maxEntries: nat, key: string)
    requires Legal([], ops, maxEntries)
    ensures Found(Run([], ops, maxEntries), key) ==
            if key in LastOf(Recent(Log(ops, maxEntries)), Room(maxEntries)) then LastData(ops, key) else None
  {
    hide Run, StoredKey, Recent, Log, LastOf;
    var items := Run([], ops, maxEntries);
    HoldsMostRecent(ops, maxEntries);
    HoldsLatestData(ops, maxEntries);
    var k := Place(items, key);
    assert k < |items| ==> Keys(items)[k] == key;
  }

  /** A key longer than the limit is never found, not even right after its insertion. */
  lemma LongKeysAreLost<V>(items: seq<Entry<V>>, key: string)
    requires |key| > KEY_MAX_LENGTH
    ensures Found(items, key) == None
  {}

  lemma AbsentEverywhere<V>(items: seq<Entry<V>>, key: string)
    requires Place(items, key) == |items|
    ensures forall e :: e in items ==> StoredKey(e.key) != key
  {}

  /** What has just been inserted is found exactly when its key is short enough and the cache keeps anything. */
  lemma InsertedIsFound<V>(items: seq<Entry<V>>, key: string, data: V, maxEntries: nat)
    requires Allowed(items, Insert(key, data)) && |items| <= Room(maxEntries)
    ensures Found(AfterInsert(items, Entry(key, data), maxEntries), key) == Some(data) <==>
            |key| <= KEY_MAX_LENGTH && maxEntries > 1
  {
    var after := AfterInsert(items, Entry(key, data), maxEntries);
    var k := Place(after, key);
    if |key| > KEY_MAX_LENGTH {
      LongKeysAreLost(after, key);
    } else if maxEntries > 1 {
      AbsentEverywhere(items, key);
      assert after[|after| - 1] == Entry(key, data);
      assert forall x :: 0 <= x < |after| - 1 ==> after[x] in items;
    }
  }

  // ---------- a client that inserts what it does not find ----------

  function Fetch<V>(items: seq<Entry<V>>, key: string, data: V, maxEntries: nat): seq<Entry<V>> {
    Next(items, if Found(items, key).Some? then Lookup(key) else Insert(key, data), maxEntries)
  }

  lemma FetchTouches<V>(items: seq<Entry<V>>, key: string, data: V, maxEntries: nat)
    requires |key| <= KEY_MAX_LENGTH && |items| <= Room(maxEntries)
    ensures var next := Fetch(items, key, data, maxEntries);
            |next| <= Room(maxEntries) && Keys(next) == LastOf(Touch(Keys(items), key), Room(maxEntries))
  {
    hide Keys, Touch, LastOf, Next, Place;
    StepTouches(items, if Found(items, key).Some? then Lookup(key) else Insert(key, data), maxEntries);
  }

  function FetchAll<V>(keys: seq<string>, source: string -> V, maxEntries: nat): seq<Entry<V>> {
    if keys == [] then []
    else
      var key := keys[|keys| - 1];
      Fetch(FetchAll(keys[..|keys| - 1], source, maxEntries), key, source(key), maxEntries)
  }

  /** Such a client always has the keys it asked for last. */
  lemma {:induction false} FetchedMostRecent<V>(keys: seq<string>, source: string -> V, maxEntries: nat)
    requires forall i :: 0 <= i < |keys| ==> |keys[i]| <= KEY_MAX_LENGTH
    ensures Keys(FetchAll(keys, source, maxEntries)) == LastOf(Recent(keys), Room(maxEntries))
    ensures |FetchAll(keys, source, maxEntries)| <= Room(maxEntries)
  {
    hide Keys, Recent, Fetch, Touch;
    NothingRecent<V>();
    if keys == [] {
    } else {
      var before, key := keys[..|keys| - 1], keys[|keys| - 1];
      FetchedMostRecent(before, source, maxEntries);
      FetchTouches(FetchAll(before, source, maxEntries), key, source(key), maxEntries);
      assert keys == before + [key];
      RecentMore(before, key);
      RecentDistinct(before);
      TouchLast(Recent(before), key, Room(maxEntries));
    }
  }

  /** So a larger cache holds all that a smaller one does, in the same order. */
  lemma LargerHoldsMore<V>(keys: seq<string>, source: string -> V, small: nat, large: nat)
    requires forall i :: 0 <= i < |keys| ==> |keys[i]| <= KEY_MAX_LENGTH
    requires small <= large
    ensures Keys(FetchAll(keys, source, small)) == LastOf(Keys(FetchAll(keys, source, large)), Room(small))
  {
    hide Keys, Recent, FetchAll;
    FetchedMostRecent(keys, source, small);
    FetchedMostRecent(keys, source, large);
  }
}

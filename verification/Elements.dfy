/** Application structs with intrusive links, and ghost views of the lists they form. */
module Elements {

  /** A struct that embeds the links of utlist.h and a uthash handle. prev and next are the list
      (or app-order) links, hhPrev and hhNext the links of the bucket chain. */
  class Element<T> {
    const data: T
    var prev: Element?<T>
    var next: Element?<T>
    var hhPrev: Element?<T>
    var hhNext: Element?<T>
    var hashv: nat

    constructor (data: T)
      ensures this.data == data
    {
      this.data := data;
      prev, next, hhPrev, hhNext, hashv := null, null, null, null, 0;
    }
  }

  ghost predicate NoDup<T>(s: seq<T>) {
    forall i, j :: 0 <= i < j < |s| ==> s[i] != s[j]
  }

  ghost function Elems<T>(s: seq<T>): set<T> { set x | 0 <= x < |s| :: s[x] }

  lemma {:induction false} CardOfNoDup<T>(s: seq<T>)
    requires NoDup(s)
    ensures |Elems(s)| == |s|
  {
    if s == [] {
    } else {
      var m := |s| - 1;
      CardOfNoDup(s[..m]);
      assert Elems(s) == Elems(s[..m]) + {s[m]};
    }
  }

  /** s without its element at k. */
  ghost function RemoveAt<T>(s: seq<T>, k: nat): seq<T>
    requires k < |s|
  {
    s[..k] + s[k + 1..]
  }

  /** The structs of a list, without their links. */
  ghost function Data<T>(s: seq<Element<T>>): seq<T> {
    seq(|s|, i requires 0 <= i < |s| => s[i].data)
  }

  /** s[k], or NULL past the end. */
  ghost function At<T>(s: seq<Element<T>>, k: nat): Element?<T> {
    if k < |s| then s[k] else null
  }

  ghost function First<T>(s: seq<Element<T>>): Element?<T> { At(s, 0) }

  ghost function Last<T>(s: seq<Element<T>>): Element?<T> { if s == [] then null else s[|s| - 1] }

  /** The neighbours of s[i], with end after the last element and start before the first. */
  ghost function After<T>(s: seq<Element<T>>, i: int, end: Element?<T>): Element?<T> {
    if -1 <= i < |s| - 1 then s[i + 1] else end
  }

  ghost function Before<T>(s: seq<Element<T>>, i: int, start: Element?<T>): Element?<T> {
    if 0 < i <= |s| then s[i - 1] else start
  }

  /** What RemoveAt does to places, neighbours and ends. */
  lemma RemovedAt<T>(s: seq<T>, k: nat)
    requires k < |s|
    ensures |RemoveAt(s, k)| == |s| - 1 && (NoDup(s) ==> NoDup(RemoveAt(s, k)))
    ensures forall y :: 0 <= y < |s| - 1 ==> RemoveAt(s, k)[y] == s[if y < k then y else y + 1]
  {}

  lemma RemovedNeighbours<T>(s: seq<Element<T>>, k: nat, y: nat)
    requires k < |s| && y < |s| - 1
    ensures var z := if y < k then y else y + 1;
            && After(RemoveAt(s, k), y, null) == After(s, if z == k - 1 then k else z, null)
            && Before(RemoveAt(s, k), y, null) == Before(s, if z == k + 1 then k else z, null)
  {
    RemovedAt(s, k);
    hide RemoveAt;
  }

  lemma RemovedEnds<T>(s: seq<Element<T>>, k: nat)
    requires k < |s|
    ensures First(RemoveAt(s, k)) == if k == 0 then After(s, k, null) else First(s)
    ensures Last(RemoveAt(s, k)) == if k == |s| - 1 then Before(s, k, null) else Last(s)
  {
    RemovedAt(s, k);
    hide RemoveAt;
  }

  /** Following next from s[i] walks s; the last element points to end. */
  ghost predicate NextLinked<T>(s: seq<Element<T>>, end: Element?<T>)
    reads s`next
  {
    forall i {:trigger s[i].next} :: 0 <= i < |s| ==> s[i].next == After(s, i, end)
  }

  /** prev is the inverse of next; the first element points to start. */
  ghost predicate PrevLinked<T>(s: seq<Element<T>>, start: Element?<T>)
    reads s`prev
  {
    forall i {:trigger s[i].prev} :: 0 <= i < |s| ==> s[i].prev == Before(s, i, start)
  }

  /** Positions of the elements of s, a witness that they are distinct. */
  ghost predicate Indexed<T>(s: seq<Element<T>>, ix: map<Element<T>, nat>) {
    forall t :: 0 <= t < |s| ==> s[t] in ix && ix[s[t]] == t
  }

  lemma {:induction false} IndexOf<T>(s: seq<Element<T>>) returns (ix: map<Element<T>, nat>)
    requires NoDup(s)
    ensures Indexed(s, ix)
    ensures forall n :: n in ix ==> n in s
  {
    if s == [] {
      ix := map[];
    } else {
      var m := |s| - 1;
      ix := IndexOf(s[..m]);
      assert s[m] !in ix;
      ix := ix[s[m] := m];
    }
  }
}

/** The application-order list of uthash.h: doubly linked, NULL at both ends, with a tail pointer. */
module AppOrder {
  import opened Elements

  ghost predicate AppOk<T>(order: seq<Element<T>>, head: Element?<T>, tail: Element?<T>)
    reads order`prev, order`next
  {
    NoDup(order) && head == First(order) && tail == Last(order) && NextLinked(order, null) && PrevLinked(order, null)
  }

  /** HASH_APPEND_LIST. */
  method Append<T>(e: Element<T>, head: Element<T>, tail0: Element<T>, ghost order: seq<Element<T>>)
    returns (tail: Element<T>)
    requires AppOk(order, head, tail0) && e !in order
    modifies e`prev, e`next, tail0`next
    ensures AppOk(order + [e], head, tail)
  {
    e.next := null;
    e.prev := tail0;
    tail0.next := e;
    tail := e;
  }

  /** All elements of order but the one at x are linked as they are without it. */
  ghost predicate Bypassed<T>(order: seq<Element<T>>, x: nat)
    requires x < |order|
    reads order`prev, order`next
  {
    && (forall z {:trigger order[z].next} :: 0 <= z < |order| && z != x ==>
          order[z].next == After(order, if z == x - 1 then x else z, null))
    && (forall z {:trigger order[z].prev} :: 0 <= z < |order| && z != x ==>
          order[z].prev == Before(order, if z == x + 1 then x else z, null))
  }

  lemma BypassedOrder<T>(order: seq<Element<T>>, x: nat, head: Element?<T>, tail: Element?<T>)
    requires x < |order| && NoDup(order) && Bypassed(order, x)
    requires head == if x == 0 then After(order, x, null) else First(order)
    requires tail == if x == |order| - 1 then Before(order, x, null) else Last(order)
    ensures AppOk(RemoveAt(order, x), head, tail) && head == First(RemoveAt(order, x))
  {
    hide RemoveAt, Before, After, NoDup, First, Last;
    var rest := RemoveAt(order, x);
    RemovedAt(order, x);
    RemovedEnds(order, x);
    forall y | 0 <= y < |rest|
      ensures rest[y].next == After(rest, y, null) && rest[y].prev == Before(rest, y, null)
    {
      RemovedNeighbours(order, x, y);
    }
  }

  /** The app-order half of HASH_DELETE_HH, when e is not the only element. */
  method Remove<T>(e: Element<T>, head0: Element<T>, tail0: Element<T>, ghost order: seq<Element<T>>, ghost x: nat)
    returns (head: Element<T>, tail: Element<T>)
    requires AppOk(order, head0, tail0) && x < |order| && order[x] == e && |order| > 1
    modifies order`prev, order`next
    ensures AppOk(RemoveAt(order, x), head, tail) && head == First(RemoveAt(order, x))
  {
    hide RemoveAt;
    head, tail := head0, tail0;
    assert x > 0 ==> order[0] != e;
    if e == tail { tail := e.prev; }
    assert tail == if x == |order| - 1 then Before(order, x, null) else Last(order);
    if e.prev != null {
      e.prev.next := e.next;
    } else {
      head := e.next;
    }
    if e.next != null { e.next.prev := e.prev; }
    BypassedOrder(order, x, head, tail);
  }
}

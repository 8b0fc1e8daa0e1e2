/** The in-place list sorts of utlist.h. The three macros repeat one merge loop; it is written
    here once, with the two things in which they differ as parameters: whether prev is kept
    (DL, CDL) and which element closes a ring (CDL; NULL for LL and DL). */
module LinkedListSort {
  import opened Arithmetic
  import opened StableSort
  import opened Elements

  /** What a pass over s has put out so far: elements before p in its run and before q,
      linked from list to tail, the tail's own link still open. */
  ghost predicate Emitted<T>(out: seq<Element<T>>, ix: map<Element<T>, nat>, i: nat, mid: nat, k: nat,
                             list: Element?<T>, tail: Element?<T>, doubly: bool)
    reads out`prev, out`next
  {
    && list == First(out) && tail == Last(out) && NoDup(out)
    && (forall x :: 0 <= x < |out| ==> out[x] in ix && (ix[out[x]] < i || mid <= ix[out[x]] < k))
    && (forall x {:trigger out[x].next} :: 0 <= x < |out| - 1 ==> out[x].next == After(out, x, null))
    && (doubly ==> PrevLinked(out, null))
  }

  /** The elements of s still waiting keep their links. */
  ghost predicate Waiting<T>(s: seq<Element<T>>, i: nat, mid: nat, k: nat, ring: Element?<T>)
    reads s`next
  {
    forall t {:trigger s[t].next} :: (i <= t < mid || k <= t) && t < |s| ==> s[t].next == After(s, t, ring)
  }

  /** Steps along next; the ring's old head ends the list. */
  method Advance<T>(p: Element<T>, ring: Element?<T>) returns (r: Element?<T>)
    ensures r == if p.next == ring then null else p.next
  {
    r := p.next;
    if r == ring { r := null; }
  }

  /** The four-way choice in the merge loop: takes the next element n off one of the two runs. It compares
      only when both runs have elements left. */
  method TakeNext<T>(p0: Element?<T>, q0: Element?<T>, psize0: nat, qsize0: nat, cmp: Comparator<T>, ring: Element?<T>,
                     ghost s: seq<Element<T>>, ghost i0: nat, ghost mid: nat, ghost k0: nat, ghost end: nat)
    returns (n: Element<T>, p: Element?<T>, q: Element?<T>, psize: nat, qsize: nat, ghost i: nat, ghost k: nat,
             ghost compared: nat)
    requires NoDup(s) && (ring == null || ring == First(s))
    requires i0 <= mid <= k0 <= end <= |s| && end == Min(k0 + qsize0, |s|)
    requires psize0 == mid - i0 && (psize0 > 0 ==> p0 == s[i0]) && q0 == At(s, k0)
    requires Waiting(s, i0, mid, k0, ring)
    requires psize0 > 0 || (qsize0 > 0 && q0 != null)
    ensures (i == i0 + 1 && k == k0 && i <= mid && n == s[i0]) || (i == i0 && k == k0 + 1 && k <= end && n == s[k0])
    ensures psize == mid - i && psize + qsize == psize0 + qsize0 - 1
    ensures psize > 0 ==> p == s[i]
    ensures q == At(s, k)
    ensures qsize0 - qsize == k - k0
    ensures Merge(s[i0..mid], s[k0..end], cmp) == [n] + Merge(s[i..mid], s[k..end], cmp)
    ensures compared == if i0 < mid && k0 < end then 1 else 0
  {
    compared := 0;
    p, q, psize, qsize := p0, q0, psize0, qsize0;
    i, k := i0, k0;
    assert ring != null ==> forall t :: 0 < t < |s| ==> s[t] != ring;
    ghost var ps, qs := s[i0..mid], s[k0..end];
    assert psize0 > 0 ==> ps[0] == s[i0] && ps[1..] == s[i0 + 1..mid];
    assert k0 < end ==> qs[0] == s[k0] && qs[1..] == s[k0 + 1..end];
    if psize == 0 {
      n := q; q := Advance(q, ring); qsize := qsize - 1;
      k := k + 1;
    } else if qsize == 0 || q == null {
      n := p; p := Advance(p, ring); psize := psize - 1;
      i := i + 1;
    } else if cmp(p.data, q.data) <= 0 {
      n := p; p := Advance(p, ring); psize := psize - 1;
      i := i + 1;
      compared := 1;
    } else {
      n := q; q := Advance(q, ring); qsize := qsize - 1;
      k := k + 1;
      compared := 1;
    }
  }

  /** Appends n to the output list. */
  method Emit<T>(n: Element<T>, list0: Element?<T>, tail0: Element?<T>, doubly: bool, ring: Element?<T>,
                 ghost s: seq<Element<T>>, ghost ix: map<Element<T>, nat>, ghost out: seq<Element<T>>,
                 ghost i0: nat, ghost mid: nat, ghost k0: nat, ghost i: nat, ghost k: nat)
    returns (list: Element?<T>, tail: Element?<T>)
    requires Indexed(s, ix) && i0 <= mid <= k0 <= |s|
    requires (i == i0 + 1 && k == k0 && i <= mid && n == s[i0]) || (i == i0 && k == k0 + 1 && k <= |s| && n == s[k0])
    requires Emitted(out, ix, i0, mid, k0, list0, tail0, doubly) && Waiting(s, i0, mid, k0, ring)
    modifies (if tail0 == null then {} else {tail0})`next, n`prev
    ensures tail == n
    ensures Emitted(out + [n], ix, i, mid, k, list, tail, doubly) && Waiting(s, i, mid, k, ring)
  {
    list := list0;
    assert forall x :: 0 <= x < |out| ==> out[x] != n;
    if tail0 != null {
      tail0.next := n;
    } else {
      list := n;
    }
    if doubly { n.prev := tail0; }
    tail := n;
  }

  /** Between two merges there is one boundary a, inside a merge there are three. */
  ghost predicate PassState<T>(s: seq<Element<T>>, ix: map<Element<T>, nat>, out: seq<Element<T>>, list: Element?<T>,
                               tail: Element?<T>, doubly: bool, ring: Element?<T>, a: nat)
    reads out`prev, out`next, s`next
  {
    Emitted(out, ix, a, a, a, list, tail, doubly) && Waiting(s, a, a, a, ring)
  }

  lemma OpenRuns<T>(s: seq<Element<T>>, ix: map<Element<T>, nat>, out: seq<Element<T>>, list: Element?<T>,
                    tail: Element?<T>, doubly: bool, ring: Element?<T>, a: nat, mid: nat)
    requires PassState(s, ix, out, list, tail, doubly, ring, a) && a <= mid
    ensures Emitted(out, ix, a, mid, mid, list, tail, doubly) && Waiting(s, a, mid, mid, ring)
  {}

  lemma CloseRuns<T>(s: seq<Element<T>>, ix: map<Element<T>, nat>, out: seq<Element<T>>, list: Element?<T>,
                     tail: Element?<T>, doubly: bool, ring: Element?<T>, mid: nat, k: nat)
    requires Emitted(out, ix, mid, mid, k, list, tail, doubly) && Waiting(s, mid, mid, k, ring) && mid <= k
    ensures PassState(s, ix, out, list, tail, doubly, ring, k)
  {}

  /** What the output comes to when the merge goes on from i and k. */
  ghost function Remaining<T>(out: seq<Element<T>>, s: seq<Element<T>>, i: nat, mid: nat, k: nat, end: nat,
                              cmp: Comparator<T>): seq<Element<T>>
    requires i <= mid <= k <= end <= |s|
  {
    out + Merge(s[i..mid], s[k..end], cmp)
  }

  lemma RemainingIs<T>(out: seq<Element<T>>, s: seq<Element<T>>, i: nat, mid: nat, k: nat, end: nat,
                       cmp: Comparator<T>)
    requires i <= mid <= k <= end <= |s|
    ensures Remaining(out, s, i, mid, k, end, cmp) == out + Merge(s[i..mid], s[k..end], cmp)
  {}

  lemma NothingRemains<T>(out: seq<Element<T>>, s: seq<Element<T>>, mid: nat, end: nat, cmp: Comparator<T>)
    requires mid <= end <= |s|
    ensures Remaining(out, s, mid, mid, end, end, cmp) == out
  {
    assert s[mid..mid] == [] && s[end..end] == [];
    MergeNothing(cmp);
  }

  lemma OneMerged<T>(out: seq<Element<T>>, n: Element<T>, s: seq<Element<T>>, i0: nat, k0: nat, i: nat, k: nat,
                     mid: nat, end: nat, cmp: Comparator<T>)
    requires i0 <= i <= mid <= k0 <= k <= end <= |s|
    requires Merge(s[i0..mid], s[k0..end], cmp) == [n] + Merge(s[i..mid], s[k..end], cmp)
    ensures Remaining(out, s, i0, mid, k0, end, cmp) == Remaining(out + [n], s, i, mid, k, end, cmp)
  {
    hide Merge;
  }

  /** The merge loop: merges s[a..mid] with the run of at most insize elements at mid. */
  method MergeRuns<T>(p0: Element?<T>, q0: Element?<T>, psize0: nat, insize: nat,
                      list0: Element?<T>, tail0: Element?<T>, doubly: bool, ring: Element?<T>,
                      cmp: Comparator<T>, ghost s: seq<Element<T>>, ghost ix: map<Element<T>, nat>,
                      ghost a: nat, ghost mid: nat, ghost out0: seq<Element<T>>)
    returns (q: Element?<T>, list: Element?<T>, tail: Element?<T>, ghost k: nat, ghost out: seq<Element<T>>,
             ghost comparisons: nat)
    requires NoDup(s) && (ring == null || ring == First(s))
    requires Indexed(s, ix) && a < mid <= |s| && psize0 == mid - a && insize > 0
    requires p0 == s[a] && q0 == At(s, mid)
    requires PassState(s, ix, out0, list0, tail0, doubly, ring, a)
    requires tail0 != null ==> tail0 in s
    modifies s`prev, s`next
    ensures k == Min(mid + insize, |s|)
    ensures q == At(s, k)
    ensures PassState(s, ix, out, list, tail, doubly, ring, k)
    ensures tail != null ==> tail in s
    ensures out == out0 + Merge(s[a..mid], s[mid..k], cmp)
    ensures comparisons < k - a
  {
    hide Merge, NoDup, Indexed, Emitted, Waiting, PassState, Remaining;
    OpenRuns(s, ix, out0, list0, tail0, doubly, ring, a, mid);
    q, list, tail := q0, list0, tail0;
    var p, psize, qsize := p0, psize0, insize;
    ghost var i, end, m := a, Min(mid + insize, |s|), Merge(s[a..mid], s[mid..Min(mid + insize, |s|)], cmp);
    k, out, comparisons := mid, out0, 0;
    RemainingIs(out0, s, a, mid, mid, end, cmp);
    while psize > 0 || (qsize > 0 && q != null)
      invariant a <= i <= mid <= k <= end
      invariant psize == mid - i && qsize == insize - (k - mid)
      invariant psize > 0 ==> p == s[i]
      invariant q == At(s, k)
      invariant Emitted(out, ix, i, mid, k, list, tail, doubly)
      invariant Waiting(s, i, mid, k, ring)
      invariant tail != null ==> tail in s
      invariant Remaining(out, s, i, mid, k, end, cmp) == out0 + m
      invariant comparisons <= i - a + k - mid - if i == mid && k == end then 1 else 0
      decreases psize + qsize
    {
      ghost var i1, k1, compared := i, k, 0;
      var n;
      n, p, q, psize, qsize, i, k, compared := TakeNext(p, q, psize, qsize, cmp, ring, s, i, mid, k, end);
      OneMerged(out, n, s, i1, k1, i, k, mid, end, cmp);
      list, tail := Emit(n, list, tail, doubly, ring, s, ix, out, i1, mid, k1, i, k);
      out, comparisons := out + [n], comparisons + compared;
    }
    NothingRemains(out, s, mid, end, cmp);
    CloseRuns(s, ix, out, list, tail, doubly, ring, mid, k);
  }

  lemma StartPass<T>(s: seq<Element<T>>, ix: map<Element<T>, nat>, doubly: bool, ring: Element?<T>)
    requires NextLinked(s, ring)
    ensures PassState(s, ix, [], null, null, doubly, ring, 0)
  {}

  /** A list that is finished but for the link of its tail. */
  ghost predicate OpenEnded<T>(out: seq<Element<T>>, list: Element?<T>, tail: Element?<T>, doubly: bool)
    reads out`prev, out`next
  {
    && NoDup(out) && list == First(out) && tail == Last(out)
    && (forall x {:trigger out[x].next} :: 0 <= x < |out| - 1 ==> out[x].next == After(out, x, null))
    && (doubly ==> PrevLinked(out, null))
  }

  lemma EndPass<T>(s: seq<Element<T>>, ix: map<Element<T>, nat>, out: seq<Element<T>>, list: Element?<T>,
                   tail: Element?<T>, doubly: bool, ring: Element?<T>, a: nat)
    requires PassState(s, ix, out, list, tail, doubly, ring, a)
    ensures OpenEnded(out, list, tail, doubly) && list == First(out) && tail == Last(out)
  {}

  /** Steps q off the run that starts at p, counting its elements. */
  method SplitRun<T>(p: Element<T>, insize: nat, ring: Element?<T>, ghost s: seq<Element<T>>, ghost a: nat,
                     ghost ix: map<Element<T>, nat>, ghost out: seq<Element<T>>, ghost list: Element?<T>,
                     ghost tail: Element?<T>, ghost doubly: bool)
    returns (q: Element?<T>, psize: nat)
    requires NoDup(s) && (ring == null || ring == First(s)) && insize > 0
    requires a < |s| && p == s[a] && PassState(s, ix, out, list, tail, doubly, ring, a)
    ensures psize == Min(insize, |s| - a) && q == At(s, a + psize)
  {
    assert ring != null ==> forall t :: 0 < t < |s| ==> s[t] != ring;
    q, psize := p, 0;
    for i := 0 to insize
      invariant psize == i && a + i < |s| && q == s[a + i]
    {
      psize := psize + 1;
      q := Advance(q, ring);
      if q == null { break; }
    }
  }

  lemma PassNothing<T>(insize: nat, cmp: Comparator<T>)
    requires insize > 0
    ensures Pass([], insize, cmp) == []
  {}

  lemma SliceTake<T>(s: seq<T>, a: nat, k: nat)
    requires a <= |s|
    ensures Prefix(s[a..], k) == s[a..Min(a + k, |s|)] && Rest(s[a..], k) == s[Min(a + k, |s|)..]
  {}

  /** Pass takes its first two runs off the front. */
  lemma PassStep<T>(out: seq<Element<T>>, s: seq<Element<T>>, a: nat, insize: nat, cmp: Comparator<T>)
    requires a < |s| && insize > 0
    ensures var mid := a + Min(insize, |s| - a);
            var k := Min(mid + insize, |s|);
            out + Pass(s[a..], insize, cmp) == out + Merge(s[a..mid], s[mid..k], cmp) + Pass(s[k..], insize, cmp)
  {
    hide Prefix, Rest, Merge;
    SliceTake(s, a, insize);
    SliceTake(s, a + Min(insize, |s| - a), insize);
  }

  /** The body of the loop of a pass: splits off two runs at p and merges them. */
  method MergeNext<T>(p: Element<T>, insize: nat, list0: Element?<T>, tail0: Element?<T>, doubly: bool,
                      ring: Element?<T>, cmp: Comparator<T>, ghost s: seq<Element<T>>, ghost ix: map<Element<T>, nat>,
                      ghost a: nat, ghost out0: seq<Element<T>>)
    returns (q: Element?<T>, list: Element?<T>, tail: Element?<T>, ghost k: nat, ghost out: seq<Element<T>>,
             ghost comparisons: nat)
    requires NoDup(s) && (ring == null || ring == First(s)) && Indexed(s, ix) && insize > 0
    requires a < |s| && p == s[a] && PassState(s, ix, out0, list0, tail0, doubly, ring, a)
    requires tail0 != null ==> tail0 in s
    modifies s`prev, s`next
    ensures k == Min(a + 2 * insize, |s|) && q == At(s, k)
    ensures PassState(s, ix, out, list, tail, doubly, ring, k)
    ensures tail != null ==> tail in s
    ensures out + Pass(s[k..], insize, cmp) == out0 + Pass(s[a..], insize, cmp)
    ensures comparisons < k - a
  {
    hide NoDup, Indexed, Merge, PassState, Pass;
    var psize;
    q, psize := SplitRun(p, insize, ring, s, a, ix, out0, list0, tail0, doubly);
    q, list, tail, k, out, comparisons :=
      MergeRuns(p, q, psize, insize, list0, tail0, doubly, ring, cmp, s, ix, a, a + psize, out0);
    PassStep(out0, s, a, insize, cmp);
  }

  /** One trip round the outer loop: merges all neighbouring runs of insize elements. */
  method SortPass<T>(list0: Element<T>, insize: nat, doubly: bool, ring: Element?<T>, cmp: Comparator<T>,
                     ghost s: seq<Element<T>>)
    returns (list: Element?<T>, tail: Element?<T>, nmerges: nat, ghost out: seq<Element<T>>, ghost comparisons: nat)
    requires NoDup(s) && s != [] && list0 == s[0] && insize > 0
    requires (ring == null || ring == s[0]) && NextLinked(s, ring)
    modifies s`prev, s`next
    ensures out == Pass(s, insize, cmp) && OpenEnded(out, list, tail, doubly)
    ensures list == First(out) && tail == Last(out) && out != []
    ensures nmerges <= 1 <==> |s| <= 2 * insize
    ensures nmerges > 0 && comparisons <= |s| - nmerges
  {
    hide NoDup, Indexed, Merge, PassState, OpenEnded, NextLinked, Pass, Emitted, Waiting, PrevLinked, Prefix, Rest;
    ghost var ix := IndexOf(s);
    var p: Element?<T> := list0;
    list, tail, nmerges, out, comparisons := null, null, 0, [], 0;
    ghost var a := 0;
    assert s[0..] == s;
    StartPass(s, ix, doubly, ring);
    while p != null
      invariant a <= |s| && p == At(s, a)
      invariant PassState(s, ix, out, list, tail, doubly, ring, a)
      invariant tail != null ==> tail in s
      invariant out + Pass(s[a..], insize, cmp) == Pass(s, insize, cmp)
      invariant (nmerges == 0 <==> a == 0) && (nmerges == 1 ==> a == Min(2 * insize, |s|))
      invariant nmerges >= 2 ==> |s| > 2 * insize
      invariant comparisons <= a - nmerges
      decreases |s| - a
    {
      nmerges := nmerges + 1;
      ghost var compared;
      p, list, tail, a, out, compared := MergeNext(p, insize, list, tail, doubly, ring, cmp, s, ix, a, out);
      comparisons := comparisons + compared;
    }
    assert s[a..] == [];
    PassNothing(insize, cmp);
    PassPermutes(s, insize, cmp);
    EndPass(s, ix, out, list, tail, doubly, ring, a);
  }

  /** Points the head's prev at the tail. */
  method CloseHead<T>(list: Element<T>, tail: Element?<T>, ghost out: seq<Element<T>>)
    requires OpenEnded(out, list, tail, true)
    modifies list`prev
    ensures OpenEnded(out, list, tail, false) && PrevLinked(out, tail)
  {
    list.prev := tail;
  }

  /** Closes the list that a pass leaves: the tail points to end. */
  method CloseTail<T>(tail: Element?<T>, end: Element?<T>, ghost out: seq<Element<T>>, ghost list: Element?<T>)
    requires OpenEnded(out, list, tail, false)
    modifies (if tail == null then {} else {tail})`next
    ensures NextLinked(out, end) && NoDup(out) && list == First(out)
  {
    if tail != null { tail.next := end; }
  }

  /** What the passes of a sort have done: cur is a rearrangement of s on the way to Passes(s, 1, cmp). */
  ghost predicate Sorting<T>(s: seq<Element<T>>, cur: seq<Element<T>>, insize: nat, passes: nat, comparisons: nat,
                             looping: bool, cmp: Comparator<T>)
  {
    && insize == Pow2(passes) && |cur| == |s| && comparisons <= (|s| - 1) * passes
    && (forall i :: 0 <= i < |cur| ==> cur[i] in s)
    && (looping ==> Passes(cur, insize, cmp) == Passes(s, 1, cmp) && (passes == 0 || insize < |s|))
    && (!looping ==> cur == Passes(s, 1, cmp) && PassesFor(|s|, passes))
  }

  lemma SortingStarts<T>(s: seq<Element<T>>, cmp: Comparator<T>)
    ensures Sorting(s, s, 1, 0, 0, true, cmp)
  {}

  lemma SortingShape<T>(s: seq<Element<T>>, cur: seq<Element<T>>, insize: nat, passes: nat, comparisons: nat,
                        looping: bool, cmp: Comparator<T>)
    requires Sorting(s, cur, insize, passes, comparisons, looping, cmp)
    ensures insize > 0 && |cur| == |s| && forall i :: 0 <= i < |cur| ==> cur[i] in s
    ensures looping && s != [] ==> insize <= |s|
  {}

  lemma OnePassMore(n: nat, passes: nat, comparisons: nat, compared: nat)
    requires n > 0 && comparisons <= (n - 1) * passes && compared <= n - 1
    ensures comparisons + compared <= (n - 1) * (passes + 1)
  {
    assert (n - 1) * (passes + 1) == (n - 1) * passes + (n - 1);
  }

  /** The loop stops exactly after the pass that merged everything into one run. */
  lemma SortingStep<T>(s: seq<Element<T>>, cur: seq<Element<T>>, insize: nat, passes: nat, comparisons: nat,
                       compared: nat, cmp: Comparator<T>)
    requires insize > 0 && Sorting(s, cur, insize, passes, comparisons, true, cmp) && compared < |s|
    ensures Sorting(s, Pass(cur, insize, cmp), 2 * insize, passes + 1, comparisons + compared, |s| > 2 * insize, cmp)
  {
    hide Pass;
    var out := Pass(cur, insize, cmp);
    PassPermutes(cur, insize, cmp);
    OnePassMore(|s|, passes, comparisons, compared);
    forall i | 0 <= i < |out| ensures out[i] in s {
      assert out[i] in multiset(out);
    }
  }

  lemma SortingDone<T>(s: seq<Element<T>>, cur: seq<Element<T>>, insize: nat, passes: nat, comparisons: nat,
                       cmp: Comparator<T>)
    requires Sorting(s, cur, insize, passes, comparisons, false, cmp)
    ensures cur == Passes(s, 1, cmp) && PassesFor(|s|, passes) && comparisons <= (|s| - 1) * passes
  {}

  lemma PassesNothing<T>(cmp: Comparator<T>)
    ensures Passes([], 1, cmp) == []
  {}

  /** LL_SORT2. */
  method LLSort<T(!new)>(list0: Element?<T>, cmp: Comparator<T>, ghost s: seq<Element<T>>)
    returns (list: Element?<T>, ghost out: seq<Element<T>>, ghost passes: nat, ghost comparisons: nat)
    requires NoDup(s) && list0 == First(s) && NextLinked(s, null)
    modifies s`prev, s`next
    ensures out == Passes(s, 1, cmp)
    ensures TotalPreorder(cmp) ==> out == Stable(s, cmp)
    ensures list == First(out) && NextLinked(out, null) && NoDup(out)
    ensures s != [] ==> PassesFor(|s|, passes)
    ensures comparisons <= (|s| - 1) * passes
  {
    hide NoDup, NextLinked, Passes, OpenEnded, TotalPreorder, Stable, Pass, Pow2, PassesFor, Sorting;
    list, out, passes, comparisons := list0, s, 0, 0;
    if TotalPreorder(cmp) { PassesSort(s, cmp); }
    PassesNothing(cmp);
    if list != null {
      var insize: nat, looping := 1, true;
      SortingStarts(s, cmp);
      while looping
        invariant Sorting(s, out, insize, passes, comparisons, looping, cmp) && insize > 0
        invariant looping ==> insize <= |s|
        invariant list == First(out) && NextLinked(out, null) && NoDup(out)
        decreases looping, |s| - insize
      {
        var tail, nmerges;
        SortingShape(s, out, insize, passes, comparisons, true, cmp);
        ghost var cur := out;
        ghost var compared;
        list, tail, nmerges, out, compared := SortPass(list, insize, false, null, cmp, cur);
        SortingStep(s, cur, insize, passes, comparisons, compared, cmp);
        passes, comparisons := passes + 1, comparisons + compared;
        SortingShape(s, out, 2 * insize, passes, comparisons, nmerges > 1, cmp);
        CloseTail(tail, null, out, list);
        if nmerges <= 1 { looping := false; }
        insize := 2 * insize;
      }
      SortingDone(s, out, insize, passes, comparisons, cmp);
    }
  }

  /** DL_SORT2: keeps prev, and the head's prev is the tail. */
  method DLSort<T(!new)>(list0: Element?<T>, cmp: Comparator<T>, ghost s: seq<Element<T>>)
    returns (list: Element?<T>, ghost out: seq<Element<T>>, ghost passes: nat, ghost comparisons: nat)
    requires NoDup(s) && list0 == First(s) && NextLinked(s, null)
    modifies s`prev, s`next
    ensures out == Passes(s, 1, cmp)
    ensures TotalPreorder(cmp) ==> out == Stable(s, cmp)
    ensures list == First(out) && NextLinked(out, null) && NoDup(out)
    ensures s != [] ==> PrevLinked(out, Last(out)) && PassesFor(|s|, passes)
    ensures comparisons <= (|s| - 1) * passes
  {
    hide NoDup, NextLinked, PrevLinked, Passes, OpenEnded, TotalPreorder, Stable, Pass, Pow2, PassesFor, Sorting;
    list, out, passes, comparisons := list0, s, 0, 0;
    if TotalPreorder(cmp) { PassesSort(s, cmp); }
    PassesNothing(cmp);
    if list != null {
      var insize: nat, looping := 1, true;
      SortingStarts(s, cmp);
      while looping
        invariant Sorting(s, out, insize, passes, comparisons, looping, cmp) && insize > 0
        invariant looping ==> insize <= |s|
        invariant list == First(out) && NextLinked(out, null) && NoDup(out)
        invariant passes > 0 ==> PrevLinked(out, Last(out))
        decreases looping, |s| - insize
      {
        var tail, nmerges;
        SortingShape(s, out, insize, passes, comparisons, true, cmp);
        ghost var cur := out;
        ghost var compared;
        list, tail, nmerges, out, compared := SortPass(list, insize, true, null, cmp, cur);
        SortingStep(s, cur, insize, passes, comparisons, compared, cmp);
        passes, comparisons := passes + 1, comparisons + compared;
        SortingShape(s, out, 2 * insize, passes, comparisons, nmerges > 1, cmp);
        CloseHead(list, tail, out);
        CloseTail(tail, null, out, list);
        if nmerges <= 1 { looping := false; }
        insize := 2 * insize;
      }
      SortingDone(s, out, insize, passes, comparisons, cmp);
    }
  }

  /** CDL_SORT2: takes and leaves a closed ring. */
  method CDLSort<T(!new)>(list0: Element?<T>, cmp: Comparator<T>, ghost s: seq<Element<T>>)
    returns (list: Element?<T>, ghost out: seq<Element<T>>, ghost passes: nat, ghost comparisons: nat)
    requires NoDup(s) && list0 == First(s) && NextLinked(s, First(s))
    modifies s`prev, s`next
    ensures out == Passes(s, 1, cmp)
    ensures TotalPreorder(cmp) ==> out == Stable(s, cmp)
    ensures list == First(out) && NextLinked(out, First(out)) && NoDup(out)
    ensures s != [] ==> PrevLinked(out, Last(out)) && PassesFor(|s|, passes)
    ensures comparisons <= (|s| - 1) * passes
  {
    hide NoDup, NextLinked, PrevLinked, Passes, OpenEnded, TotalPreorder, Stable, Pass, Pow2, PassesFor, Sorting;
    list, out, passes, comparisons := list0, s, 0, 0;
    if TotalPreorder(cmp) { PassesSort(s, cmp); }
    PassesNothing(cmp);
    if list != null {
      var insize: nat, looping := 1, true;
      SortingStarts(s, cmp);
      while looping
        invariant Sorting(s, out, insize, passes, comparisons, looping, cmp) && insize > 0
        invariant looping ==> insize <= |s|
        invariant list == First(out) && NextLinked(out, First(out)) && NoDup(out)
        invariant passes > 0 ==> PrevLinked(out, Last(out))
        decreases looping, |s| - insize
      {
        var tail, nmerges;
        SortingShape(s, out, insize, passes, comparisons, true, cmp);
        ghost var cur := out;
        var oldhead := list;
        ghost var compared;
        list, tail, nmerges, out, compared := SortPass(list, insize, true, oldhead, cmp, cur);
        SortingStep(s, cur, insize, passes, comparisons, compared, cmp);
        passes, comparisons := passes + 1, comparisons + compared;
        SortingShape(s, out, 2 * insize, passes, comparisons, nmerges > 1, cmp);
        CloseHead(list, tail, out);
        CloseTail(tail, list, out, list);
        if nmerges <= 1 { looping := false; }
        insize := 2 * insize;
      }
      SortingDone(s, out, insize, passes, comparisons, cmp);
    }
  }
}

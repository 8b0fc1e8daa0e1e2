/** Reference definition of a stable sort, and the bottom-up merge passes of
    Simon Tatham's algorithm as functions on sequences. The list macros and the
    hash table's sort are both proved against this module. */
module StableSort {
  import opened Arithmetic
  import opened Elements

  /** A C comparator: negative, zero or positive. */
  type Comparator<!T> = (T, T) -> int

  /** The comparator orders its arguments by a total preorder. */
  ghost predicate TotalPreorder<T(!new)>(cmp: Comparator<T>) {
    && (forall x, y :: cmp(x, y) <= 0 || cmp(y, x) <= 0)
    && (forall x, y, z :: cmp(x, y) <= 0 && cmp(y, z) <= 0 ==> cmp(x, z) <= 0)
  }

  ghost predicate Sorted<T>(s: seq<Element<T>>, cmp: Comparator<T>) {
    forall i, j :: 0 <= i < j < |s| ==> cmp(s[i].data, s[j].data) <= 0
  }

  /** The elements of s that compare equal to x, in order. */
  ghost function Ties<T>(s: seq<Element<T>>, x: T, cmp: Comparator<T>): seq<Element<T>> {
    if s == [] then []
    else (if cmp(s[0].data, x) <= 0 && cmp(x, s[0].data) <= 0 then [s[0]] else []) + Ties(s[1..], x, cmp)
  }

  // ---------- the reference: insertion before the first element not below ----------

  ghost function Insert<T>(x: Element<T>, s: seq<Element<T>>, cmp: Comparator<T>): seq<Element<T>> {
    if s == [] then [x]
    else if cmp(x.data, s[0].data) <= 0 then [x] + s
    else [s[0]] + Insert(x, s[1..], cmp)
  }

  ghost function Stable<T>(s: seq<Element<T>>, cmp: Comparator<T>): seq<Element<T>> {
    if s == [] then [] else Insert(s[0], Stable(s[1..], cmp), cmp)
  }

  // ---------- the merge passes ----------

  ghost function Merge<T>(p: seq<Element<T>>, q: seq<Element<T>>, cmp: Comparator<T>): seq<Element<T>>
    decreases |p| + |q|
  {
    if p == [] then q
    else if q == [] then p
    else if cmp(p[0].data, q[0].data) <= 0 then [p[0]] + Merge(p[1..], q, cmp)
    else [q[0]] + Merge(p, q[1..], cmp)
  }

  ghost function Prefix<T>(s: seq<T>, k: nat): seq<T> { s[..Min(k, |s|)] }

  ghost function Rest<T>(s: seq<T>, k: nat): seq<T> { s[Min(k, |s|)..] }

  /** One pass: merge neighbouring runs of length k. */
  ghost function Pass<T>(s: seq<Element<T>>, k: nat, cmp: Comparator<T>): seq<Element<T>>
    requires k > 0
    decreases |s|
  {
    if s == [] then []
    else Merge(Prefix(s, k), Prefix(Rest(s, k), k), cmp) + Pass(Rest(Rest(s, k), k), k, cmp)
  }

  /** s with every block of length k replaced by its stable sort. */
  ghost function Blocks<T>(s: seq<Element<T>>, k: nat, cmp: Comparator<T>): seq<Element<T>>
    requires k > 0
    decreases |s|
  {
    if s == [] then [] else Stable(Prefix(s, k), cmp) + Blocks(Rest(s, k), k, cmp)
  }

  // ---------- insertion ----------

  lemma {:induction false} InsertLength<T>(x: Element<T>, s: seq<Element<T>>, cmp: Comparator<T>)
    ensures |Insert(x, s, cmp)| == |s| + 1
    ensures multiset(Insert(x, s, cmp)) == multiset{x} + multiset(s)
  {
    if s != [] && cmp(x.data, s[0].data) > 0 {
      InsertLength(x, s[1..], cmp);
      assert s == [s[0]] + s[1..];
    }
  }

  lemma {:induction false} StablePermutes<T>(s: seq<Element<T>>, cmp: Comparator<T>)
    ensures |Stable(s, cmp)| == |s|
    ensures multiset(Stable(s, cmp)) == multiset(s)
  {
    if s == [] {
    } else {
      StablePermutes(s[1..], cmp);
      InsertLength(s[0], Stable(s[1..], cmp), cmp);
      assert s == [s[0]] + s[1..];
    }
  }

  lemma {:induction false} InsertAbove<T>(y: Element<T>, x: Element<T>, s: seq<Element<T>>, cmp: Comparator<T>)
    requires cmp(y.data, x.data) <= 0
    requires forall j :: 0 <= j < |s| ==> cmp(y.data, s[j].data) <= 0
    ensures forall j :: 0 <= j < |Insert(x, s, cmp)| ==> cmp(y.data, Insert(x, s, cmp)[j].data) <= 0
  {
    if s != [] && cmp(x.data, s[0].data) > 0 { InsertAbove(y, x, s[1..], cmp); }
  }

  lemma {:induction false} InsertSorted<T(!new)>(x: Element<T>, s: seq<Element<T>>, cmp: Comparator<T>)
    requires TotalPreorder(cmp) && Sorted(s, cmp)
    ensures Sorted(Insert(x, s, cmp), cmp)
  {
    if s != [] && cmp(x.data, s[0].data) > 0 {
      InsertSorted(x, s[1..], cmp);
      assert cmp(s[0].data, x.data) <= 0;
      InsertAbove(s[0], x, s[1..], cmp);
    } else if s != [] {
      forall j | 0 <= j < |s| ensures cmp(x.data, s[j].data) <= 0 {
        assert j == 0 || cmp(s[0].data, s[j].data) <= 0;
      }
    }
  }

  lemma {:induction false} InsertTies<T(!new)>(x: Element<T>, s: seq<Element<T>>, y: T, cmp: Comparator<T>)
    requires TotalPreorder(cmp)
    ensures Ties(Insert(x, s, cmp), y, cmp) == Ties([x], y, cmp) + Ties(s, y, cmp)
  {
    if s != [] && cmp(x.data, s[0].data) > 0 {
      InsertTies(x, s[1..], y, cmp);
      assert Insert(x, s, cmp)[1..] == Insert(x, s[1..], cmp);
    } else {
      assert ([x] + s)[1..] == s;
    }
  }

  lemma {:induction false} StableSorted<T(!new)>(s: seq<Element<T>>, cmp: Comparator<T>)
    requires TotalPreorder(cmp)
    ensures Sorted(Stable(s, cmp), cmp)
  {
    if s == [] {
    } else {
      StableSorted(s[1..], cmp);
      InsertSorted(s[0], Stable(s[1..], cmp), cmp);
    }
  }

  lemma {:induction false} StableTies<T(!new)>(s: seq<Element<T>>, y: T, cmp: Comparator<T>)
    requires TotalPreorder(cmp)
    ensures Ties(Stable(s, cmp), y, cmp) == Ties(s, y, cmp)
  {
    if s == [] {
    } else {
      StableTies(s[1..], y, cmp);
      InsertTies(s[0], Stable(s[1..], cmp), y, cmp);
    }
  }

  /** What a stable sort is: sorted, a permutation, and equal elements keep their order. */
  lemma StableSorts<T(!new)>(s: seq<Element<T>>, cmp: Comparator<T>)
    requires TotalPreorder(cmp)
    ensures Sorted(Stable(s, cmp), cmp)
    ensures multiset(Stable(s, cmp)) == multiset(s)
    ensures forall y :: Ties(Stable(s, cmp), y, cmp) == Ties(s, y, cmp)
  {
    StableSorted(s, cmp);
    StablePermutes(s, cmp);
    forall y ensures Ties(Stable(s, cmp), y, cmp) == Ties(s, y, cmp) {
      StableTies(s, y, cmp);
    }
  }

  // ---------- merging ----------

  lemma MergeNothing<T>(cmp: Comparator<T>)
    ensures Merge([], [], cmp) == []
  {}

  lemma {:induction false} MergeLength<T>(p: seq<Element<T>>, q: seq<Element<T>>, cmp: Comparator<T>)
    ensures |Merge(p, q, cmp)| == |p| + |q|
    decreases |p| + |q|
  {
    if p != [] && q != [] {
      if cmp(p[0].data, q[0].data) <= 0 { MergeLength(p[1..], q, cmp); } else { MergeLength(p, q[1..], cmp); }
    }
  }

  lemma {:induction false} MergeOne<T>(x: Element<T>, q: seq<Element<T>>, cmp: Comparator<T>)
    ensures Merge([x], q, cmp) == Insert(x, q, cmp)
  {
    if q != [] && cmp(x.data, q[0].data) > 0 { MergeOne(x, q[1..], cmp); }
  }

  lemma {:induction false} MergeInsert<T(!new)>(x: Element<T>, p: seq<Element<T>>, q: seq<Element<T>>,
                                              cmp: Comparator<T>)
    requires TotalPreorder(cmp) && Sorted(p, cmp) && Sorted(q, cmp)
    ensures Merge(Insert(x, p, cmp), q, cmp) == Insert(x, Merge(p, q, cmp), cmp)
    decreases |p| + |q|
  {
    var ins := Insert(x, p, cmp);
    if q == [] {
    } else if p == [] {
      MergeOne(x, q, cmp);
    } else if cmp(ins[0].data, q[0].data) <= 0 {
      if cmp(x.data, p[0].data) <= 0 {
        assert ins[1..] == p;
      } else {
        assert ins[1..] == Insert(x, p[1..], cmp);
        MergeInsert(x, p[1..], q, cmp);
        assert Merge(p, q, cmp)[1..] == Merge(p[1..], q, cmp);
      }
    } else {
      MergeInsert(x, p, q[1..], cmp);
      assert Merge(p, q, cmp)[0] == q[0];
      assert Merge(p, q, cmp)[1..] == Merge(p, q[1..], cmp);
      assert cmp(x.data, q[0].data) > 0;
    }
  }

  /** Merging two stably sorted runs stably sorts their concatenation. */
  lemma {:induction false} MergeStable<T(!new)>(a: seq<Element<T>>, b: seq<Element<T>>, cmp: Comparator<T>)
    requires TotalPreorder(cmp)
    ensures Merge(Stable(a, cmp), Stable(b, cmp), cmp) == Stable(a + b, cmp)
  {
    hide TotalPreorder, Sorted;
    if a == [] {
      assert a + b == b;
    } else {
      MergeStable(a[1..], b, cmp);
      StableSorted(a[1..], cmp);
      StableSorted(b, cmp);
      MergeInsert(a[0], Stable(a[1..], cmp), Stable(b, cmp), cmp);
      assert (a + b)[1..] == a[1..] + b;
    }
  }

  // ---------- passes ----------

  lemma {:induction false} BlocksSplit<T>(s: seq<Element<T>>, k: nat, cmp: Comparator<T>)
    requires k > 0
    ensures |Blocks(s, k, cmp)| == |s|
    ensures Prefix(Blocks(s, k, cmp), k) == Stable(Prefix(s, k), cmp)
    ensures Rest(Blocks(s, k, cmp), k) == Blocks(Rest(s, k), k, cmp)
    decreases |s|
  {
    if s == [] {
    } else {
      StablePermutes(Prefix(s, k), cmp);
      BlocksSplit(Rest(s, k), k, cmp);
    }
  }

  lemma PrefixTwice<T>(s: seq<T>, k: nat)
    ensures Prefix(s, k) + Prefix(Rest(s, k), k) == Prefix(s, 2 * k)
    ensures Rest(Rest(s, k), k) == Rest(s, 2 * k)
    ensures s != [] && k > 0 ==> |Rest(s, 2 * k)| < |s|
  {}

  lemma {:induction false} PassDoubles<T(!new)>(s: seq<Element<T>>, k: nat, cmp: Comparator<T>)
    requires TotalPreorder(cmp) && k > 0
    ensures Pass(Blocks(s, k, cmp), k, cmp) == Blocks(s, 2 * k, cmp)
    decreases |s|
  {
    hide TotalPreorder, Stable, Merge, Prefix, Rest;
    BlocksSplit(s, k, cmp);
    if s == [] {
    } else {
      var r := Rest(s, k);
      BlocksSplit(r, k, cmp);
      MergeStable(Prefix(s, k), Prefix(r, k), cmp);
      PrefixTwice(s, k);
      PassDoubles(Rest(r, k), k, cmp);
    }
  }

  lemma {:induction false} BlocksOfOne<T>(s: seq<Element<T>>, cmp: Comparator<T>)
    ensures Blocks(s, 1, cmp) == s
  {
    if s == [] {
    } else {
      BlocksOfOne(s[1..], cmp);
      assert Prefix(s, 1) == [s[0]] && Rest(s, 1) == s[1..];
      assert Stable([s[0]], cmp) == [s[0]];
    }
  }

  lemma BlocksWhole<T>(s: seq<Element<T>>, k: nat, cmp: Comparator<T>)
    requires k > 0 && |s| <= k
    ensures Blocks(s, k, cmp) == Stable(s, cmp)
  {
    if s != [] {
      assert Prefix(s, k) == s && Rest(s, k) == [];
    }
  }

  // ---------- the whole sort ----------

  lemma MultisetOfTwo<T>(s: seq<T>, p: seq<T>, q: seq<T>)
    requires s == p + q
    ensures multiset(s) == multiset(p) + multiset(q)
  {}

  lemma Regroup<T>(a: multiset<T>, b: multiset<T>, c: multiset<T>)
    ensures a + (b + c) == (a + b) + c == b + (a + c)
  {}

  lemma {:induction false} MergePermutes<T>(p: seq<Element<T>>, q: seq<Element<T>>, cmp: Comparator<T>)
    ensures multiset(Merge(p, q, cmp)) == multiset(p) + multiset(q)
    decreases |p| + |q|
  {
    if p != [] && q != [] {
      var tp, tq := multiset(p[1..]), multiset(q[1..]);
      MultisetOfTwo(p, [p[0]], p[1..]);
      MultisetOfTwo(q, [q[0]], q[1..]);
      if cmp(p[0].data, q[0].data) <= 0 {
        MergePermutes(p[1..], q, cmp);
        MultisetOfTwo(Merge(p, q, cmp), [p[0]], Merge(p[1..], q, cmp));
        Regroup(multiset([p[0]]), tp, multiset(q));
      } else {
        MergePermutes(p, q[1..], cmp);
        MultisetOfTwo(Merge(p, q, cmp), [q[0]], Merge(p, q[1..], cmp));
        Regroup(multiset([q[0]]), multiset(p), tq);
      }
    }
  }

  lemma SplitOff<T>(s: seq<T>, k: nat)
    ensures s == Prefix(s, k) + Rest(s, k)
  {}

  lemma {:induction false} PassPermutes<T>(s: seq<Element<T>>, k: nat, cmp: Comparator<T>)
    requires k > 0
    ensures |Pass(s, k, cmp)| == |s|
    ensures multiset(Pass(s, k, cmp)) == multiset(s)
    decreases |s|
  {
    hide Merge, Prefix;
    if s == [] {
    } else {
      var p, q, r := Prefix(s, k), Prefix(Rest(s, k), k), Rest(Rest(s, k), k);
      MergeLength(p, q, cmp);
      MergePermutes(p, q, cmp);
      PassPermutes(r, k, cmp);
      SplitOff(s, k);
      SplitOff(Rest(s, k), k);
      MultisetOfTwo(s, p, Rest(s, k));
      MultisetOfTwo(Rest(s, k), q, r);
      Regroup(multiset(p), multiset(q), multiset(r));
      MultisetOfTwo(Pass(s, k, cmp), Merge(p, q, cmp), Pass(r, k, cmp));
    }
  }

  /** The passes from run length k up to the one that merges everything. */
  ghost function Passes<T>(s: seq<Element<T>>, k: nat, cmp: Comparator<T>): seq<Element<T>>
    requires k > 0
    decreases |s| - 2 * k
  {
    PassPermutes(s, k, cmp);
    if |s| <= 2 * k then Pass(s, k, cmp) else Passes(Pass(s, k, cmp), 2 * k, cmp)
  }

  /** For any comparator at all, the sort permutes. */
  lemma {:induction false} PassesPermute<T>(s: seq<Element<T>>, k: nat, cmp: Comparator<T>)
    requires k > 0
    ensures multiset(Passes(s, k, cmp)) == multiset(s)
    decreases |s| - 2 * k
  {
    PassPermutes(s, k, cmp);
    if |s| > 2 * k { PassesPermute(Pass(s, k, cmp), 2 * k, cmp); }
  }

  lemma {:induction false} PassesOfBlocks<T(!new)>(s: seq<Element<T>>, k: nat, cmp: Comparator<T>)
    requires TotalPreorder(cmp) && k > 0
    ensures Passes(Blocks(s, k, cmp), k, cmp) == Stable(s, cmp)
    decreases |s| - 2 * k
  {
    hide TotalPreorder, Stable, Blocks, Pass;
    BlocksSplit(s, k, cmp);
    PassDoubles(s, k, cmp);
    if |s| <= 2 * k {
      BlocksWhole(s, 2 * k, cmp);
    } else {
      PassesOfBlocks(s, 2 * k, cmp);
    }
  }

  /** The passes from run length one are the stable sort. */
  lemma PassesSort<T(!new)>(s: seq<Element<T>>, cmp: Comparator<T>)
    requires TotalPreorder(cmp)
    ensures Passes(s, 1, cmp) == Stable(s, cmp)
  {
    BlocksOfOne(s, cmp);
    PassesOfBlocks(s, 1, cmp);
  }

  // ---------- how many passes ----------

  /** k is the least number, but at least one, with 2^k >= n. */
  ghost predicate PassesFor(n: nat, k: nat) {
    k >= 1 && n <= Pow2(k) && (k == 1 || Pow2(k - 1) < n)
  }
}

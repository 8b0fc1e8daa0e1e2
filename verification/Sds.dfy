/** The dynamic string of sds.c: a byte buffer behind one of five headers. */
module Sds {
  import opened Arithmetic
  import opened Bytes

  const TYPE_5: nat := 0
  const TYPE_8: nat := 1
  const TYPE_16: nat := 2
  const TYPE_32: nat := 3
  const TYPE_64: nat := 4

  const MAX_PREALLOC: nat := 0x10_0000
  const SIZE_LIMIT: nat := 0x1_0000_0000_0000_0000

  /** One more than the largest length or allocation that a header can record. */
  function Limit(t: nat): nat
    requires t <= TYPE_64
  {
    if t == TYPE_5 then 0x20
    else if t == TYPE_8 then 0x100
    else if t == TYPE_16 then 0x1_0000
    else if t == TYPE_32 then 0x1_0000_0000
    else SIZE_LIMIT
  }

  /** A type 8 header counts in a byte, and each wider one in twice as many bytes as the one before. */
  lemma WidthsDouble()
    ensures Limit(TYPE_5) == 32 && Limit(TYPE_8) == 256
    ensures forall t :: TYPE_8 <= t < TYPE_64 ==> Limit(t + 1) == Limit(t) * Limit(t)
  {}

  /** sdsReqType. */
  function ReqType(size: nat): (t: nat)
    ensures t <= TYPE_64
    ensures size < SIZE_LIMIT ==> size < Limit(t)
    ensures forall u: nat :: u < t ==> Limit(u) <= size
  {
    if size < 0x20 then TYPE_5
    else if size < 0x100 then TYPE_8
    else if size < 0x1_0000 then TYPE_16
    else if size < 0x1_0000_0000 then TYPE_32
    else TYPE_64
  }

  /** Three bits of type and five of length share a byte. */
  lemma PackedLength(n: nat)
    ensures var f := (TYPE_5 + n * 8) % 0x100; f % 8 == TYPE_5 && (n < 0x20 ==> f / 8 == n && f == TYPE_5 + n * 8)
  {
    ModOf(n * 8, 0x100, n / 0x20, n % 0x20 * 8);
  }

  /** What fits a field is stored exactly. */
  lemma Fits(n: nat, limit: nat)
    requires limit > 0
    ensures n < limit ==> n % limit == n
  {
    if n < limit { ModOf(n, limit, 0, n); }
  }

  /** A header other than type 5 has nothing but its type in flags. */
  lemma WideFlags(flags: nat)
    requires flags <= TYPE_64
    ensures flags % 8 == flags && flags / 8 == 0
  {}

  function Zeros(n: int): (r: bytes)
    ensures |r| == if n > 0 then n else 0
    ensures forall i :: 0 <= i < |r| ==> r[i] == NUL
  {
    if n <= 0 then [] else seq(n, _ => NUL)
  }

  /** The conversion to unsigned int. */
  function AsUnsigned(n: nat): nat { n % UINT_LIMIT }

  /** The C assertion. Negating incr is cut to 32 bits except for type 64, and for type 32 so is incr. */
  predicate IncrAssert(t: nat, len: nat, alloc: nat, incr: int) {
    if t == TYPE_5 then
      (incr > 0 && len + incr < 32) || (incr < 0 && len >= AsUnsigned(-incr))
    else if t == TYPE_64 then
      (incr >= 0 && alloc - len >= incr) || (incr < 0 && len >= -incr)
    else if t == TYPE_32 then
      (incr >= 0 && alloc - len >= AsUnsigned(incr)) || (incr < 0 && len >= AsUnsigned(-incr))
    else
      (incr >= 0 && alloc - len >= incr) || (incr < 0 && len >= AsUnsigned(-incr))
  }

  lemma SmallUnsigned(n: nat)
    ensures AsUnsigned(n) <= n && (n < UINT_LIMIT ==> AsUnsigned(n) == n)
  {}

  class String {
    var flags: nat
    var lenField: nat
    var allocField: nat
    var buf: array<byte>

    /** sdslen: type 5 keeps its length in the upper five bits of flags. */
    function Len(): nat
      reads this
    {
      if flags % 8 == TYPE_5 then flags / 8 else lenField
    }

    /** sdsalloc. */
    function Alloc(): nat
      reads this
    {
      if flags % 8 == TYPE_5 then flags / 8 else allocField
    }

    /** sdsavail. */
    function Avail(): int
      reads this
    {
      if flags % 8 == TYPE_5 then 0 else allocField - lenField
    }

    ghost predicate HeaderOk()
      reads this
    {
      && flags < 0x100 && flags % 8 <= TYPE_64 && (flags % 8 != TYPE_5 ==> flags / 8 == 0)
      && Len() <= Alloc() < Limit(flags % 8)
    }

    ghost predicate Valid()
      reads this, buf
    {
      HeaderOk() && Alloc() < buf.Length && buf[Len()] == NUL
    }

    ghost function Contents(): bytes
      requires Valid()
      reads this, buf
    {
      buf[..Len()]
    }

    /** sdssetlen, with the width of the field it stores to. */
    method SetLen(n: nat)
      requires flags < 0x100 && flags % 8 <= TYPE_64
      modifies this`flags, this`lenField
      ensures flags % 8 == old(flags) % 8 && flags < 0x100
      ensures n < Limit(flags % 8) ==> Len() == n
      ensures flags % 8 != TYPE_5 ==> flags == old(flags)
    {
      if flags % 8 == TYPE_5 {
        PackedLength(n);
        flags := (TYPE_5 + n * 8) % 0x100;
      } else {
        Fits(n, Limit(flags % 8));
        lenField := n % Limit(flags % 8);
      }
    }

    /** sdssetalloc. */
    method SetAlloc(n: nat)
      requires flags % 8 <= TYPE_64
      modifies this`allocField
      ensures flags % 8 != TYPE_5 && n < Limit(flags % 8) ==> Alloc() == n
    {
      if flags % 8 != TYPE_5 {
        Fits(n, Limit(flags % 8));
        allocField := n % Limit(flags % 8);
      }
    }

    /** sdsnewlen. */
    constructor (init: bytes)
      requires |init| < SIZE_LIMIT
      ensures Valid() && Contents() == init && fresh(buf)
      ensures Alloc() == |init| && buf.Length == |init| + 1
      ensures flags % 8 == if init == [] then TYPE_8 else ReqType(|init|)
    {
      var t := ReqType(|init|);
      if t == TYPE_5 && |init| == 0 { t := TYPE_8; }
      var b := new byte[|init| + 1](i requires 0 <= i <= |init| => if i < |init| then init[i] else NUL);
      buf := b;
      PackedLength(|init|);
      WideFlags(t);
      Fits(|init|, Limit(t));
      if t == TYPE_5 {
        flags, lenField, allocField := TYPE_5 + |init| * 8, 0, 0;
      } else {
        flags, lenField, allocField := t, |init| % Limit(t), |init| % Limit(t);
      }
    }

    /** The allocation and copy of s_realloc, or of s_malloc and memcpy. */
    method Reallocate(size: nat) returns (ghost copied: nat)
      requires Valid() && Len() < size
      modifies this`buf
      ensures fresh(buf) && buf.Length == size && copied == Len() + 1
      ensures buf[..Len()] == old(buf[..Len()]) && buf[Len()] == NUL
    {
      var b := new byte[size];
      var n := Len() + 1;
      forall i | 0 <= i < n { b[i] := buf[i]; }
      buf, copied := b, n;
    }

    /** Keeps the header, or puts a new one of type t before the len bytes; then stores the allocation. */
    method Relabel(keep: bool, t: nat, len: nat, alloc: nat)
      requires HeaderOk() && Len() == len && len <= alloc < buf.Length && t <= TYPE_64
      requires if keep then alloc < Limit(flags % 8) else alloc < Limit(t)
      requires keep ==> flags % 8 != TYPE_5
      requires !keep && t == TYPE_5 ==> len == alloc
      modifies this`flags, this`lenField, this`allocField
      ensures HeaderOk() && Len() == len && Alloc() == alloc
      ensures flags % 8 == if keep then old(flags % 8) else t
    {
      if !keep {
        flags := t;
        SetLen(len);
      }
      SetAlloc(alloc);
    }

    /** sdsMakeRoomFor. copied counts the bytes that move to another place. */
    method MakeRoomFor(addlen: nat) returns (ghost copied: nat)
      requires Valid() && Len() + addlen + MAX_PREALLOC < SIZE_LIMIT
      modifies this
      ensures Valid() && Contents() == old(Contents())
      ensures addlen <= Avail() && (addlen > 0 ==> flags % 8 != TYPE_5)
      ensures buf == old(buf) || fresh(buf)
      ensures addlen <= old(Avail()) ==> buf == old(buf) && Alloc() == old(Alloc()) && flags == old(flags)
      ensures addlen > old(Avail()) ==>
                var need := old(Len()) + addlen; Alloc() == need + Min(need, MAX_PREALLOC) == buf.Length - 1
      ensures copied == if addlen > old(Avail()) then old(Len()) + 1 else 0
      ensures addlen > old(Avail()) ==> flags % 8 == if ReqType(Alloc()) == TYPE_5 then TYPE_8 else ReqType(Alloc())
    {
      copied := 0;
      if Avail() >= addlen { return; }
      var len, oldtype := Len(), flags % 8;
      var newlen := len + addlen;
      if newlen < MAX_PREALLOC { newlen := newlen * 2; } else { newlen := newlen + MAX_PREALLOC; }
      var t := ReqType(newlen);
      if t == TYPE_5 { t := TYPE_8; }
      copied := Reallocate(newlen + 1);
      Relabel(oldtype == t, t, len, newlen);
    }

    /** sdsRemoveFreeSpace. */
    method RemoveFreeSpace()
      requires Valid()
      modifies this
      ensures Valid() && Contents() == old(Contents()) && Avail() == 0
      ensures buf == old(buf) || fresh(buf)
      ensures old(Avail()) != 0 ==> buf.Length == Len() + 1
      ensures old(Avail()) != 0 ==> flags % 8 == if ReqType(Len()) > TYPE_8 then old(flags % 8) else ReqType(Len())
    {
      if Avail() == 0 { return; }
      var len, oldtype := Len(), flags % 8;
      var t := ReqType(len);
      ghost var copied := Reallocate(len + 1);
      Relabel(oldtype == t || t > TYPE_8, t, len, len);
    }

    /** memcpy of t to s + at, and the NUL behind it. */
    method Write(at: nat, t: bytes)
      requires at + |t| < buf.Length
      modifies buf
      ensures buf[..at] == old(buf[..at]) && buf[at..at + |t|] == t && buf[at + |t|] == NUL
    {
      forall i | 0 <= i < |t| { buf[at + i] := t[i]; }
      buf[at + |t|] := NUL;
    }

    /** Stores n as the length, over n bytes and a NUL already in place. */
    method Commit(n: nat)
      requires HeaderOk() && Alloc() < buf.Length && n < buf.Length && buf[n] == NUL
      requires if flags % 8 == TYPE_5 then n < Limit(TYPE_5) else n <= Alloc()
      modifies this`flags, this`lenField
      ensures Valid() && Contents() == buf[..n] && flags % 8 == old(flags % 8)
    {
      SetLen(n);
    }

    /** sdscatlen. */
    method CatLen(t: bytes) returns (ghost copied: nat)
      requires Valid() && Len() + |t| + MAX_PREALLOC < SIZE_LIMIT
      modifies this, buf
      ensures Valid() && Contents() == old(Contents()) + t
      ensures buf == old(buf) || fresh(buf)
      ensures if |t| > old(Avail()) then copied == old(Len()) + 1 && Alloc() == Len() + Min(Len(), MAX_PREALLOC)
              else copied == 0 && Alloc() == old(Alloc())
    {
      var curlen := Len();
      copied := MakeRoomFor(|t|);
      Write(curlen, t);
      assert buf[..curlen + |t|] == buf[..curlen] + buf[curlen..curlen + |t|];
      Commit(curlen + |t|);
    }

    /** sdscpylen. */
    method CpyLen(t: bytes)
      requires Valid() && |t| + MAX_PREALLOC < SIZE_LIMIT
      modifies this, buf
      ensures Valid() && Contents() == t
      ensures buf == old(buf) || fresh(buf)
    {
      if Alloc() < |t| { ghost var copied := MakeRoomFor(|t| - Len()); }
      Write(0, t);
      Commit(|t|);
    }

    /** sdsgrowzero. */
    method GrowZero(n: nat)
      requires Valid() && n + MAX_PREALLOC < SIZE_LIMIT
      modifies this, buf
      ensures Valid() && Contents() == old(Contents()) + Zeros(n - old(Len()))
      ensures buf == old(buf) || fresh(buf)
    {
      var curlen := Len();
      if n <= curlen { return; }
      ghost var copied := MakeRoomFor(n - curlen);
      Write(curlen, Zeros(n - curlen));
      assert buf[..n] == buf[..curlen] + buf[curlen..n];
      Commit(n);
    }

    /** sdsclear. */
    method Clear()
      requires Valid()
      modifies this, buf
      ensures Valid() && Contents() == [] && buf == old(buf)
    {
      Write(0, []);
      Commit(0);
    }

    /** sdsIncrLen, for callers that keep its contract: a growth covers bytes the caller has already
        written into free space, and a shrinkage is within the length. The first assert is the C one. */
    method IncrLen(incr: int)
      requires HeaderOk() && Alloc() < buf.Length && incr < SIZE_LIMIT
      requires incr >= 0 ==> Len() + incr < buf.Length
      requires flags % 8 == TYPE_5 ==> incr != 0 && Len() + incr < Limit(TYPE_5)
      requires flags % 8 != TYPE_5 ==> incr <= Avail()
      requires incr < 0 ==> -incr <= Len()
      modifies this, buf
      ensures Valid() && Contents() == old(buf[..Len() + incr]) && buf == old(buf)
    {
      assert IncrAssert(flags % 8, Len(), Alloc(), incr) by {
        if incr >= 0 { SmallUnsigned(incr); } else { SmallUnsigned(-incr); }
      }
      var len := Len() + incr;
      PackedLength(len);
      if flags % 8 == TYPE_5 {
        flags := TYPE_5 + len * 8;
      } else {
        lenField := len;
      }
      buf[len] := NUL;
    }
  }

  // ---------- the assertion in sdsIncrLen ----------

  /** What the assertion is for: the new length is within the allocation. */
  predicate IncrInRange(t: nat, len: nat, alloc: nat, incr: int) {
    0 <= len + incr <= if t == TYPE_5 then 31 else alloc
  }

  /** Where the assertion and the range differ: it refuses no change at all to a type 5 string, and
      lets through a change out of range whose cut amount is small enough. */
  predicate IncrMisjudged(t: nat, len: nat, alloc: nat, incr: int) {
    || (t == TYPE_5 && incr == 0)
    || (t != TYPE_64 && len + incr < 0 && AsUnsigned(-incr) <= len)
    || (t == TYPE_32 && incr >= 0 && len + incr > alloc && AsUnsigned(incr) <= alloc - len)
  }

  lemma IncrAssertExact(t: nat, len: nat, alloc: nat, incr: int)
    requires t <= TYPE_64 && len <= alloc < Limit(t) && (t == TYPE_5 ==> len == alloc)
    ensures (IncrAssert(t, len, alloc, incr) <==> IncrInRange(t, len, alloc, incr)) <==>
            !IncrMisjudged(t, len, alloc, incr)
  {
    if incr >= 0 { SmallUnsigned(incr); } else { SmallUnsigned(-incr); }
  }

  /** For amounts that 32 bits can hold, and for type 64, only leaving a type 5 string as it is gets refused. */
  lemma SmallAmountsJudged(t: nat, len: nat, alloc: nat, incr: int)
    requires t <= TYPE_64 && len <= alloc < Limit(t) && (t == TYPE_5 ==> len == alloc)
    requires t == TYPE_64 || 0 - UINT_LIMIT < incr < UINT_LIMIT
    ensures (IncrAssert(t, len, alloc, incr) <==> IncrInRange(t, len, alloc, incr)) <==>
            !(t == TYPE_5 && incr == 0)
  {
    if incr >= 0 { SmallUnsigned(incr); } else { SmallUnsigned(-incr); }
  }

  /** A decrease by 2^32 of an empty type 8 string passes the assertion. */
  lemma HugeDecreaseAccepted()
    ensures IncrAssert(TYPE_8, 0, 0, -0x1_0000_0000) && !IncrInRange(TYPE_8, 0, 0, -0x1_0000_0000)
  {
    assert AsUnsigned(0x1_0000_0000) == 0;
  }

  // ---------- whole runs ----------

  datatype Op =
    | Cat(t: bytes)
    | Cpy(t: bytes)
    | Grow(n: nat)
    | Fill(t: bytes)    // sdsMakeRoomFor, bytes written behind the string, then sdsIncrLen by their number
    | Chop(n: nat)      // sdsIncrLen by -n
    | Squeeze           // sdsRemoveFreeSpace
    | Empty             // sdsclear

  /** The effect of an operation on a plain byte string. */
  function Apply(s: bytes, op: Op): bytes {
    match op
    case Cat(t) => s + t
    case Cpy(t) => t
    case Grow(n) => s + Zeros(n - |s|)
    case Fill(t) => s + t
    case Chop(n) => if n <= |s| then s[..|s| - n] else s
    case Squeeze => s
    case Empty => []
  }

  /** The caller keeps the contracts, and sizes stay clear of SIZE_MAX. */
  predicate InContract(s: bytes, op: Op) {
    match op
    case Cat(t) => |s| + |t| + MAX_PREALLOC < SIZE_LIMIT
    case Cpy(t) => |t| + MAX_PREALLOC < SIZE_LIMIT
    case Grow(n) => n + MAX_PREALLOC < SIZE_LIMIT
    case Fill(t) => t != [] && |s| + |t| + MAX_PREALLOC < SIZE_LIMIT
    case Chop(n) => 0 < n <= |s|
    case Squeeze => true
    case Empty => true
  }

  predicate AllInContract(s: bytes, ops: seq<Op>)
    decreases |ops|
  {
    ops == [] || (InContract(s, ops[0]) && AllInContract(Apply(s, ops[0]), ops[1..]))
  }

  function ApplyAll(s: bytes, ops: seq<Op>): bytes
    decreases |ops|
  {
    if ops == [] then s else ApplyAll(Apply(s, ops[0]), ops[1..])
  }

  /** The documented use of sdsIncrLen: bytes read straight into the free space. */
  method FillIn(s: String, t: bytes)
    requires s.Valid() && t != [] && s.Len() + |t| + MAX_PREALLOC < SIZE_LIMIT
    modifies s, s.buf
    ensures s.Valid() && s.Contents() == old(s.Contents()) + t
    ensures s.buf == old(s.buf) || fresh(s.buf)
  {
    var len := s.Len();
    ghost var copied := s.MakeRoomFor(|t|);
    s.Write(len, t);
    assert s.buf[..len + |t|] == s.buf[..len] + s.buf[len..len + |t|];
    s.IncrLen(|t|);
  }

  method Perform(s: String, op: Op)
    requires s.Valid() && InContract(s.Contents(), op)
    modifies s, s.buf
    ensures s.Valid() && s.Contents() == Apply(old(s.Contents()), op)
    ensures s.buf == old(s.buf) || fresh(s.buf)
  {
    match op
    case Cat(t) => ghost var copied := s.CatLen(t);
    case Cpy(t) => s.CpyLen(t);
    case Grow(n) => s.GrowZero(n);
    case Fill(t) => FillIn(s, t);
    case Chop(n) => s.IncrLen(0 - n);
    case Squeeze => s.RemoveFreeSpace();
    case Empty => s.Clear();
  }

  /** Any sequence of operations does to the string what it does to a plain byte string, and leaves it
      valid: length within allocation, allocation within the header's width, NUL behind the bytes. */
  method PerformAll(s: String, ops: seq<Op>)
    requires s.Valid() && AllInContract(s.Contents(), ops)
    modifies s, s.buf
    ensures s.Valid() && s.Contents() == ApplyAll(old(s.Contents()), ops)
    decreases |ops|
  {
    if ops != [] {
      Perform(s, ops[0]);
      PerformAll(s, ops[1..]);
    }
  }
}

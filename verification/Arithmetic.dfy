/** Unsigned arithmetic of C on natural numbers. */
module Arithmetic {

  const UINT_LIMIT: nat := 0x1_0000_0000

  function Min(a: nat, b: nat): nat { if a < b then a else b }

  function Pow2(n: nat): (r: nat)
    ensures r > 0
  {
    if n == 0 then 1 else 2 * Pow2(n - 1)
  }

  /** Bitwise and. */
  function And(a: nat, b: nat): nat {
    if a == 0 || b == 0 then 0 else a % 2 * (b % 2) + 2 * And(a / 2, b / 2)
  }

  /** Right shift. */
  function Shr(a: nat, k: nat): nat {
    if k == 0 then a else Shr(a / 2, k - 1)
  }

  lemma {:induction false} MultipleAtLeast(m: nat, x: int)
    ensures x >= 1 ==> m * x >= m
    ensures x <= -1 ==> m * x <= 0 - m
  {
    if x >= 1 {
      assert m * x == m + m * (x - 1);
    } else if x <= -1 {
      assert m * x == 0 - m + m * (x + 1);
    }
  }

  lemma QuotientUnique(m: nat, d: int, r: nat, d': int, r': nat)
    requires r < m && r' < m && m * d + r == m * d' + r'
    ensures d == d' && r == r'
  {
    MultipleAtLeast(m, d - d');
    assert m * (d - d') == m * d - m * d';
  }

  /** Division by m > 0 is determined by a == m * d + r. */
  lemma ModOf(a: int, m: nat, d: int, r: nat)
    requires m > 0 && r < m && a == m * d + r
    ensures a % m == r && a / m == d
  {
    assert a == m * (a / m) + a % m;
    QuotientUnique(m, d, r, a / m, a % m);
  }

  lemma HalfOfMod(a: nat, m: nat)
    requires m > 0
    ensures a % (2 * m) == a % 2 + 2 * (a / 2 % m)
    ensures a / (2 * m) == a / 2 / m
  {
    var h := a / 2;
    var d, r := h / m, h % m;
    assert h == m * d + r;
    assert 2 * h == (2 * m) * d + 2 * r;
    ModOf(a, 2 * m, d, a % 2 + 2 * r);
  }

  /** The mask of a power of two is the remainder. */
  lemma {:induction false} MaskIsMod(a: nat, k: nat)
    ensures And(a, Pow2(k) - 1) == a % Pow2(k)
  {
    if k == 0 {
    } else {
      var p := Pow2(k - 1);
      MaskIsMod(a / 2, k - 1);
      HalfOfMod(a, p);
      assert (2 * p - 1) / 2 == p - 1 && (2 * p - 1) % 2 == 1;
      hide Pow2;
      if a == 0 { ModOf(0, 2 * p, 0, 0); }
    }
  }

  lemma {:induction false} ShrIsDiv(a: nat, k: nat)
    ensures Shr(a, k) == a / Pow2(k)
  {
    if k == 0 {
    } else {
      ShrIsDiv(a / 2, k - 1);
      HalfOfMod(a, Pow2(k - 1));
    }
  }

  /** A remainder by n is found from the remainder by 2n. */
  lemma ModOfDouble(a: nat, n: nat)
    requires n > 0
    ensures a % (2 * n) % n == a % n
    ensures a % (2 * n) == a % n || a % (2 * n) == a % n + n
  {
    var d, r := a / (2 * n), a % (2 * n);
    assert a == n * (2 * d) + r;
    if r < n {
      ModOf(a, n, 2 * d, r);
      ModOf(r, n, 0, r);
    } else {
      assert a == n * (2 * d + 1) + (r - n);
      ModOf(a, n, 2 * d + 1, r - n);
      ModOf(r, n, 1, r - n);
    }
  }
}

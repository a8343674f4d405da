/** Integer helpers shared by the other modules. */
module Arith {
  function Min(a: int, b: int): int { if a <= b then a else b }

  function Max(a: int, b: int): int { if a <= b then b else a }

  lemma Distribute(n: int, a: int, b: int)
    ensures n * (a + b) == n * a + n * b
  {
  }

  // ---------------------------------------------------------------- powers of two

  function Pow2(k: nat): nat { if k == 0 then 1 else 2 * Pow2(k - 1) }

  /** n / 2 rounded up. */
  function HalfUp(n: nat): nat { (n + 1) / 2 }

  /** log2 of r rounded up. */
  function CeilLog2(r: nat): nat {
    if r <= 1 then 0 else 1 + CeilLog2(HalfUp(r))
  }

  /** CeilLog2(r) is the least k with r <= 2^k. */
  lemma {:induction false} CeilLog2Least(r: nat)
    ensures r <= Pow2(CeilLog2(r))
    ensures forall k: nat | r <= Pow2(k) :: CeilLog2(r) <= k
  {
    if r > 1 {
      CeilLog2Least(HalfUp(r));
      forall k: nat | r <= Pow2(k) ensures CeilLog2(r) <= k {
        assert k > 0;
        assert HalfUp(r) <= Pow2(k - 1);
      }
    }
  }

  // ---------------------------------------------------------------- masks and shifts

  /** Bitwise AND of unsigned numbers. */
  function BitAnd(a: nat, b: nat): nat {
    if a == 0 || b == 0 then 0
    else 2 * BitAnd(a / 2, b / 2) + (if a % 2 == 1 && b % 2 == 1 then 1 else 0)
  }

  function ShiftRight(a: nat, k: nat): nat {
    if k == 0 then a else ShiftRight(a / 2, k - 1)
  }

  lemma DivModUnique(a: nat, m: nat, q: nat, r: nat)
    requires r < m && a == m * q + r
    ensures a / m == q && a % m == r
  {
    assert a == m * (a / m) + a % m;
    var d := a / m - q;
    assert m * d == r - a % m by { assert m * d == m * (a / m) - m * q; }
    assert d >= 1 ==> m * d >= m;
    assert d <= -1 ==> m * d + m <= 0;
  }

  lemma Halve(a: nat, m: nat)
    requires m > 0
    ensures a / (2 * m) == a / 2 / m && a % (2 * m) == 2 * (a / 2 % m) + a % 2
  {
    var q, r := a / 2 / m, a / 2 % m;
    assert a / 2 == m * q + r;
    assert 2 * m * q == 2 * (m * q);
    DivModUnique(a, 2 * m, q, 2 * r + a % 2);
  }

  /** Masking with 2^k - 1 is taking the remainder by 2^k. */
  lemma {:induction false} MaskIsMod(a: nat, k: nat)
    ensures Pow2(k) > 0 && BitAnd(a, Pow2(k) - 1) == a % Pow2(k)
  {
    if k > 0 {
      MaskIsMod(a / 2, k - 1);
      Halve(a, Pow2(k - 1));
    }
  }

  /** Shifting right by k is dividing by 2^k. */
  lemma {:induction false} ShiftIsDiv(a: nat, k: nat)
    ensures Pow2(k) > 0 && ShiftRight(a, k) == a / Pow2(k)
  {
    if k > 0 {
      ShiftIsDiv(a / 2, k - 1);
      Halve(a, Pow2(k - 1));
    }
  }

  // ---------------------------------------------------------------- rounding up

  /** n / m rounded up: how many portions of m cover n, a last short one counting as one. */
  ghost function CeilDiv(n: nat, m: nat): nat
    requires m > 0
  {
    if n == 0 then 0 else 1 + CeilDiv(n - Min(m, n), m)
  }

  lemma {:induction false} CeilDivBounds(n: nat, m: nat)
    requires m > 0
    ensures m * CeilDiv(n, m) >= n && (n > 0 ==> CeilDiv(n, m) > 0 && m * (CeilDiv(n, m) - 1) < n)
  {
    if n > 0 {
      var rest := CeilDiv(n - Min(m, n), m);
      CeilDivBounds(n - Min(m, n), m);
      Distribute(m, 1, rest);
      if rest > 0 { Distribute(m, 1, rest - 1); }
    }
  }

  /** Quotient and remainder give the same. */
  lemma {:induction false} CeilDivByParts(n: nat, m: nat)
    requires m > 0
    ensures CeilDiv(n, m) == n / m + (if n % m != 0 then 1 else 0)
  {
    if n >= m {
      CeilDivByParts(n - m, m);
      var q, r := (n - m) / m, (n - m) % m;
      assert n - m == m * q + r;
      Distribute(m, 1, q);
      DivModUnique(n, m, q + 1, r);
    } else if n > 0 {
      DivModUnique(n, m, 0, n);
    } else {
      DivModUnique(0, m, 0, 0);
    }
  }
}

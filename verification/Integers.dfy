/** Facts about products, quotients and remainders that the modules share. */
module Integers {
  /** The number of values of an unsigned 64-bit word. */
  const WORD := 0x1_0000_0000_0000_0000

  function Min(a: int, b: int): int { if a < b then a else b }

  function Max(a: int, b: int): int { if a < b then b else a }

  function Abs(x: int): int { if x < 0 then -x else x }

  function BitValue(bit: bool): nat { if bit then 1 else 0 }

  /** A counted position in something of `size` places: a ring cell, a pool slot. */
  function Cell(position: int, size: nat): (c: nat)
    requires size > 0
    ensures c < size
  {
    position % size
  }

  lemma ProductMonotone(a: int, b: int, d: int)
    requires a <= b && 0 <= d
    ensures a * d <= b * d
    ensures 0 <= a ==> 0 <= a * d
  {}

  /** k times d, as a name that proofs can hide. */
  function Multiple(k: nat, d: nat): nat { k * d }

  lemma MultipleSteps(k: nat, d: nat, m: nat)
    ensures Multiple(0, d) == 0
    ensures Multiple(k + 1, d) == Multiple(k, d) + d
    ensures k <= m ==> Multiple(k, d) <= Multiple(m, d)
  {
    if k <= m {
      ProductMonotone(k, m, d);
    }
  }

  lemma DivModUnique(a: int, d: int, q: int, r: int)
    requires d > 0 && a == q * d + r && 0 <= r < d
    ensures a / d == q && a % d == r
  {
    var k := a / d;
    assert a == k * d + a % d;
    if k < q {
      ProductMonotone(k + 1, q, d);
    } else if k > q {
      ProductMonotone(q + 1, k, d);
    }
  }

  lemma DivModShift(a: int, d: int, n: int)
    requires d > 0
    ensures (a + n * d) / d == a / d + n
    ensures (a + n * d) % d == a % d
  {
    var k := a / d;
    assert (k + n) * d == k * d + n * d;
    DivModUnique(a + n * d, d, k + n, a % d);
  }

  lemma DivMonotone(a: int, b: int, d: int)
    requires d > 0 && a <= b
    ensures a / d <= b / d
  {
    var p, q := a / d, b / d;
    if q < p {
      ProductMonotone(q + 1, p, d);
    }
  }

  lemma DivBounds(a: int, d: int)
    requires d > 0
    ensures a / d * d <= a < a / d * d + d
    ensures a - a / d * d == a % d
  {}

  lemma SameRemainder(a: int, b: int, d: int)
    requires d > 0
    ensures a % d == b % d <==> (a - b) % d == 0
  {
    DivBounds(a, d);
    DivBounds(b, d);
    var p, q := a / d, b / d;
    if a % d == b % d {
      assert a - b == (p - q) * d;
      DivModUnique(a - b, d, p - q, 0);
    }
    if (a - b) % d == 0 {
      DivBounds(a - b, d);
      DivModShift(b, d, (a - b) / d);
    }
  }

  lemma SmallMod(a: int, d: int)
    requires 0 <= a < d
    ensures a % d == a && a / d == 0
  {}

  function Pow2(k: nat): (p: nat)
    ensures p >= 1
  {
    if k == 0 then 1 else 2 * Pow2(k - 1)
  }

  lemma {:induction false} Pow2Monotone(j: nat, k: nat)
    requires j <= k
    ensures Pow2(j) <= Pow2(k)
    decreases k - j
  {
    if j < k {
      Pow2Monotone(j + 1, k);
    }
  }

  lemma {:induction false} Pow2Add(j: nat, k: nat)
    ensures Pow2(j + k) == Pow2(j) * Pow2(k)
  {
    if j > 0 {
      Pow2Add(j - 1, k);
      assert 2 * (Pow2(j - 1) * Pow2(k)) == 2 * Pow2(j - 1) * Pow2(k);
    }
  }

  /** A remainder of a remainder, for a modulus that divides the other. */
  lemma ModOfMod(a: int, d: int, n: int)
    requires d > 0 && n > 0
    ensures n * d > 0
    ensures a % (n * d) % d == a % d
  {
    ProductMonotone(1, n, d);
    var q := a / (n * d);
    DivBounds(a, n * d);
    assert q * (n * d) == (q * n) * d;
    DivModShift(a % (n * d), d, q * n);
  }
}

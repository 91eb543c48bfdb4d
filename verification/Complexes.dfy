/**
 Complex samples over exact reals (include/complex.hpp), finite sums of them, and
 integer powers of a phasor. Every lemma that only needs the laws of the ring
 starts with `hide *`, so the solver never sees the real products behind `Mul`.
 */
module Complexes {
  datatype Complex = Complex(re: real, im: real)

  const ZERO := Complex(0.0, 0.0)
  const ONE := Complex(1.0, 0.0)
  /** The imaginary unit. */
  const J := Complex(0.0, 1.0)

  function Real(r: real): Complex { Complex(r, 0.0) }

  function Add(a: Complex, b: Complex): Complex {
    Complex(a.re + b.re, a.im + b.im)
  }

  function Sub(a: Complex, b: Complex): Complex {
    Complex(a.re - b.re, a.im - b.im)
  }

  function Mul(a: Complex, b: Complex): Complex {
    Complex(a.re * b.re - a.im * b.im, a.re * b.im + a.im * b.re)
  }

  function Conj(a: Complex): Complex { Complex(a.re, -a.im) }

  /** Squared magnitude. */
  function Norm(a: Complex): real { Square(a.re) + Square(a.im) }

  function Square(x: real): real { x * x }

  /** The operations by component, for samples (a, b) and (c, d). */
  lemma ByParts(a: real, b: real, c: real, d: real)
    ensures Add(Complex(a, b), Complex(c, d)) == Complex(a + c, b + d)
    ensures Mul(Complex(a, b), Complex(c, d)) == Complex(a * c - b * d, a * d + b * c)
    ensures Conj(Complex(a, b)) == Complex(a, -b) && Norm(Complex(a, b)) == a * a + b * b
    ensures ZERO == Complex(0.0, 0.0) && ONE == Complex(1.0, 0.0) && Real(a) == Complex(a, 0.0)
  {}

  lemma AddLaws(a: Complex, b: Complex, c: Complex)
    ensures Add(a, b) == Add(b, a)
    ensures Add(Add(a, b), c) == Add(a, Add(b, c))
    ensures Add(a, ZERO) == a == Add(ZERO, a)
  {}

  lemma AddSwapMiddle(a: Complex, b: Complex, c: Complex, d: Complex)
    ensures Add(Add(a, b), Add(c, d)) == Add(Add(a, c), Add(b, d))
  {}

  lemma MulComm(a: Complex, b: Complex)
    ensures Mul(a, b) == Mul(b, a)
  {}

  lemma MulAssoc(a: Complex, b: Complex, c: Complex)
    ensures Mul(Mul(a, b), c) == Mul(a, Mul(b, c))
  {}

  lemma MulUnits(a: Complex)
    ensures Mul(ONE, a) == a == Mul(a, ONE)
    ensures Mul(ZERO, a) == ZERO == Mul(a, ZERO)
  {}

  lemma MulAdd(a: Complex, b: Complex, c: Complex)
    ensures Mul(a, Add(b, c)) == Add(Mul(a, b), Mul(a, c))
    ensures Mul(Add(b, c), a) == Add(Mul(b, a), Mul(c, a))
  {}

  lemma MulSub(a: Complex, b: Complex, c: Complex)
    ensures Mul(Sub(b, c), a) == Sub(Mul(b, a), Mul(c, a))
  {}

  lemma Telescope(a: Complex, b: Complex, c: Complex)
    ensures Add(Sub(b, a), Sub(c, b)) == Sub(c, a)
  {}

  lemma MulSwapMiddle(a: Complex, b: Complex, c: Complex, d: Complex)
    ensures Mul(Mul(a, b), Mul(c, d)) == Mul(Mul(a, c), Mul(b, d))
  {
    hide *;
    MulAssoc(a, b, Mul(c, d));
    MulAssoc(b, c, d);
    MulComm(b, c);
    MulAssoc(c, b, d);
    MulAssoc(a, c, Mul(b, d));
  }

  lemma NormMul(a: Complex, b: Complex)
    ensures Norm(Mul(a, b)) == Norm(a) * Norm(b)
  {
    var p, q, r, s := a.re, a.im, b.re, b.im;
    assert (p * r - q * s) * (p * r - q * s) + (p * s + q * r) * (p * s + q * r)
        == (p * p + q * q) * (r * r + s * s);
  }

  lemma ProductPositive(x: real, y: real, product: real)
    requires product == x * y
    requires (x > 0.0 && y > 0.0) || (x < 0.0 && y < 0.0)
    ensures product > 0.0
  {}

  lemma SquarePositive(x: real)
    ensures if x == 0.0 then Square(x) == 0.0 else Square(x) > 0.0
  {
    if x != 0.0 {
      ProductPositive(x, x, Square(x));
    }
  }

  lemma NormPositive(a: Complex)
    ensures if a == ZERO then Norm(a) == 0.0 else Norm(a) > 0.0
  {
    hide Square;
    SquarePositive(a.re);
    SquarePositive(a.im);
  }

  lemma NoZeroDivisors(a: Complex, b: Complex)
    requires a != ZERO && b != ZERO
    ensures Mul(a, b) != ZERO
  {
    hide *;
    NormMul(a, b);
    NormPositive(a);
    NormPositive(b);
    NormPositive(ZERO);
    ProductPositive(Norm(a), Norm(b), Norm(Mul(a, b)));
  }

  // ----- powers ---------------------------------------------------------------

  function Pow(w: Complex, n: int): Complex
    decreases n
  {
    if n <= 0 then ONE else Mul(w, Pow(w, n - 1))
  }

  lemma {:induction false} PowAdd(w: Complex, m: int, n: int)
    requires 0 <= m && 0 <= n
    ensures Pow(w, m + n) == Mul(Pow(w, m), Pow(w, n))
    decreases m
  {
    hide Mul;
    if m == 0 {
      MulUnits(Pow(w, n));
    } else {
      PowAdd(w, m - 1, n);
      MulAssoc(w, Pow(w, m - 1), Pow(w, n));
    }
  }

  lemma {:induction false} PowOfMul(a: Complex, b: Complex, n: int)
    ensures Pow(Mul(a, b), n) == Mul(Pow(a, n), Pow(b, n))
    decreases n
  {
    hide Mul;
    if n <= 0 {
      MulUnits(ONE);
    } else {
      PowOfMul(a, b, n - 1);
      MulSwapMiddle(a, b, Pow(a, n - 1), Pow(b, n - 1));
    }
  }

  lemma {:induction false} PowOfOne(n: int)
    ensures Pow(ONE, n) == ONE
    decreases n
  {
    hide Mul;
    if n > 0 {
      PowOfOne(n - 1);
      MulUnits(ONE);
    }
  }

  lemma {:induction false} PowOfPow(w: Complex, m: int, n: int)
    requires 0 <= m && 0 <= n
    ensures Pow(w, m * n) == Pow(Pow(w, m), n)
    decreases n
  {
    hide Mul;
    if n > 0 {
      PowOfPow(w, m, n - 1);
      assert 0 <= m * (n - 1);
      PowAdd(w, m, m * (n - 1));
      assert m + m * (n - 1) == m * n;
    } else {
      assert m * n == 0;
    }
  }

  // ----- sums -----------------------------------------------------------------

  /** f(0) + ... + f(n - 1), accumulated in that order. */
  function Sum(n: int, f: int -> Complex): Complex
    decreases n
  {
    if n <= 0 then ZERO else Add(Sum(n - 1, f), f(n - 1))
  }

  lemma {:induction false} SumCongruence(n: int, f: int -> Complex, g: int -> Complex)
    requires forall i :: 0 <= i < n ==> f(i) == g(i)
    ensures Sum(n, f) == Sum(n, g)
    decreases n
  {
    if n > 0 {
      SumCongruence(n - 1, f, g);
    }
  }

  lemma {:induction false} SumOfSums(n: int, f: int -> Complex, g: int -> Complex, h: int -> Complex)
    requires forall i :: 0 <= i < n ==> h(i) == Add(f(i), g(i))
    ensures Sum(n, h) == Add(Sum(n, f), Sum(n, g))
    decreases n
  {
    hide Add;
    if n > 0 {
      SumOfSums(n - 1, f, g, h);
      AddSwapMiddle(Sum(n - 1, f), Sum(n - 1, g), f(n - 1), g(n - 1));
    } else {
      AddLaws(ZERO, ZERO, ZERO);
    }
  }

  lemma {:induction false} SumScaled(n: int, c: Complex, f: int -> Complex, h: int -> Complex)
    requires forall i :: 0 <= i < n ==> h(i) == Mul(c, f(i))
    ensures Sum(n, h) == Mul(c, Sum(n, f))
    decreases n
  {
    hide Mul;
    if n > 0 {
      SumScaled(n - 1, c, f, h);
      MulAdd(c, Sum(n - 1, f), f(n - 1));
    } else {
      MulUnits(c);
    }
  }

  lemma {:induction false} SumOfZeros(n: int, f: int -> Complex)
    requires forall i :: 0 <= i < n ==> f(i) == ZERO
    ensures Sum(n, f) == ZERO
    decreases n
  {
    if n > 0 {
      SumOfZeros(n - 1, f);
    }
  }

  lemma {:induction false} SumOfOne(n: int, k: int, f: int -> Complex)
    requires 0 <= k < n
    requires forall i :: 0 <= i < n && i != k ==> f(i) == ZERO
    ensures Sum(n, f) == f(k)
    decreases n
  {
    if k == n - 1 {
      SumOfZeros(n - 1, f);
    } else {
      SumOfOne(n - 1, k, f);
    }
  }

  lemma {:induction false} SumSplit(n: int, m: int, f: int -> Complex, g: int -> Complex)
    requires 0 <= n && 0 <= m
    requires forall i :: 0 <= i < m ==> g(i) == f(n + i)
    ensures Sum(n + m, f) == Add(Sum(n, f), Sum(m, g))
    decreases m
  {
    hide Add;
    if m > 0 {
      SumSplit(n, m - 1, f, g);
      assert g(m - 1) == f(n + m - 1);
      AddLaws(Sum(n, f), Sum(m - 1, g), g(m - 1));
    } else {
      AddLaws(Sum(n, f), ZERO, ZERO);
    }
  }

  lemma {:induction false} SumReversed(n: int, f: int -> Complex, g: int -> Complex)
    requires 0 <= n
    requires forall i :: 0 <= i < n ==> g(i) == f(n - 1 - i)
    ensures Sum(n, f) == Sum(n, g)
    decreases n
  {
    hide Add;
    if n > 0 {
      var tail := (i: int) => f(i + 1);
      SumSplit(1, n - 1, f, tail);
      SumReversed(n - 1, tail, g);
      assert Sum(1, f) == Add(Sum(0, f), f(0));
      AddLaws(f(0), Sum(n - 1, g), ZERO);
      assert g(n - 1) == f(0);
    }
  }

  /** A double sum does not depend on which index runs first. */
  lemma {:induction false} SumExchange(n: int, m: int,
                                       f: int -> (int -> Complex), g: int -> (int -> Complex),
                                       rows: int -> Complex, columns: int -> Complex)
    requires forall i, k :: 0 <= i < n && 0 <= k < m ==> f(i)(k) == g(k)(i)
    requires forall i :: 0 <= i < n ==> rows(i) == Sum(m, f(i))
    requires forall k :: 0 <= k < m ==> columns(k) == Sum(n, g(k))
    ensures Sum(n, rows) == Sum(m, columns)
    decreases n
  {
    hide Add;
    if n > 0 {
      var rest := (k: int) => Sum(n - 1, g(k));
      SumExchange(n - 1, m, f, g, rows, rest);
      assert forall k :: 0 <= k < m ==> columns(k) == Add(rest(k), f(n - 1)(k)) by {
        forall k | 0 <= k < m ensures columns(k) == Add(rest(k), f(n - 1)(k)) {
          assert Sum(n, g(k)) == Add(Sum(n - 1, g(k)), g(k)(n - 1));
        }
      }
      SumOfSums(m, rest, f(n - 1), columns);
    } else {
      SumOfZeros(m, columns);
    }
  }
}

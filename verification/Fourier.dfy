/**
 The discrete transforms that the filters execute (forward with root `w`, inverse
 with root `v`), and why multiplying spectra convolves signals. Signals are
 sequences read as zero outside their bounds.
 */
module Fourier {
  import opened Complexes
  import opened Integers

  function At(x: seq<Complex>, n: int): Complex {
    if 0 <= n < |x| then x[n] else ZERO
  }

  function DftTerm(w: Complex, x: seq<Complex>, k: int): int -> Complex {
    a => Mul(At(x, a), Pow(w, a * k))
  }

  /** Bin k of the unnormalised transform of x with root w. */
  function Dft(w: Complex, x: seq<Complex>, k: int): Complex {
    Sum(|x|, DftTerm(w, x, k))
  }

  function Transform(w: Complex, x: seq<Complex>): (spectrum: seq<Complex>)
    ensures |spectrum| == |x|
  {
    seq(|x|, k requires 0 <= k < |x| => Dft(w, x, k))
  }

  /** w is a primitive n-th root of unity and v its inverse. */
  ghost predicate Roots(w: Complex, v: Complex, n: nat) {
    && n > 0
    && Mul(w, v) == ONE
    && Pow(v, n) == ONE
    && forall d :: 0 < d < n ==> Pow(v, d) != ONE
  }

  /** The index a places before n, modulo the length. */
  function Back(n: int, a: int, size: int): int {
    if size <= 0 then 0 else (n - a) % size
  }

  function CircularTerm(x: seq<Complex>, h: seq<Complex>, n: int): int -> Complex {
    a => Mul(At(x, a), At(h, Back(n, a, |h|)))
  }

  /** Circular convolution of two signals of the same length. */
  function Circular(x: seq<Complex>, h: seq<Complex>, n: int): Complex {
    Sum(|x|, CircularTerm(x, h, n))
  }

  function ConvTerm(x: seq<Complex>, h: seq<Complex>, n: int): int -> Complex {
    k => Mul(At(h, k), At(x, n - k))
  }

  /** Sample n of the linear convolution of the signal x with the taps h. */
  function Conv(x: seq<Complex>, h: seq<Complex>, n: int): Complex {
    Sum(|h|, ConvTerm(x, h, n))
  }

  /** One more sample adds its own power to a bin. */
  lemma DftGrows(w: Complex, x: seq<Complex>, z: Complex, k: int)
    ensures Dft(w, [], k) == ZERO
    ensures Dft(w, x + [z], k) == Add(Dft(w, x, k), Mul(z, Pow(w, |x| * k)))
  {
    hide Mul, Add, Pow;
    SumCongruence(|x|, DftTerm(w, x + [z], k), DftTerm(w, x, k));
  }

  /** One more tap adds the sample that far back. */
  lemma ConvGrows(x: seq<Complex>, h: seq<Complex>, c: Complex, n: int)
    ensures Conv(x, [], n) == ZERO
    ensures Conv(x, h + [c], n)
         == Add(Conv(x, h, n), Mul(c, if 0 <= n - |h| < |x| then x[n - |h|] else ZERO))
  {
    hide Mul, Add;
    SumCongruence(|h|, ConvTerm(x, h + [c], n), ConvTerm(x, h, n));
  }

  function Zeros(n: nat): (z: seq<Complex>)
    ensures |z| == n
    ensures forall i :: 0 <= i < n ==> z[i] == ZERO
  {
    seq(n, _ => ZERO)
  }

  // ----- orthogonality ---------------------------------------------------------

  function PowTerm(u: Complex): int -> Complex {
    k => Pow(u, k)
  }

  lemma {:induction false} GeometricSum(u: Complex, n: nat)
    ensures Mul(Sub(u, ONE), Sum(n, PowTerm(u))) == Sub(Pow(u, n), ONE)
  {
    hide Mul, Add;
    if n == 0 {
      MulUnits(Sub(u, ONE));
    } else {
      GeometricSum(u, n - 1);
      var p := Pow(u, n - 1);
      MulAdd(Sub(u, ONE), Sum(n - 1, PowTerm(u)), p);
      MulSub(p, u, ONE);
      MulUnits(p);
      Telescope(ONE, p, Pow(u, n));
    }
  }

  lemma {:induction false} CountOnes(n: nat, f: int -> Complex)
    requires forall k :: 0 <= k < n ==> f(k) == ONE
    ensures Sum(n, f) == Real(n as real)
  {
    if n > 0 {
      CountOnes(n - 1, f);
    }
  }

  /** The powers of v^d cancel over a full turn, except for d = 0. */
  lemma Orthogonality(w: Complex, v: Complex, n: nat, d: int)
    requires Roots(w, v, n) && 0 <= d < n
    ensures Dft(v, seq(n, _ => ONE), d) == if d == 0 then Real(n as real) else ZERO
  {
    hide Mul, Add, Sum;
    var ones := seq(n, _ => ONE);
    var u := Pow(v, d);
    forall k | 0 <= k < n ensures DftTerm(v, ones, d)(k) == Pow(u, k) {
      PowOfPow(v, d, k);
      assert k * d == d * k;
      MulUnits(Pow(v, k * d));
    }
    SumCongruence(n, DftTerm(v, ones, d), PowTerm(u));
    if d == 0 {
      forall k | 0 <= k < n ensures PowTerm(u)(k) == ONE {
        PowOfOne(k);
      }
      CountOnes(n, PowTerm(u));
    } else {
      GeometricSum(u, n);
      PowOfPow(v, d, n);
      PowOfPow(v, n, d);
      assert n * d == d * n;
      PowOfOne(d);
      if Sum(n, PowTerm(u)) != ZERO {
        NoZeroDivisors(Sub(u, ONE), Sum(n, PowTerm(u)));
        assert false;
      }
    }
  }

  lemma BackCases(a: int, n: int, size: int)
    requires 0 <= a < size && 0 <= n < size
    ensures Back(n, a, size) == if n < a then n - a + size else n - a
    ensures 0 <= Back(n, a, size) < size
  {
    if n < a {
      DivModUnique(n - a, size, -1, n - a + size);
    } else {
      SmallMod(n - a, size);
    }
  }

  /** w^a turns v^n back by a places, modulo the length of the transform. */
  lemma RootShift(w: Complex, v: Complex, size: nat, a: int, n: int)
    requires Roots(w, v, size) && 0 <= a < size && 0 <= n < size
    ensures Mul(Pow(w, a), Pow(v, n)) == Pow(v, Back(n, a, size))
  {
    hide Mul, Pow;
    BackCases(a, n, size);
    var d := if n < a then n - a + size else n - a;
    PowOfMul(w, v, a);
    PowOfOne(a);
    PowAdd(v, a, d);
    MulAssoc(Pow(w, a), Pow(v, a), Pow(v, d));
    MulUnits(Pow(v, d));
    if n < a {
      PowAdd(v, size, n);
      MulUnits(Pow(v, n));
    }
  }

  lemma RootShiftPower(w: Complex, v: Complex, size: nat, a: int, n: int, k: int)
    requires Roots(w, v, size) && 0 <= a < size && 0 <= n < size && 0 <= k
    ensures Mul(Pow(w, a * k), Pow(v, k * n)) == Pow(v, k * Back(n, a, size))
  {
    hide Mul, Back;
    var d := Back(n, a, size);
    BackCases(a, n, size);
    RootShift(w, v, size, a, n);
    PowOfMul(Pow(w, a), Pow(v, n), k);
    PowOfPow(w, a, k);
    PowOfPow(v, n, k);
    PowOfPow(v, d, k);
    assert n * k == k * n && d * k == k * d;
  }

  // ----- the convolution theorem -------------------------------------------------

  /** x[a] w^(ka) p[k] v^(kn), the summand of `Modulate` for bin k and sample a. */
  function Spread(w: Complex, v: Complex, x: seq<Complex>, p: seq<Complex>, n: int): int -> (int -> Complex) {
    k => a => Mul(Mul(At(x, a), Pow(w, a * k)), Mul(At(p, k), Pow(v, k * n)))
  }

  function Gathered(v: Complex, x: seq<Complex>, p: seq<Complex>, n: int): int -> (int -> Complex) {
    a => k => Mul(At(x, a), Mul(At(p, k), Pow(v, k * Back(n, a, |p|))))
  }

  function ModulatedTerm(v: Complex, x: seq<Complex>, p: seq<Complex>, n: int): int -> Complex {
    a => Mul(At(x, a), Dft(v, p, Back(n, a, |p|)))
  }

  function Product(p: seq<Complex>, q: seq<Complex>): (r: seq<Complex>)
    requires |p| == |q|
    ensures |r| == |p|
  {
    seq(|p|, k requires 0 <= k < |p| => Mul(p[k], q[k]))
  }

  /** Inverting the spectrum of x times p is a circular convolution of x with the inverse of p. */
  lemma Modulate(w: Complex, v: Complex, x: seq<Complex>, p: seq<Complex>, n: int)
    requires |x| == |p| && Roots(w, v, |x|) && 0 <= n < |x|
    ensures Dft(v, Product(Transform(w, x), p), n) == Sum(|x|, ModulatedTerm(v, x, p, n))
  {
    hide *;
    var size := |x|;
    var y := Product(Transform(w, x), p);
    forall k | 0 <= k < size ensures DftTerm(v, y, n)(k) == Sum(size, Spread(w, v, x, p, n)(k)) {
      SpreadBin(w, v, x, p, n, k);
    }
    forall a | 0 <= a < size ensures ModulatedTerm(v, x, p, n)(a) == Sum(size, Gathered(v, x, p, n)(a)) {
      GatherSample(v, x, p, n, a);
    }
    forall k, a | 0 <= k < size && 0 <= a < size
      ensures Spread(w, v, x, p, n)(k)(a) == Gathered(v, x, p, n)(a)(k)
    {
      RegroupSpread(w, v, x, p, a, n, k);
    }
    SumExchange(size, size, Spread(w, v, x, p, n), Gathered(v, x, p, n),
                DftTerm(v, y, n), ModulatedTerm(v, x, p, n));
    DftIsSum(v, y, n);
  }

  lemma DftIsSum(v: Complex, y: seq<Complex>, n: int)
    ensures Dft(v, y, n) == Sum(|y|, DftTerm(v, y, n))
  {}

  lemma SpreadBin(w: Complex, v: Complex, x: seq<Complex>, p: seq<Complex>, n: int, k: int)
    requires |x| == |p| && 0 <= k < |x|
    ensures DftTerm(v, Product(Transform(w, x), p), n)(k) == Sum(|x|, Spread(w, v, x, p, n)(k))
  {
    hide Mul, Add, Sum, Pow;
    var c := Mul(p[k], Pow(v, k * n));
    MulAssoc(Dft(w, x, k), p[k], Pow(v, k * n));
    MulComm(Dft(w, x, k), c);
    forall a | 0 <= a < |x| ensures Spread(w, v, x, p, n)(k)(a) == Mul(c, DftTerm(w, x, k)(a)) {
      MulComm(c, DftTerm(w, x, k)(a));
    }
    SumScaled(|x|, c, DftTerm(w, x, k), Spread(w, v, x, p, n)(k));
  }

  lemma GatherSample(v: Complex, x: seq<Complex>, p: seq<Complex>, n: int, a: int)
    requires |x| == |p| && 0 <= a < |x|
    ensures ModulatedTerm(v, x, p, n)(a) == Sum(|x|, Gathered(v, x, p, n)(a))
  {
    hide Mul, Add, Sum, Pow;
    SumScaled(|x|, x[a], DftTerm(v, p, Back(n, a, |x|)), Gathered(v, x, p, n)(a));
  }

  lemma RegroupSpread(w: Complex, v: Complex, x: seq<Complex>, p: seq<Complex>, a: int, n: int, k: int)
    requires |x| == |p| && Roots(w, v, |x|)
    requires 0 <= a < |x| && 0 <= n < |x| && 0 <= k < |x|
    ensures Spread(w, v, x, p, n)(k)(a) == Gathered(v, x, p, n)(a)(k)
  {
    hide Mul, Pow, Roots, Back;
    var d := Back(n, a, |x|);
    RootShiftPower(w, v, |x|, a, n, k);
    Regroup(x[a], Pow(w, a * k), p[k], Pow(v, k * n), Pow(v, k * d));
  }

  lemma Regroup(xa: Complex, wa: Complex, pk: Complex, vn: Complex, vd: Complex)
    requires Mul(wa, vn) == vd
    ensures Mul(Mul(xa, wa), Mul(pk, vn)) == Mul(xa, Mul(pk, vd))
  {
    hide *;
    MulSwapMiddle(xa, wa, pk, vn);
    MulAssoc(xa, pk, vd);
  }

  /** Transforming back and forth multiplies by the length. */
  lemma Inversion(w: Complex, v: Complex, h: seq<Complex>, n: int)
    requires Roots(w, v, |h|) && 0 <= n < |h|
    ensures Dft(v, Transform(w, h), n) == Mul(Real(|h| as real), h[n])
  {
    hide Mul, Add, Sum, Pow, Roots, Dft, Back;
    var size := |h|;
    var ones := seq(size, _ => ONE);
    forall k | 0 <= k < size ensures Product(Transform(w, h), ones)[k] == Transform(w, h)[k] {
      MulUnits(Dft(w, h, k));
    }
    assert Product(Transform(w, h), ones) == Transform(w, h);
    Modulate(w, v, h, ones, n);
    var f := ModulatedTerm(v, h, ones, n);
    forall a | 0 <= a < size
      ensures f(a) == if a == n then Mul(h[n], Real(size as real)) else ZERO
    {
      BackCases(a, n, size);
      Orthogonality(w, v, size, Back(n, a, size));
      MulUnits(h[a]);
    }
    SumOfOne(size, n, f);
    MulComm(h[n], Real(size as real));
  }

  /**
   The convolution theorem: transforming two signals, multiplying bin by bin,
   transforming back and dividing by the length is circular convolution.
   */
  lemma ConvolutionTheorem(w: Complex, v: Complex, x: seq<Complex>, h: seq<Complex>, n: int)
    requires |x| == |h| && Roots(w, v, |x|) && 0 <= n < |x|
    ensures Mul(Real(1.0 / |x| as real), Dft(v, Product(Transform(w, x), Transform(w, h)), n))
         == Circular(x, h, n)
  {
    hide Mul, Add, Sum, Pow, Roots, Dft, Back;
    var size := |x|;
    var r := Real(size as real);
    Modulate(w, v, x, Transform(w, h), n);
    var f := ModulatedTerm(v, x, Transform(w, h), n);
    forall a | 0 <= a < size ensures f(a) == Mul(r, CircularTerm(x, h, n)(a)) {
      BackCases(a, n, size);
      Inversion(w, v, h, Back(n, a, size));
      var b := h[Back(n, a, size)];
      MulAssoc(x[a], r, b);
      MulComm(x[a], r);
      MulAssoc(r, x[a], b);
    }
    SumScaled(size, r, CircularTerm(x, h, n), f);
    MulAssoc(Real(1.0 / size as real), r, Circular(x, h, n));
    UnitOfLength(size);
    MulUnits(Circular(x, h, n));
  }

  lemma UnitOfLength(n: nat)
    requires n > 0
    ensures Mul(Real(1.0 / n as real), Real(n as real)) == ONE
  {}
}

/**
 src/lib/fir.cpp: the FIR filter and the tap generators, and why the same band-pass
 taps give the same filter through `FftFilter` up to one constant phasor, although
 one path correlates, the other convolves, and the tap components are swapped.
 */
module FirFilters {
  import opened Complexes
  import opened Fourier
  import opened FftFilters
  import opened Integers
  import opened Phasors
  import opened Reals
  import opened Schedules

  // ----- the filter -----------------------------------------------------------------

  function FirTerm(x: seq<Complex>, taps: seq<Complex>, n: int): int -> Complex {
    t => Mul(At(x, n + t), At(taps, t))
  }

  /** Output n of the direct filter: taps laid over the samples from n on. */
  function Fir(x: seq<Complex>, taps: seq<Complex>, n: int): Complex {
    Sum(|taps|, FirTerm(x, taps, n))
  }

  /** One more tap adds the sample that far on. */
  lemma FirGrows(x: seq<Complex>, taps: seq<Complex>, c: Complex, n: int)
    ensures Fir(x, [], n) == ZERO
    ensures Fir(x, taps + [c], n)
         == Add(Fir(x, taps, n), Mul(if 0 <= n + |taps| < |x| then x[n + |taps|] else ZERO, c))
  {
    hide Mul, Add;
    SumCongruence(|taps|, FirTerm(x, taps + [c], n), FirTerm(x, taps, n));
  }

  method ProcessSample(data: seq<Complex>, taps: seq<Complex>, index: nat) returns (acc: Complex)
    requires index + |taps| <= |data|
    ensures acc == Fir(data, taps, index)
  {
    hide Mul, Add;
    acc := ZERO;
    for t := 0 to |taps|
      invariant acc == Sum(t, FirTerm(data, taps, index))
    {
      assert FirTerm(data, taps, index)(t) == Mul(data[index + t], taps[t]);
      acc := Add(acc, Mul(data[index + t], taps[t]));
    }
  }

  /** Filtering a window of the stream is filtering the stream. */
  lemma FirWindow(x: seq<Complex>, taps: seq<Complex>, from: nat, to: nat, n: nat)
    requires from <= to <= |x| && n + |taps| <= to - from
    ensures Fir(x[from..to], taps, n) == Fir(x, taps, from + n)
  {
    hide Mul, Sum;
    SumCongruence(|taps|, FirTerm(x[from..to], taps, n), FirTerm(x, taps, from + n));
  }

  /** The odd one of 4 / transition, without its fraction, and the number after it. */
  function TapsFor(transition: real): (length: nat)
    requires transition > 0.0
    ensures length % 2 == 1
    ensures length == (4.0 / transition).Floor || length == (4.0 / transition).Floor + 1
  {
    DivideTimes(4.0, transition);
    var quotient := (4.0 / transition).Floor;
    quotient + 1 - quotient % 2
  }

  method FilterLength(transition: real) returns (result: nat)
    requires transition > 0.0
    ensures result == TapsFor(transition)
  {
    DivideTimes(4.0, transition);
    result := (4.0 / transition).Floor;
    if result % 2 == 0 {
      result := result + 1;
    }
  }

  // ----- low-pass taps ----------------------------------------------------------------

  function Total(taps: seq<real>): real {
    if |taps| == 0 then 0.0 else Total(taps[..|taps| - 1]) + taps[|taps| - 1]
  }

  lemma TotalGrows(taps: seq<real>, tap: real)
    ensures Total([]) == 0.0 && Total(taps + [tap]) == Total(taps) + tap
  {
    assert (taps + [tap])[..|taps|] == taps;
  }

  /** The taps before normalisation: `side(i)` at distance i from the middle one. */
  function RawTap(length: nat, center: real, side: int -> real, k: int): real {
    if k == length / 2 then center
    else side(if k < length / 2 then length / 2 - k else k - length / 2)
  }

  function RawTaps(length: nat, center: real, side: int -> real): (taps: seq<real>)
    ensures |taps| == length
    ensures forall k :: 0 <= k < length ==> taps[k] == RawTap(length, center, side, k)
  {
    seq(length, k => RawTap(length, center, side, k))
  }

  ghost predicate Symmetric(taps: seq<real>) {
    forall i :: 0 <= i < |taps| ==> taps[i] == taps[|taps| - 1 - i]
  }

  lemma {:induction false} TotalScaled(a: seq<real>, b: seq<real>, c: real)
    requires c != 0.0 && |a| == |b| && forall i :: 0 <= i < |a| ==> b[i] == Over(a[i], c)
    ensures Total(b) == Over(Total(a), c)
  {
    hide Over;
    if |a| > 0 {
      TotalScaled(a[..|a| - 1], b[..|b| - 1], c);
      OverLaws(Total(a[..|a| - 1]), a[|a| - 1], c);
    } else {
      OverLaws(0.0, 0.0, c);
    }
  }

  /** Divides in place by the sum of the taps. */
  method Normalize(taps: array<real>)
    requires Total(taps[..]) != 0.0
    modifies taps
    ensures Total(taps[..]) == 1.0
    ensures forall i :: 0 <= i < taps.Length ==> taps[i] == Over(old(taps[i]), old(Total(taps[..])))
  {
    hide Over;
    var sum := 0.0;
    for i := 0 to taps.Length
      invariant sum == Total(taps[..i])
    {
      assert taps[..i + 1][..i] == taps[..i];
      sum := sum + taps[i];
    }
    assert taps[..taps.Length] == taps[..];
    ghost var before := taps[..];
    for i := 0 to taps.Length
      invariant forall k :: 0 <= k < i ==> taps[k] == Over(before[k], sum)
      invariant forall k :: i <= k < taps.Length ==> taps[k] == before[k]
    {
      taps[i] := Over(taps[i], sum);
    }
    TotalScaled(before, taps[..], sum);
    OverLaws(0.0, 0.0, sum);
  }

  /** The middle tap, the limit of the sinc for distance 0. */
  function CenterTap(cutoff: real, kernel: real -> real, tau: real): real {
    Times(Times(tau, cutoff), kernel(0.0))
  }

  /** The windowed sinc at distance i of the middle tap; the sine is a component of `cis`. */
  function SideTap(length: nat, cutoff: real, kernel: real -> real, cis: real -> Complex, tau: real): int -> real {
    i => if i <= 0 || length / 2 == 0 then 0.0
         else Times(Over(cis(Times(Times(tau, cutoff), i as real)).im, i as real),
                    kernel(Over(i as real, (length / 2) as real)))
  }

  function WindowedSinc(length: nat, cutoff: real, kernel: real -> real, cis: real -> Complex, tau: real)
    : (taps: seq<real>)
    ensures |taps| == length
  {
    RawTaps(length, CenterTap(cutoff, kernel, tau), SideTap(length, cutoff, kernel, cis, tau))
  }

  function Normalized(taps: seq<real>): (normal: seq<real>)
    requires Total(taps) != 0.0
    ensures |normal| == |taps|
  {
    seq(|taps|, i requires 0 <= i < |taps| => Over(taps[i], Total(taps)))
  }

  /**
   Windowed sinc taps for a window function `kernel`, symmetric and with sum one: the middle
   one and those at distance i are to each other as tau * cutoff * kernel(0) and
   sin(tau * cutoff * i) / i * kernel(i / middle). The length is odd because FilterLength
   makes it so.
   */
  method GenerateLowPass(length: nat, cutoff: real, kernel: real -> real, cis: real -> Complex, tau: real)
    returns (taps: array<real>, ghost total: real)
    requires length % 2 == 1
    requires Total(WindowedSinc(length, cutoff, kernel, cis, tau)) != 0.0
    ensures fresh(taps) && taps[..] == Normalized(WindowedSinc(length, cutoff, kernel, cis, tau))
    ensures taps.Length == length && Symmetric(taps[..]) && Total(taps[..]) == 1.0
    ensures total != 0.0 && Times(taps[length / 2], total) == Times(Times(tau, cutoff), kernel(0.0))
    ensures forall k :: length / 2 < k < length ==>
              var i := (k - length / 2) as real;
              Times(Times(taps[k], total), i)
              == Times(cis(Times(Times(tau, cutoff), i)).im, kernel(Over(i, (length / 2) as real)))
  {
    hide *;
    total := Total(WindowedSinc(length, cutoff, kernel, cis, tau));
    taps := NormalizedTaps(length, cutoff, kernel, cis, tau);
    SincMiddle(length, cutoff, kernel, cis, tau);
    forall k | length / 2 < k < length
      ensures var i := (k - length / 2) as real;
              Times(Times(taps[k], total), i)
              == Times(cis(Times(Times(tau, cutoff), i)).im, kernel(Over(i, (length / 2) as real)))
    {
      SincSide(length, cutoff, kernel, cis, tau, k - length / 2);
      assert taps[k] == taps[..][k];
    }
  }

  method NormalizedTaps(length: nat, cutoff: real, kernel: real -> real, cis: real -> Complex, tau: real)
    returns (taps: array<real>)
    requires length % 2 == 1
    requires Total(WindowedSinc(length, cutoff, kernel, cis, tau)) != 0.0
    ensures fresh(taps) && taps[..] == Normalized(WindowedSinc(length, cutoff, kernel, cis, tau))
    ensures taps.Length == length && Symmetric(taps[..]) && Total(taps[..]) == 1.0
  {
    hide Over, Times, Total, RawTap, RawTaps, SideTap, CenterTap;
    taps := FillLowPass(length, cutoff, kernel, cis, tau);
    ghost var raw := taps[..];
    Normalize(taps);
    assert taps[..] == Normalized(raw);
    forall k | 0 <= k < length ensures taps[k] == taps[length - 1 - k] {
      RawTapsMirror(length, CenterTap(cutoff, kernel, tau), SideTap(length, cutoff, kernel, cis, tau), k);
    }
  }

  method FillLowPass(length: nat, cutoff: real, kernel: real -> real, cis: real -> Complex, tau: real)
    returns (taps: array<real>)
    requires length % 2 == 1
    ensures fresh(taps) && taps[..] == WindowedSinc(length, cutoff, kernel, cis, tau)
  {
    hide RawTaps, Over, Times, SideTap, CenterTap;
    ghost var center, side := CenterTap(cutoff, kernel, tau), SideTap(length, cutoff, kernel, cis, tau);
    var middle := length / 2;
    taps := new real[length];
    taps[middle] := Times(Times(tau, cutoff), kernel(0.0));
    CenterTapIs(cutoff, kernel, tau);
    for i := 1 to middle + 1
      invariant forall k :: middle - i < k < middle + i ==> taps[k] == RawTap(length, center, side, k)
    {
      var tap := Times(Over(cis(Times(Times(tau, cutoff), i as real)).im, i as real),
                       kernel(Over(i as real, middle as real)));
      SideTapAt(length, cutoff, kernel, cis, tau, i);
      taps[middle - i] := tap;
      taps[middle + i] := tap;
    }
  }

  /** What the normalised taps are in the parameters of the generator. */
  lemma SincMiddle(length: nat, cutoff: real, kernel: real -> real, cis: real -> Complex, tau: real)
    requires length % 2 == 1
    requires Total(WindowedSinc(length, cutoff, kernel, cis, tau)) != 0.0
    ensures Times(Normalized(WindowedSinc(length, cutoff, kernel, cis, tau))[length / 2],
                  Total(WindowedSinc(length, cutoff, kernel, cis, tau)))
         == Times(Times(tau, cutoff), kernel(0.0))
  {
    hide Total, SideTap, CenterTap, Over, Times;
    var raw := WindowedSinc(length, cutoff, kernel, cis, tau);
    CenterTapIs(cutoff, kernel, tau);
    OverThenTimes(raw[length / 2], Total(raw), 1.0);
  }

  lemma SincSide(length: nat, cutoff: real, kernel: real -> real, cis: real -> Complex, tau: real, i: int)
    requires length % 2 == 1 && 1 <= i <= length / 2
    requires Total(WindowedSinc(length, cutoff, kernel, cis, tau)) != 0.0
    ensures Times(Times(Normalized(WindowedSinc(length, cutoff, kernel, cis, tau))[length / 2 + i],
                        Total(WindowedSinc(length, cutoff, kernel, cis, tau))), i as real)
         == Times(cis(Times(Times(tau, cutoff), i as real)).im, kernel(Over(i as real, (length / 2) as real)))
  {
    hide Total, SideTap, CenterTap, Over, Times;
    var raw := WindowedSinc(length, cutoff, kernel, cis, tau);
    SideTapAt(length, cutoff, kernel, cis, tau, i);
    OverThenTimes(raw[length / 2 + i], Total(raw), 1.0);
    OverThenTimes(cis(Times(Times(tau, cutoff), i as real)).im, i as real,
                  kernel(Over(i as real, (length / 2) as real)));
  }

  lemma OverThenTimes(a: real, b: real, c: real)
    requires b != 0.0
    ensures Times(Over(a, b), b) == a
    ensures Times(Times(Over(a, b), c), b) == Times(a, c)
  {
    var q := a / b;
    assert q * b == a;
    assert q * c * b == q * b * c;
  }

  lemma CenterTapIs(cutoff: real, kernel: real -> real, tau: real)
    ensures CenterTap(cutoff, kernel, tau) == Times(Times(tau, cutoff), kernel(0.0))
  {}

  lemma SideTapAt(length: nat, cutoff: real, kernel: real -> real, cis: real -> Complex, tau: real, i: int)
    requires 0 < i <= length / 2
    ensures SideTap(length, cutoff, kernel, cis, tau)(i)
         == Times(Over(cis(Times(Times(tau, cutoff), i as real)).im, i as real),
                  kernel(Over(i as real, (length / 2) as real)))
  {}

  lemma RawTapsMirror(length: nat, center: real, side: int -> real, k: int)
    requires length % 2 == 1 && 0 <= k < length
    ensures RawTap(length, center, side, k) == RawTap(length, center, side, length - 1 - k)
  {}

  // ----- band-pass taps ---------------------------------------------------------------

  /** The pair (sin, cos) in place of (cos, sin). */
  function Swap(z: Complex): Complex { Complex(z.im, z.re) }

  /** FIR taps: low-pass taps times (sin, cos) of a phase that advances by one angle. */
  function BandPassTaps(r: seq<real>, w: Complex): (taps: seq<Complex>)
    ensures |taps| == |r|
  {
    seq(|r|, i requires 0 <= i < |r| => Mul(Real(r[i]), Swap(Pow(w, i))))
  }

  /** The taps whose transform `FftFilter` uses: components swapped back. */
  function FftImpulse(taps: seq<Complex>): (h: seq<Complex>)
    ensures |h| == |taps|
  {
    seq(|taps|, i requires 0 <= i < |taps| => Complex(taps[i].im, taps[i].re))
  }

  method GenerateBandPass(r: seq<real>, angle: real, cis: real -> Complex, tau: real) returns (taps: array<Complex>)
    requires IsCis(cis, tau)
    ensures fresh(taps) && taps[..] == BandPassTaps(r, cis(angle)) && taps.Length == |r|
    ensures forall i :: 0 <= i < |r| ==>
              taps[i] == Complex(Times(r[i], cis(Steps(i, angle)).im), Times(r[i], cis(Steps(i, angle)).re))
  {
    hide Mul, IsCis, Pow, Times, Steps;
    taps := new Complex[|r|];
    var phase := 0.0;
    var w := cis(angle);
    CisZero(cis, tau);
    assert Pow(w, 0) == ONE by { PowSteps(w, 0); }
    for i := 0 to |r|
      invariant cis(phase) == Pow(w, i)
      invariant forall k :: 0 <= k < i ==> taps[k] == BandPassTaps(r, w)[k]
    {
      var sinval, cosval := cis(phase).im, cis(phase).re;
      CisAdd(cis, tau, angle, phase);
      PowSteps(w, i);
      phase := WrapPhase(angle + phase, 0.0, cis, tau);
      taps[i] := Mul(Real(r[i]), Complex(sinval, cosval));
    }
    forall i | 0 <= i < |r|
      ensures taps[i] == Complex(Times(r[i], cis(Steps(i, angle)).im), Times(r[i], cis(Steps(i, angle)).re))
    {
      BandPassTapAt(r, angle, cis, tau, i);
      assert taps[i] == taps[..][i];
    }
  }

  /** Tap i is the low-pass tap times (sin, cos) of i times the angle. */
  lemma BandPassTapAt(r: seq<real>, angle: real, cis: real -> Complex, tau: real, i: int)
    requires IsCis(cis, tau) && 0 <= i < |r|
    ensures BandPassTaps(r, cis(angle))[i]
         == Complex(Times(r[i], cis(Steps(i, angle)).im), Times(r[i], cis(Steps(i, angle)).re))
  {
    hide IsCis, Pow, Steps, Mul;
    CisMultiple(cis, tau, angle, i);
    RealTimes(r[i], Swap(cis(Steps(i, angle))));
  }

  lemma RealTimes(r: real, z: Complex)
    ensures Mul(Real(r), z) == Complex(Times(r, z.re), Times(r, z.im))
  {}

  lemma PowSteps(w: Complex, n: nat)
    ensures Pow(w, n + 1) == Mul(w, Pow(w, n)) && Pow(w, 0) == ONE
  {}

  /** Swaps in place, pads with zeros and transforms. */
  method GenerateFftTaps(taps: array<Complex>, fftSize: nat, w: Complex) returns (spectrum: seq<Complex>)
    requires taps.Length <= fftSize
    modifies taps
    ensures taps[..] == FftImpulse(old(taps[..]))
    ensures spectrum == Transform(w, FftImpulse(old(taps[..])) + Zeros(fftSize - taps.Length))
  {
    for i := 0 to taps.Length
      invariant forall k :: 0 <= k < i ==> taps[k] == FftImpulse(old(taps[..]))[k]
      invariant forall k :: i <= k < taps.Length ==> taps[k] == old(taps[k])
    {
      taps[i] := Complex(taps[i].im, taps[i].re);
    }
    assert taps[..] == FftImpulse(old(taps[..]));
    spectrum := Transform(w, taps[..] + Zeros(fftSize - taps.Length));
  }

  // ----- both band-passes agree -----------------------------------------------------------

  /** -j w^(length - 1), the one constant between the two filters. */
  function Twist(w: Complex, length: nat): Complex {
    Mul(Complex(0.0, -1.0), Pow(w, length - 1))
  }

  lemma {:induction false} UnitPower(w: Complex, n: int)
    requires Norm(w) == 1.0
    ensures Norm(Pow(w, n)) == 1.0
    ensures Mul(Pow(w, n), Conj(Pow(w, n))) == ONE
    decreases n
  {
    hide *;
    if n > 0 {
      UnitPower(w, n - 1);
      NormMulUnits(w, Pow(w, n - 1));
      PowSteps(w, n - 1);
    } else {
      NormOfOne();
      PowOfNothing(w, n);
    }
    NormIsConj(Pow(w, n));
    assert ONE == Real(1.0) by { OneIsReal(); }
  }

  lemma OneIsReal()
    ensures ONE == Real(1.0)
  {}

  lemma PowOfNothing(w: Complex, n: int)
    requires n <= 0
    ensures Pow(w, n) == ONE
  {}

  lemma NormMulUnits(a: Complex, b: Complex)
    requires Norm(a) == 1.0 && Norm(b) == 1.0
    ensures Norm(Mul(a, b)) == 1.0
  {
    hide *;
    NormMul(a, b);
  }

  lemma NormOfOne()
    ensures Norm(ONE) == 1.0
  {}

  lemma NormOfMinusJ()
    ensures Norm(Complex(0.0, -1.0)) == 1.0
  {}

  lemma MinusJTimesJ()
    ensures Mul(Complex(0.0, -1.0), J) == ONE
  {}

  lemma NormIsConj(z: Complex)
    ensures Mul(z, Conj(z)) == Real(Norm(z))
  {}

  lemma SwapIsTurnedConj(z: Complex)
    ensures Swap(z) == Mul(J, Conj(z))
  {}

  lemma SwapReal(r: real, z: Complex)
    ensures Mul(Real(r), Swap(z)) == Swap(Mul(Real(r), z))
    ensures Swap(Swap(z)) == z
  {}

  /** (-j w^(L-1)) (r j conj(w^t)) = r w^(L-1-t). */
  lemma TwistedTap(r: real, w: Complex, length: nat, t: nat)
    requires Norm(w) == 1.0 && t < length
    ensures Mul(Twist(w, length), Mul(Real(r), Swap(Pow(w, t)))) == Mul(Real(r), Pow(w, length - 1 - t))
  {
    hide Mul, Norm, Pow, Swap, Conj;
    var p, q, k := Pow(w, t), Pow(w, length - 1 - t), Complex(0.0, -1.0);
    PowAdd(w, length - 1 - t, t);
    UnitPower(w, t);
    SwapIsTurnedConj(p);
    MinusJTimesJ();
    TwistRing(r, k, p, q, Conj(p));
  }

  lemma TwistRing(r: real, k: Complex, p: Complex, q: Complex, conj: Complex)
    requires Mul(k, J) == ONE && Mul(p, conj) == ONE
    ensures Mul(Mul(k, Mul(q, p)), Mul(Real(r), Mul(J, conj))) == Mul(Real(r), q)
  {
    hide *;
    var a, b := Mul(k, Mul(q, p)), Mul(J, conj);
    MulComm(Real(r), b);
    MulAssoc(a, b, Real(r));
    MulSwapMiddle(k, Mul(q, p), J, conj);
    MulAssoc(q, p, conj);
    MulUnits(q);
    MulComm(q, Real(r));
  }

  /**
   Symmetry of the low-pass taps turns the convolution with the unswapped taps into
   the correlation with the swapped ones, delayed by length - 1 and times `Twist`.
   */
  lemma BandPassesAgree(x: seq<Complex>, r: seq<real>, w: Complex, n: int)
    requires Norm(w) == 1.0 && Symmetric(r) && |r| > 0
    ensures Norm(Twist(w, |r|)) == 1.0
    ensures Conv(x, FftImpulse(BandPassTaps(r, w)), n + |r| - 1)
         == Mul(Twist(w, |r|), Fir(x, BandPassTaps(r, w), n))
  {
    hide Mul, Norm, Pow, Swap, Conj, Sum, Twist;
    var taps := BandPassTaps(r, w);
    var h := FftImpulse(taps);
    var c := Twist(w, |r|);
    TwistUnit(w, |r|);
    var conv, fir := ConvTerm(x, h, n + |r| - 1), FirTerm(x, taps, n);
    var reversed := (t: int) => conv(|r| - 1 - t);
    SumReversed(|r|, conv, reversed);
    forall t | 0 <= t < |r| ensures reversed(t) == Mul(c, fir(t)) {
      TwistedTap(r[t], w, |r|, t);
      ImpulseAt(r, w, |r| - 1 - t);
      var data := At(x, n + t);
      assert n + |r| - 1 - (|r| - 1 - t) == n + t;
      MulComm(data, taps[t]);
      MulAssoc(c, taps[t], data);
    }
    SumScaled(|r|, c, fir, reversed);
  }

  lemma TwistUnit(w: Complex, length: nat)
    requires Norm(w) == 1.0
    ensures Norm(Twist(w, length)) == 1.0
  {
    hide Mul, Norm;
    NormOfMinusJ();
    UnitPower(w, length - 1);
    NormMulUnits(Complex(0.0, -1.0), Pow(w, length - 1));
  }

  lemma ImpulseAt(r: seq<real>, w: Complex, i: nat)
    requires i < |r|
    ensures FftImpulse(BandPassTaps(r, w))[i] == Mul(Real(r[i]), Pow(w, i))
  {
    hide Mul, Pow;
    SwapReal(r[i], Pow(w, i));
    SwapReal(r[i], Mul(Real(r[i]), Pow(w, i)));
  }

  /** Past the first |taps| - 1 samples, `out` is the FIR filter of x times one constant of magnitude one. */
  ghost predicate IsTurnedFir(out: seq<Complex>, x: seq<Complex>, taps: seq<Complex>, twist: Complex) {
    && |taps| > 0 && Norm(twist) == 1.0
    && (forall n :: 0 <= n <= |out| - |taps| ==> out[n + |taps| - 1] == Mul(twist, Fir(x, taps, n)))
  }

  /** Generate, swap, transform, and filter block by block. */
  method BandPassBlocks(r: seq<real>, angle: real, cis: real -> Complex, tau: real, fftSize: nat,
                     w: Complex, v: Complex, x: seq<Complex>, offers: seq<Offer>)
    returns (out: seq<Complex>, ghost blocks: nat)
    requires IsCis(cis, tau) && Symmetric(r) && 0 < |r| <= fftSize && Roots(w, v, fftSize)
    ensures |out| == Multiple(blocks, fftSize - |r| + 1)
    ensures EndsWithRoom(offers, fftSize - |r| + 2) ==> Arrived(offers, |x|) <= |out| + fftSize - |r| + 1
    ensures |out| > 0 ==> |out| < Arrived(offers, |x|)
    ensures IsTurnedFir(out, x, BandPassTaps(r, cis(angle)), Twist(cis(angle), |r|))
  {
    hide Mul, Norm, Conv, Fir, Roots, BandPassTaps, FftImpulse, Twist, Symmetric, Multiple;
    var taps := GenerateBandPass(r, angle, cis, tau);
    var _ := GenerateFftTaps(taps, fftSize, w);
    out, blocks := RunFftFilter(fftSize, taps[..], w, v, x, offers);
    CisUnit(cis, tau, angle);
    TwistUnit(cis(angle), |r|);
    forall n | 0 <= n <= |out| - |r|
      ensures out[n + |r| - 1] == Mul(Twist(cis(angle), |r|), Fir(x, BandPassTaps(r, cis(angle)), n))
    {
      BandPassesAgree(x, r, cis(angle), n);
    }
  }

  /**
   The band-pass through the frequency domain under any schedule. Past the first length - 1
   samples it is the FIR band-pass with the low-pass taps r turned by the angle, times one
   constant of magnitude one.
   */
  method FftBandPass(r: seq<real>, angle: real, cis: real -> Complex, tau: real, fftSize: nat,
                     w: Complex, v: Complex, x: seq<Complex>, offers: seq<Offer>)
    returns (out: seq<Complex>, ghost blocks: nat, ghost taps: seq<Complex>, ghost turn: Complex)
    requires IsCis(cis, tau) && Symmetric(r) && 0 < |r| <= fftSize && Roots(w, v, fftSize)
    ensures |out| == Multiple(blocks, fftSize - |r| + 1)
    ensures EndsWithRoom(offers, fftSize - |r| + 2) ==> Arrived(offers, |x|) <= |out| + fftSize - |r| + 1
    ensures |out| > 0 ==> |out| < Arrived(offers, |x|)
    ensures |taps| == |r| && forall i :: 0 <= i < |r| ==>
              taps[i] == Complex(Times(r[i], cis(Steps(i, angle)).im), Times(r[i], cis(Steps(i, angle)).re))
    ensures turn == Mul(Complex(0.0, -1.0), cis(Steps(|r| - 1, angle))) && Norm(turn) == 1.0
    ensures forall n :: 0 <= n <= |out| - |r| ==> out[n + |r| - 1] == Mul(turn, Fir(x, taps, n))
  {
    hide *;
    out, blocks := BandPassBlocks(r, angle, cis, tau, fftSize, w, v, x, offers);
    taps, turn := BandPassTaps(r, cis(angle)), Twist(cis(angle), |r|);
    TwistIs(angle, cis, tau, |r|);
    TurnedAt(out, x, taps, turn);
    BandPassTapsAre(r, angle, cis, tau);
  }

  /** The taps can be divided by their sum. */
  predicate HasTaps(lowcut: real, highcut: real, transition: real, kernel: real -> real,
                    cis: real -> Complex, tau: real)
    requires transition > 0.0
  {
    Total(WindowedSinc(TapsFor(transition), (highcut - lowcut) / 2.0, kernel, cis, tau)) != 0.0
  }

  /**
   FftBandPassFilter from its parameters on, under any schedule: what it returns is the FIR
   filter with the same parameters, delayed by its taps but one and turned by one constant.
   The taps are those of a low-pass for half the width, `low`, turned by the center; `total`
   is what the low-pass was divided by.
   */
  method RunFftBandPass(lowcut: real, highcut: real, transition: real, kernel: real -> real,
                        cis: real -> Complex, tau: real, x: seq<Complex>, offers: seq<Offer>)
    returns (out: seq<Complex>, length: nat, fftSize: nat, ghost blocks: nat, ghost low: seq<real>, ghost total: real,
             ghost taps: seq<Complex>, ghost turn: Complex)
    requires IsCis(cis, tau) && forall a :: 0.0 < a < tau ==> cis(a) != ONE
    requires transition > 0.0 && HasTaps(lowcut, highcut, transition, kernel, cis, tau)
    ensures length == TapsFor(transition)
    ensures (exists k: nat :: fftSize == Pow2(k)) && length + 200 <= fftSize
    ensures forall k: nat :: length + 200 <= Pow2(k) ==> fftSize <= Pow2(k)
    ensures |out| == Multiple(blocks, fftSize - length + 1)
    ensures EndsWithRoom(offers, fftSize - length + 2) ==>
              Arrived(offers, |x|) <= |out| + fftSize - length + 1
    ensures |out| > 0 ==> |out| < Arrived(offers, |x|)
    ensures |low| == |taps| == length
    ensures Total(low) == 1.0 && total != 0.0
    ensures Times(low[length / 2], total) == Times(Times(tau, (highcut - lowcut) / 2.0), kernel(0.0))
    ensures forall k :: length / 2 < k < length ==>
              var i := (k - length / 2) as real;
              low[k] == low[length - 1 - k]
              && Times(Times(low[k], total), i)
                 == Times(cis(Times(Times(tau, (highcut - lowcut) / 2.0), i)).im, kernel(Over(i, (length / 2) as real)))
    ensures forall i :: 0 <= i < length ==>
              var phasor := cis(Steps(i, Times(tau, (highcut + lowcut) / 2.0)));
              taps[i] == Complex(Times(low[i], phasor.im), Times(low[i], phasor.re))
    ensures turn == Mul(Complex(0.0, -1.0), cis(Steps(length - 1, Times(tau, (highcut + lowcut) / 2.0))))
    ensures Norm(turn) == 1.0
    ensures forall n :: 0 <= n <= |out| - length ==> out[n + length - 1] == Mul(turn, Fir(x, taps, n))
  {
    hide *;
    length := FilterLength(transition);
    fftSize := GetFftSize(length);
    TapsDivisible(lowcut, highcut, transition, kernel, cis, tau);
    var lowPass;
    lowPass, total := LowPassFor(length, (highcut - lowcut) / 2.0, kernel, cis, tau);
    low := lowPass;
    var angle := Times(tau, (highcut + lowcut) / 2.0);
    out, blocks, taps, turn := PlannedBandPass(lowPass, angle, cis, tau, fftSize, x, offers);
  }

  /** With the roots of the plans. */
  method PlannedBandPass(r: seq<real>, angle: real, cis: real -> Complex, tau: real, fftSize: nat,
                         x: seq<Complex>, offers: seq<Offer>)
    returns (out: seq<Complex>, ghost blocks: nat, ghost taps: seq<Complex>, ghost turn: Complex)
    requires IsCis(cis, tau) && forall a :: 0.0 < a < tau ==> cis(a) != ONE
    requires Symmetric(r) && 0 < |r| <= fftSize
    ensures |out| == Multiple(blocks, fftSize - |r| + 1)
    ensures EndsWithRoom(offers, fftSize - |r| + 2) ==> Arrived(offers, |x|) <= |out| + fftSize - |r| + 1
    ensures |out| > 0 ==> |out| < Arrived(offers, |x|)
    ensures |taps| == |r| && forall i :: 0 <= i < |r| ==>
              taps[i] == Complex(Times(r[i], cis(Steps(i, angle)).im), Times(r[i], cis(Steps(i, angle)).re))
    ensures turn == Mul(Complex(0.0, -1.0), cis(Steps(|r| - 1, angle))) && Norm(turn) == 1.0
    ensures forall n :: 0 <= n <= |out| - |r| ==> out[n + |r| - 1] == Mul(turn, Fir(x, taps, n))
  {
    hide *;
    PlanRoots(cis, tau, fftSize);
    var v := cis(tau / fftSize as real);
    out, blocks, taps, turn := FftBandPass(r, angle, cis, tau, fftSize, Conj(v), v, x, offers);
  }

  lemma BandPassTapsAre(r: seq<real>, angle: real, cis: real -> Complex, tau: real)
    requires IsCis(cis, tau)
    ensures forall i :: 0 <= i < |r| ==>
              BandPassTaps(r, cis(angle))[i]
              == Complex(Times(r[i], cis(Steps(i, angle)).im), Times(r[i], cis(Steps(i, angle)).re))
  {
    hide *;
    forall i | 0 <= i < |r|
      ensures BandPassTaps(r, cis(angle))[i]
              == Complex(Times(r[i], cis(Steps(i, angle)).im), Times(r[i], cis(Steps(i, angle)).re))
    {
      BandPassTapAt(r, angle, cis, tau, i);
    }
  }

  method LowPassFor(length: nat, cutoff: real, kernel: real -> real, cis: real -> Complex, tau: real)
    returns (low: seq<real>, ghost total: real)
    requires length % 2 == 1
    requires Total(WindowedSinc(length, cutoff, kernel, cis, tau)) != 0.0
    ensures |low| == length && Symmetric(low) && Total(low) == 1.0 && total != 0.0
    ensures Times(low[length / 2], total) == Times(Times(tau, cutoff), kernel(0.0))
    ensures forall k :: length / 2 < k < length ==>
              var i := (k - length / 2) as real;
              low[k] == low[length - 1 - k]
              && Times(Times(low[k], total), i)
                 == Times(cis(Times(Times(tau, cutoff), i)).im, kernel(Over(i, (length / 2) as real)))
  {
    hide *;
    var taps;
    taps, total := GenerateLowPass(length, cutoff, kernel, cis, tau);
    low := taps[..];
    SymmetricAt(low);
  }

  lemma TapsDivisible(lowcut: real, highcut: real, transition: real, kernel: real -> real,
                      cis: real -> Complex, tau: real)
    requires transition > 0.0 && HasTaps(lowcut, highcut, transition, kernel, cis, tau)
    ensures Total(WindowedSinc(TapsFor(transition), (highcut - lowcut) / 2.0, kernel, cis, tau)) != 0.0
  {}

  lemma TurnedAt(out: seq<Complex>, x: seq<Complex>, taps: seq<Complex>, turn: Complex)
    requires IsTurnedFir(out, x, taps, turn)
    ensures |taps| > 0 && Norm(turn) == 1.0
    ensures forall n :: 0 <= n <= |out| - |taps| ==> out[n + |taps| - 1] == Mul(turn, Fir(x, taps, n))
  {}

  lemma SymmetricAt(taps: seq<real>)
    requires Symmetric(taps)
    ensures forall i :: 0 <= i < |taps| ==> taps[i] == taps[|taps| - 1 - i]
  {}

  lemma TwistIs(angle: real, cis: real -> Complex, tau: real, length: nat)
    requires IsCis(cis, tau) && length > 0
    ensures Twist(cis(angle), length) == Mul(Complex(0.0, -1.0), cis(Steps(length - 1, angle)))
  {
    hide IsCis, Pow, Steps, Mul;
    CisMultiple(cis, tau, angle, length - 1);
  }
}

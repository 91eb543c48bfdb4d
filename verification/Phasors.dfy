/**
 Rotating phasors. The trigonometric functions are abstract: `cis` stands for
 phase -> cos(phase) + j sin(phase), and `tau` for one full turn.
 */
module Phasors {
  import opened Complexes
  import opened Fourier
  import opened Reals

  ghost predicate IsCis(cis: real -> Complex, tau: real) {
    && tau > 0.0
    && cis(0.0) == ONE
    && cis(tau) == ONE
    && (forall a {:trigger Norm(cis(a))} :: Norm(cis(a)) == 1.0)
    && (forall a, b {:trigger Mul(cis(a), cis(b))} :: cis(a + b) == Mul(cis(a), cis(b)))
  }

  lemma CisZero(cis: real -> Complex, tau: real)
    requires IsCis(cis, tau)
    ensures cis(0.0) == ONE && tau > 0.0
  {}

  lemma CisAdd(cis: real -> Complex, tau: real, a: real, b: real)
    requires IsCis(cis, tau)
    ensures cis(a + b) == Mul(cis(a), cis(b))
  {
    hide Mul, Norm;
    var _ := Mul(cis(a), cis(b));
  }

  lemma CisTurn(cis: real -> Complex, tau: real, a: real)
    requires IsCis(cis, tau)
    ensures cis(a + tau) == cis(a) == cis(a - tau)
  {
    hide Mul, Norm;
    CisAdd(cis, tau, a, tau);
    CisAdd(cis, tau, a - tau, tau);
    assert a - tau + tau == a;
    MulUnits(cis(a));
    MulUnits(cis(a - tau));
  }

  lemma CisUnit(cis: real -> Complex, tau: real, a: real)
    requires IsCis(cis, tau)
    ensures Norm(cis(a)) == 1.0
  {
    hide Mul, Norm;
    var _ := Norm(cis(a));
  }

  /** Steps of one angle are powers of one phasor. */
  lemma {:induction false} CisMultiple(cis: real -> Complex, tau: real, angle: real, n: nat)
    requires IsCis(cis, tau)
    ensures cis(Steps(n, angle)) == Pow(cis(angle), n)
  {
    hide Mul, IsCis, Steps;
    CisZero(cis, tau);
    if n == 0 {
      StepsAdd(0, 0, angle);
    } else {
      CisMultiple(cis, tau, angle, n - 1);
      StepsAdd(1, n - 1, angle);
      CisAdd(cis, tau, angle, Steps(n - 1, angle));
    }
  }

  /**
   The phase-wrap loops: they terminate, end within one turn above `low`, and the
   phasor of the wrapped phase is the phasor of the phase.
   */
  method WrapPhase(start: real, low: real, ghost cis: real -> Complex, tau: real) returns (phase: real)
    requires IsCis(cis, tau)
    ensures low <= phase <= low + tau
    ensures cis(phase) == cis(start)
    ensures low <= start <= low + tau ==> phase == start
  {
    hide IsCis;
    CisZero(cis, tau);
    phase := start;
    while phase > low + tau
      invariant cis(phase) == cis(start)
      invariant phase == start || (low <= phase && start > low + tau)
      decreases ((phase - low - tau) / tau).Floor
    {
      StepsLeft(phase - low - tau, phase - tau - low - tau, tau);
      CisTurn(cis, tau, phase);
      phase := phase - tau;
    }
    while phase < low
      invariant cis(phase) == cis(start) && phase <= low + tau
      invariant phase == start || start > low + tau || start < low
      decreases ((low - phase) / tau).Floor
    {
      StepsLeft(low - phase, low - (phase + tau), tau);
      CisTurn(cis, tau, phase);
      phase := phase + tau;
    }
  }

  /**
   The roots that the FFTW plans use: one n-th of a turn backward and forward. They are
   what `Roots` asks for as soon as no smaller part of a turn is a full one.
   */
  lemma PlanRoots(cis: real -> Complex, tau: real, n: nat)
    requires IsCis(cis, tau) && n > 0
    requires forall a :: 0.0 < a < tau ==> cis(a) != ONE
    ensures Roots(Conj(cis(tau / n as real)), cis(tau / n as real), n)
  {
    hide IsCis, Mul, Norm, Conj, Pow, Steps;
    CisZero(cis, tau);
    var angle := tau / n as real;
    var v := cis(angle);
    CisUnit(cis, tau, angle);
    UnitTimesConj(v);
    CisMultiple(cis, tau, angle, n);
    PartOfTurn(tau, n, n);
    forall d | 0 < d < n ensures Pow(v, d) != ONE {
      CisMultiple(cis, tau, angle, d);
      PartOfTurn(tau, d, n);
    }
    CisTurn(cis, tau, 0.0);
    assert 0.0 + tau == tau;
  }

  lemma UnitTimesConj(z: Complex)
    requires Norm(z) == 1.0
    ensures Mul(Conj(z), z) == ONE
  {}

  lemma PartOfTurn(tau: real, d: nat, n: nat)
    requires tau > 0.0 && 0 < d <= n
    ensures Steps(n, tau / n as real) == tau
    ensures d < n ==> 0.0 < Steps(d, tau / n as real) < tau
  {
    var angle := tau / n as real;
    DivideTimes(tau, n as real);
    assert n as real * angle == tau;
    if d < n {
      assert d as real * angle > 0.0;
      assert (n - d) as real * angle > 0.0;
      assert n as real * angle == d as real * angle + (n - d) as real * angle;
    }
  }
}

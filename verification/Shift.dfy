/**
 src/lib/shift.cpp: shifting the spectrum by rotating the samples. The fast version
 derives every phasor from the last by four precomputed rotations and carries only a
 wrapped phase between calls; the direct version takes a sine and cosine per sample.
 */
module Shifts {
  import opened Complexes
  import opened Phasors
  import opened Reals

  lemma PowNext(w: Complex, m: nat, n: nat, p: Complex, q: Complex)
    requires p == Pow(w, m) && q == Pow(w, n)
    ensures Mul(p, q) == Pow(w, m + n)
  {
    hide *;
    PowAdd(w, m, n);
  }

  class ShiftAddfast {
    const cis: real -> Complex
    const tau: real
    const phaseIncrement: real
    /** (dcos[j], dsin[j]) */
    const rotations: seq<Complex>
    var startingPhase: real
    /** How many samples have been shifted. */
    ghost var done: nat

    ghost function W(): Complex { cis(phaseIncrement) }

    ghost predicate Valid()
      reads this
    {
      && IsCis(cis, tau)
      && |rotations| == 4
      && (forall j :: 0 <= j < 4 ==> rotations[j] == Pow(W(), j + 1))
      && cis(startingPhase) == Pow(W(), done)
    }

    constructor (phaseIncrement: real, cis: real -> Complex, tau: real)
      requires IsCis(cis, tau)
      ensures Valid() && done == 0 && this.phaseIncrement == phaseIncrement && this.cis == cis && this.tau == tau
    {
      hide IsCis, Mul, Steps, Pow;
      this.cis := cis;
      this.tau := tau;
      this.phaseIncrement := phaseIncrement;
      rotations := seq(4, i => cis(Steps(i + 1, phaseIncrement)));
      startingPhase := 0.0;
      done := 0;
      new;
      CisZero(cis, tau);
      PowZero(W());
      forall j | 0 <= j < 4 ensures rotations[j] == Pow(W(), j + 1) {
        CisMultiple(cis, tau, phaseIncrement, j + 1);
      }
    }

    /** Four samples from the phasor before them; returns the phasor of the last. */
    method FourLanes(input: seq<Complex>, output: array<Complex>, at: nat, start: Complex) returns (last: Complex)
      requires Valid() && at + 4 <= |input| <= output.Length && start == Pow(W(), done + at)
      modifies output
      ensures last == Pow(W(), done + at + 4)
      ensures forall k :: at <= k < at + 4 ==> output[k] == Mul(Pow(W(), done + k + 1), input[k])
      ensures forall k :: 0 <= k < at ==> output[k] == old(output[k])
    {
      hide Mul, Pow, IsCis;
      var w := cis(phaseIncrement);
      PowNext(w, done + at, 1, start, rotations[0]);
      PowNext(w, done + at, 2, start, rotations[1]);
      PowNext(w, done + at, 3, start, rotations[2]);
      PowNext(w, done + at, 4, start, rotations[3]);
      var v0, v1 := Mul(start, rotations[0]), Mul(start, rotations[1]);
      var v2, v3 := Mul(start, rotations[2]), Mul(start, rotations[3]);
      output[at] := Mul(v0, input[at]);
      output[at + 1] := Mul(v1, input[at + 1]);
      output[at + 2] := Mul(v2, input[at + 2]);
      output[at + 3] := Mul(v3, input[at + 3]);
      last := v3;
    }

    /** Sample n of all calls together is turned by w^(n + 1). */
    method Process(input: seq<Complex>, output: array<Complex>)
      requires Valid() && |input| % 4 == 0 && |input| <= output.Length
      modifies this, output
      ensures Valid() && done == old(done) + |input|
      ensures forall k :: 0 <= k < |input| ==> output[k] == Mul(Pow(W(), old(done) + k + 1), input[k])
      ensures -tau / 2.0 <= startingPhase <= tau / 2.0
    {
      hide Mul, Pow, IsCis, Steps;
      var start := cis(startingPhase);
      for i := 0 to |input| / 4
        invariant Valid() && done == old(done) && startingPhase == old(startingPhase)
        invariant start == Pow(W(), done + 4 * i)
        invariant forall k :: 0 <= k < 4 * i ==> output[k] == Mul(Pow(W(), done + k + 1), input[k])
      {
        start := FourLanes(input, output, 4 * i, start);
      }
      CisMultiple(cis, tau, phaseIncrement, |input|);
      CisAdd(cis, tau, startingPhase, Steps(|input|, phaseIncrement));
      PowNext(W(), done, |input|, cis(startingPhase), cis(Steps(|input|, phaseIncrement)));
      startingPhase := WrapPhase(startingPhase + Steps(|input|, phaseIncrement), -tau / 2.0, cis, tau);
      done := done + |input|;
    }
  }

  lemma PowZero(w: Complex)
    ensures Pow(w, 0) == ONE
  {}

  class ShiftMath {
    const cis: real -> Complex
    const tau: real
    const phaseIncrement: real
    var phase: real
    ghost var done: nat

    ghost function W(): Complex { cis(phaseIncrement) }

    ghost predicate Valid()
      reads this
    {
      IsCis(cis, tau) && cis(phase) == Pow(W(), done)
    }

    constructor (phaseIncrement: real, cis: real -> Complex, tau: real)
      requires IsCis(cis, tau)
      ensures Valid() && done == 0 && this.phaseIncrement == phaseIncrement && this.cis == cis && this.tau == tau
    {
      hide IsCis, Mul, Pow;
      this.cis := cis;
      this.tau := tau;
      this.phaseIncrement := phaseIncrement;
      phase := 0.0;
      done := 0;
      new;
      CisZero(cis, tau);
      PowZero(W());
    }

    /** The phasor i steps on. */
    lemma Turned(i: nat)
      requires Valid()
      ensures cis(Steps(i, phaseIncrement) + phase) == Pow(W(), done + i)
    {
      hide Mul, Pow, IsCis, Steps;
      CisMultiple(cis, tau, phaseIncrement, i);
      CisAdd(cis, tau, Steps(i, phaseIncrement), phase);
      PowNext(W(), i, done, cis(Steps(i, phaseIncrement)), cis(phase));
      assert i + done == done + i;
    }

    /** Sample n of all calls together is turned by w^n. */
    method Process(input: seq<Complex>, output: array<Complex>)
      requires Valid() && |input| <= output.Length
      modifies this, output
      ensures Valid() && done == old(done) + |input|
      ensures forall k :: 0 <= k < |input| ==> output[k] == Mul(input[k], Pow(W(), old(done) + k))
      ensures 0.0 <= phase <= tau
    {
      hide Mul, Pow, IsCis, Steps;
      for i := 0 to |input|
        invariant Valid() && done == old(done) && phase == old(phase)
        invariant forall k :: 0 <= k < i ==> output[k] == Mul(input[k], Pow(W(), done + k))
      {
        Turned(i);
        output[i] := Mul(input[i], cis(Steps(i, phaseIncrement) + phase));
      }
      Turned(|input|);
      phase := WrapPhase(Steps(|input|, phaseIncrement) + phase, 0.0, cis, tau);
      done := done + |input|;
    }
  }

  // ----- runs ---------------------------------------------------------------------------------

  function Total(sizes: seq<nat>): nat {
    if |sizes| == 0 then 0 else Total(sizes[..|sizes| - 1]) + sizes[|sizes| - 1]
  }

  lemma {:induction false} TotalOfPrefix(sizes: seq<nat>, k: nat)
    requires k <= |sizes|
    ensures Total(sizes[..k]) <= Total(sizes)
    decreases |sizes| - k
  {
    assert sizes[..|sizes|] == sizes;
    if k < |sizes| {
      assert sizes[..k + 1][..k] == sizes[..k];
      TotalOfPrefix(sizes, k + 1);
    }
  }

  method RunAddfast(x: seq<Complex>, sizes: seq<nat>, increment: real, cis: real -> Complex, tau: real)
    returns (out: seq<Complex>)
    requires IsCis(cis, tau) && Total(sizes) <= |x|
    requires forall k :: 0 <= k < |sizes| ==> sizes[k] % 4 == 0
    ensures |out| == Total(sizes)
    ensures forall n :: 0 <= n < |out| ==> out[n] == Mul(Pow(cis(increment), n + 1), x[n])
  {
    hide Mul, Pow, IsCis;
    var shift := new ShiftAddfast(increment, cis, tau);
    out := [];
    for k := 0 to |sizes|
      invariant fresh(shift) && shift.Valid() && shift.done == |out| == Total(sizes[..k]) <= |x|
      invariant shift.phaseIncrement == increment && shift.cis == cis
      invariant forall n :: 0 <= n < |out| ==> out[n] == Mul(Pow(cis(increment), n + 1), x[n])
    {
      assert sizes[..k + 1][..k] == sizes[..k];
      TotalOfPrefix(sizes, k + 1);
      var buffer := new Complex[sizes[k]];
      var chunk := x[|out|..|out| + sizes[k]];
      shift.Process(chunk, buffer);
      forall i | 0 <= i < sizes[k] ensures buffer[i] == Mul(Pow(cis(increment), |out| + i + 1), x[|out| + i]) {
        assert chunk[i] == x[|out| + i];
      }
      out := out + buffer[..];
    }
    assert sizes[..|sizes|] == sizes;
  }

  method RunMath(x: seq<Complex>, sizes: seq<nat>, increment: real, cis: real -> Complex, tau: real)
    returns (out: seq<Complex>)
    requires IsCis(cis, tau) && Total(sizes) <= |x|
    ensures |out| == Total(sizes)
    ensures forall n :: 0 <= n < |out| ==> out[n] == Mul(x[n], Pow(cis(increment), n))
  {
    hide Mul, Pow, IsCis;
    var shift := new ShiftMath(increment, cis, tau);
    out := [];
    for k := 0 to |sizes|
      invariant fresh(shift) && shift.Valid() && shift.done == |out| == Total(sizes[..k]) <= |x|
      invariant shift.phaseIncrement == increment && shift.cis == cis
      invariant forall n :: 0 <= n < |out| ==> out[n] == Mul(x[n], Pow(cis(increment), n))
    {
      assert sizes[..k + 1][..k] == sizes[..k];
      TotalOfPrefix(sizes, k + 1);
      var buffer := new Complex[sizes[k]];
      var chunk := x[|out|..|out| + sizes[k]];
      shift.Process(chunk, buffer);
      forall i | 0 <= i < sizes[k] ensures buffer[i] == Mul(x[|out| + i], Pow(cis(increment), |out| + i)) {
        assert chunk[i] == x[|out| + i];
      }
      out := out + buffer[..];
    }
    assert sizes[..|sizes|] == sizes;
  }

  /** Cut up in any two ways, the fast shift is the direct one times the one constant w. */
  method FastIsDirectTurned(x: seq<Complex>, sizes: seq<nat>, others: seq<nat>,
                            increment: real, cis: real -> Complex, tau: real)
    returns (fast: seq<Complex>, direct: seq<Complex>)
    requires IsCis(cis, tau) && Total(sizes) <= |x| && Total(others) <= |x|
    requires forall k :: 0 <= k < |sizes| ==> sizes[k] % 4 == 0
    ensures |fast| == Total(sizes) && |direct| == Total(others)
    ensures forall n :: 0 <= n < |fast| ==> fast[n] == Mul(Pow(cis(increment), n + 1), x[n])
    ensures forall n :: 0 <= n < |direct| ==> direct[n] == Mul(x[n], Pow(cis(increment), n))
    ensures forall n :: 0 <= n < |fast| && n < |direct| ==> fast[n] == Mul(cis(increment), direct[n])
    ensures Norm(cis(increment)) == 1.0
  {
    hide Mul, Pow, IsCis, Norm;
    fast := RunAddfast(x, sizes, increment, cis, tau);
    direct := RunMath(x, others, increment, cis, tau);
    CisUnit(cis, tau, increment);
    forall n | 0 <= n < |fast| && n < |direct| ensures fast[n] == Mul(cis(increment), direct[n]) {
      OneTurnMore(cis(increment), n, x[n]);
    }
  }

  lemma OneTurnMore(w: Complex, n: nat, x: Complex)
    ensures Mul(Pow(w, n + 1), x) == Mul(w, Mul(x, Pow(w, n)))
  {
    hide Mul;
    MulAssoc(w, Pow(w, n), x);
    MulComm(Pow(w, n), x);
  }
}

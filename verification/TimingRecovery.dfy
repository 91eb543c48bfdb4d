/**
 src/lib/timingrecovery.cpp: symbol timing. Every sample the error detectors look at is
 available, one symbol comes out of a call, and the reader advances by a positive number
 of samples around the symbol length, the same ones for every way the stream arrives.
 */
module TimingRecoveries {
  import opened Complexes
  import opened Integers
  import opened Reals
  import opened Schedules

  datatype Detector = Gardner | EarlyLate

  /** Conversion of a float to an int drops the fraction. */
  function Truncate(r: real): int { if r >= 0.0 then r.Floor else -((-r).Floor) }

  /** Negation of an unsigned 32-bit value. */
  function UnsignedMinus(n: nat): (m: int)
    requires n < 0x1_0000_0000
    ensures 0 <= m < 0x1_0000_0000 && (m + n) % 0x1_0000_0000 == 0
  {
    if n == 0 then 0 else 0x1_0000_0000 - n
  }

  function AbsReal(r: real): real { if r < 0.0 then -r else r }

  /** The offset that `process` derives from an error that has been limited. */
  function Correction(half: nat, sign: int, error: real, gain: real): int {
    Truncate(Times(Times(half as real * sign as real, error), gain))
  }

  lemma AbsTimes(a: real, b: real)
    ensures AbsReal(Times(a, b)) == Times(AbsReal(a), AbsReal(b))
  {
    TimesMinus(a, b);
    TimesMinus(a, -b);
    TimesComm(a, b);
    TimesComm(a, -b);
    TimesMinus(b, a);
    TimesMinus(b, -a);
    SignOfTimes(AbsReal(a), AbsReal(b), Times(AbsReal(a), AbsReal(b)));
  }

  lemma SignOfTimes(a: real, b: real, product: real)
    requires a >= 0.0 && b >= 0.0 && product == a * b
    ensures product >= 0.0
  {}

  lemma TimesMonotone(a: real, b: real, c: real)
    requires a <= b && c >= 0.0
    ensures Times(a, c) <= Times(b, c)
  {
    SignOfTimes(b - a, c, Times(b - a, c));
    TimesAdd(c, a, b - a);
  }

  /** The offset is at most half * |error * gain|, without its fraction. */
  lemma CorrectionSize(half: nat, sign: int, error: real, gain: real)
    requires sign == 1 || sign == -1
    ensures Abs(Correction(half, sign, error, gain)) == Times(half as real, AbsReal(Times(error, gain))).Floor
  {
    hide Times, Truncate, AbsReal;
    var signed := half as real * sign as real;
    TimesAssoc(signed, error, gain);
    AbsTimes(signed, Times(error, gain));
    SizeOfSigned(half, sign);
    TruncateSize(Times(Times(signed, error), gain));
  }

  lemma SizeOfSigned(half: nat, sign: int)
    requires sign == 1 || sign == -1
    ensures AbsReal(half as real * sign as real) == half as real
  {
    assert half as real * sign as real == if sign == 1 then half as real else -(half as real);
  }

  lemma TruncateSize(r: real)
    ensures Abs(Truncate(r)) == AbsReal(r).Floor
  {}

  /** Every limited error keeps the offset within half a symbol. */
  ghost predicate OffsetsBounded(half: nat, sign: int, maxError: real, gain: real) {
    forall error: real :: AbsReal(error) <= AbsReal(maxError) ==> Abs(Correction(half, sign, error, gain)) <= half
  }

  /**
   When the offsets are bounded: exactly if |max_error * loop_gain| times half a symbol is
   less than one sample more than half a symbol. A product of at most 1, as with the
   default settings, is always enough.
   */
  lemma OffsetsBoundedExactly(half: nat, sign: int, maxError: real, gain: real)
    requires sign == 1 || sign == -1
    ensures OffsetsBounded(half, sign, maxError, gain)
       <==> Times(half as real, AbsReal(Times(maxError, gain))) < (half + 1) as real
    ensures AbsReal(Times(maxError, gain)) <= 1.0 ==> OffsetsBounded(half, sign, maxError, gain)
  {
    hide Times, Correction;
    var limit := Times(half as real, AbsReal(Times(maxError, gain)));
    CorrectionSize(half, sign, maxError, gain);
    forall error: real | AbsReal(error) <= AbsReal(maxError)
      ensures Abs(Correction(half, sign, error, gain)) <= limit.Floor
    {
      CorrectionSize(half, sign, error, gain);
      AbsTimes(error, gain);
      AbsTimes(maxError, gain);
      TimesMonotone(AbsReal(error), AbsReal(maxError), AbsReal(gain));
      TimesComm(half as real, AbsReal(Times(error, gain)));
      TimesComm(half as real, AbsReal(Times(maxError, gain)));
      TimesMonotone(AbsReal(Times(error, gain)), AbsReal(Times(maxError, gain)), half as real);
    }
    if AbsReal(Times(maxError, gain)) <= 1.0 {
      TimesMonotone(AbsReal(Times(maxError, gain)), 1.0, half as real);
      TimesComm(half as real, AbsReal(Times(maxError, gain)));
      TimesUnits(half as real);
    }
  }

  function DetectorSign(detector: Detector): int { if detector.Gardner? then -1 else 1 }

  /** calculateError for real samples, from the right, left and middle one. */
  function RealError(right: real, left: real, mid: real): real { Times(right - left, mid) }

  /** calculateError for complex samples: the mean over both components. */
  function ComplexError(right: Complex, left: Complex, mid: Complex): real {
    (Times(right.re - left.re, mid.re) + Times(right.im - left.im, mid.im)) / 2.0
  }

  ghost predicate Attains<T(!new)>(calculateError: (T, T, T) -> real, error: real) {
    exists one: T, left: T :: calculateError(one, left, one) == error
  }

  /** Equal outer samples make no error, and otherwise any error can occur. */
  ghost predicate Detects<T(!new)>(calculateError: (T, T, T) -> real) {
    && (forall outer: T, mid: T :: calculateError(outer, outer, mid) == 0.0)
    && (forall error: real :: Attains(calculateError, error))
  }

  lemma RealDetects()
    ensures Detects(RealError)
  {
    hide Times;
    forall outer: real, mid: real ensures RealError(outer, outer, mid) == 0.0 {
      TimesUnits(mid);
    }
    forall error: real ensures Attains(RealError, error) {
      TimesUnits(error);
      assert RealError(1.0, 1.0 - error, 1.0) == error;
    }
  }

  lemma ComplexDetects()
    ensures Detects(ComplexError)
  {
    hide Times;
    forall outer: Complex, mid: Complex ensures ComplexError(outer, outer, mid) == 0.0 {
      TimesUnits(mid.re);
      TimesUnits(mid.im);
    }
    forall error: real ensures Attains(ComplexError, error) {
      TimesUnits(2.0 * error);
      TimesUnits(0.0);
      assert ComplexError(ONE, Complex(1.0 - 2.0 * error, 0.0), ONE) == error;
    }
  }

  datatype Settings<!T> = Settings(detector: Detector, decimation: nat, loopGain: real, maxError: real,
                                   calculateError: (T, T, T) -> real)
  {
    function Low(): nat { decimation - decimation / 2 }

    function High(): nat { decimation + decimation / 2 }
  }

  /** The timing error at a cursor, with the offset of the early-late detector reset. */
  function TimingError<T>(s: Settings<T>, x: seq<T>, at: nat): real
    requires at + s.decimation / 2 * 3 < |x|
  {
    var half, wing := s.decimation / 2, s.decimation / 4;
    match s.detector
    case Gardner => s.calculateError(x[at + half * 3], x[at + half], x[at + half * 2])
    case EarlyLate => s.calculateError(x[at + wing * 3], x[at + wing], x[at + half])
  }

  /** Limits from above, then from below. */
  function Limited(error: real, maxError: real): (limited: real)
    ensures AbsReal(limited) <= AbsReal(maxError)
    ensures AbsReal(error) <= maxError ==> limited == error
    ensures maxError < 0.0 ==> limited == -maxError
  {
    var upper := if error > maxError then maxError else error;
    if upper < -maxError then -maxError else upper
  }

  /** How far the cursor moves on after the symbol at a cursor. */
  function Advance<T>(s: Settings<T>, x: seq<T>, at: nat): int
    requires at + s.decimation / 2 * 3 < |x|
  {
    s.decimation + Correction(s.decimation / 2, DetectorSign(s.detector), Limited(TimingError(s, x, at), s.maxError),
                              s.loopGain)
  }

  // ----- where an error moves the cursor ------------------------------------------------------

  /** A product without its fraction: `move` is the next whole number towards zero. */
  predicate TowardsZero(move: int, product: real) {
    if product >= 0.0 then 0 <= move && move as real <= product < move as real + 1.0
    else move <= 0 && move as real - 1.0 < product <= move as real
  }

  lemma LimitedIs(error: real, maxError: real)
    requires maxError >= 0.0
    ensures Limited(error, maxError) == if error > maxError then maxError
                                        else if error < -maxError then -maxError else error
  {}

  /** The three samples of the Gardner detector; a positive error moves the cursor back. */
  lemma GardnerMove<T>(s: Settings<T>, x: seq<T>, at: nat, error: real, limited: real)
    requires s.detector.Gardner? && s.maxError >= 0.0 && at + s.decimation / 2 * 3 < |x|
    requires error == s.calculateError(x[at + s.decimation / 2 * 3], x[at + s.decimation / 2],
                                       x[at + s.decimation / 2 * 2])
    requires limited == if error > s.maxError then s.maxError else if error < -s.maxError then -s.maxError else error
    ensures TowardsZero(s.decimation - Advance(s, x, at),
                        Times(Times((s.decimation / 2) as real, limited), s.loopGain))
  {
    hide Times;
    LimitedIs(error, s.maxError);
    var half := (s.decimation / 2) as real;
    assert half * DetectorSign(s.detector) as real == -half;
    TimesMinus(half, limited);
    TimesMinus(Times(half, limited), s.loopGain);
  }

  /** The three samples of the early-late detector; a positive error moves the cursor on. */
  lemma EarlyLateMove<T>(s: Settings<T>, x: seq<T>, at: nat, error: real, limited: real)
    requires s.detector.EarlyLate? && s.maxError >= 0.0 && at + s.decimation / 2 * 3 < |x|
    requires error == s.calculateError(x[at + s.decimation / 4 * 3], x[at + s.decimation / 4],
                                       x[at + s.decimation / 2])
    requires limited == if error > s.maxError then s.maxError else if error < -s.maxError then -s.maxError else error
    ensures TowardsZero(Advance(s, x, at) - s.decimation,
                        Times(Times((s.decimation / 2) as real, limited), s.loopGain))
  {
    hide Times;
    LimitedIs(error, s.maxError);
    var half := (s.decimation / 2) as real;
    assert half * DetectorSign(s.detector) as real == half;
    assert Advance(s, x, at) - s.decimation == Truncate(Times(Times(half, limited), s.loopGain));
  }

  /** A positive product goes one way, and at least one sample once it reaches 1. */
  lemma MoveDirection(move: int, half: nat, limited: real, gain: real)
    requires gain > 0.0 && TowardsZero(move, Times(Times(half as real, limited), gain))
    ensures limited >= 0.0 ==> move >= 0 && (half as real * limited * gain >= 1.0 ==> move >= 1)
    ensures limited <= 0.0 ==> move <= 0 && (half as real * limited * gain <= -1.0 ==> move <= -1)
  {
    ThreeFactors(half as real, limited, gain);
  }

  lemma ThreeFactors(a: real, b: real, c: real)
    requires a >= 0.0 && c > 0.0
    ensures Times(Times(a, b), c) == a * b * c
    ensures b >= 0.0 ==> Times(Times(a, b), c) >= 0.0
    ensures b <= 0.0 ==> Times(Times(a, b), c) <= 0.0
  {
    if b >= 0.0 {
      SignOfTimes(a, b, a * b);
      SignOfTimes(a * b, c, a * b * c);
    } else {
      SignOfTimes(a, -b, a * -b);
      SignOfTimes(a * -b, c, a * -b * c);
      assert a * -b * c == -(a * b * c);
    }
  }

  /**
   The direction of every correction. The Gardner detector consumes less for a positive error
   and more for a negative one, the early-late detector the other way round, each by at least
   one sample once half a symbol times the limited error and the gain reaches 1.
   */
  lemma Direction<T>(s: Settings<T>, x: seq<T>, at: nat, error: real, limited: real)
    requires s.loopGain > 0.0 && s.maxError >= 0.0 && at + s.decimation / 2 * 3 < |x|
    requires var half, wing := s.decimation / 2, s.decimation / 4;
             error == if s.detector.Gardner?
                      then s.calculateError(x[at + half * 3], x[at + half], x[at + half * 2])
                      else s.calculateError(x[at + wing * 3], x[at + wing], x[at + half])
    requires limited == if error > s.maxError then s.maxError else if error < -s.maxError then -s.maxError else error
    ensures var product, less := (s.decimation / 2) as real * limited * s.loopGain, s.decimation - Advance(s, x, at);
            if s.detector.Gardner?
            then && (error >= 0.0 ==> less >= 0 && (product >= 1.0 ==> less >= 1))
                 && (error <= 0.0 ==> less <= 0 && (product <= -1.0 ==> less <= -1))
            else && (error >= 0.0 ==> less <= 0 && (product >= 1.0 ==> less <= -1))
                 && (error <= 0.0 ==> less >= 0 && (product <= -1.0 ==> less >= 1))
  {
    hide Advance, TowardsZero, Times;
    if s.detector.Gardner? {
      GardnerMove(s, x, at, error, limited);
      MoveDirection(s.decimation - Advance(s, x, at), s.decimation / 2, limited, s.loopGain);
    } else {
      EarlyLateMove(s, x, at, error, limited);
      MoveDirection(Advance(s, x, at) - s.decimation, s.decimation / 2, limited, s.loopGain);
    }
  }

  /** The two instances of calculateError. */
  lemma RealErrorIs(right: real, left: real, mid: real)
    ensures RealError(right, left, mid) == (right - left) * mid
  {}

  lemma ComplexErrorIs(right: Complex, left: Complex, mid: Complex)
    ensures ComplexError(right, left, mid)
         == ((right.re - left.re) * mid.re + (right.im - left.im) * mid.im) / 2.0
  {}

  lemma FromError<T>(s: Settings<T>, x: seq<T>, at: nat, error: real)
    requires s.loopGain > 0.0 && s.maxError >= 0.0 && at + s.decimation / 2 * 3 < |x|
    requires var half, wing := s.decimation / 2, s.decimation / 4;
             error == if s.detector.Gardner?
                      then s.calculateError(x[at + half * 3], x[at + half], x[at + half * 2])
                      else s.calculateError(x[at + wing * 3], x[at + wing], x[at + half])
    ensures s.detector.Gardner? ==>
              && (error > 0.0 ==> Advance(s, x, at) <= s.decimation)
              && (error < 0.0 ==> Advance(s, x, at) >= s.decimation)
              && ((s.decimation / 2) as real * s.maxError * s.loopGain >= 1.0 ==>
                    && (error >= s.maxError ==> Advance(s, x, at) < s.decimation)
                    && (error <= -s.maxError ==> Advance(s, x, at) > s.decimation))
    ensures s.detector.EarlyLate? ==>
              && (error > 0.0 ==> Advance(s, x, at) >= s.decimation)
              && (error < 0.0 ==> Advance(s, x, at) <= s.decimation)
              && ((s.decimation / 2) as real * s.maxError * s.loopGain >= 1.0 ==>
                    && (error >= s.maxError ==> Advance(s, x, at) > s.decimation)
                    && (error <= -s.maxError ==> Advance(s, x, at) < s.decimation))
  {
    hide Advance, Times;
    var limited := if error > s.maxError then s.maxError else if error < -s.maxError then -s.maxError else error;
    Direction(s, x, at, error, limited);
    var a, b, c := (s.decimation / 2) as real, s.maxError, s.loopGain;
    OppositeProduct(a, b, c);
  }

  lemma OppositeProduct(a: real, b: real, c: real)
    ensures a * -b * c == -(a * b * c)
  {}

  /** The direction for real samples, from the samples. */
  lemma RealDirection(s: Settings<real>, x: seq<real>, at: nat, error: real)
    requires s.calculateError == RealError && s.loopGain > 0.0 && s.maxError >= 0.0
    requires at + s.decimation / 2 * 3 < |x|
    requires var half, wing := s.decimation / 2, s.decimation / 4;
             error == if s.detector.Gardner?
                      then (x[at + half * 3] - x[at + half]) * x[at + half * 2]
                      else (x[at + wing * 3] - x[at + wing]) * x[at + half]
    ensures s.detector.Gardner? ==>
              && (error > 0.0 ==> Advance(s, x, at) <= s.decimation)
              && (error < 0.0 ==> Advance(s, x, at) >= s.decimation)
              && ((s.decimation / 2) as real * s.maxError * s.loopGain >= 1.0 ==>
                    && (error >= s.maxError ==> Advance(s, x, at) < s.decimation)
                    && (error <= -s.maxError ==> Advance(s, x, at) > s.decimation))
    ensures s.detector.EarlyLate? ==>
              && (error > 0.0 ==> Advance(s, x, at) >= s.decimation)
              && (error < 0.0 ==> Advance(s, x, at) <= s.decimation)
              && ((s.decimation / 2) as real * s.maxError * s.loopGain >= 1.0 ==>
                    && (error >= s.maxError ==> Advance(s, x, at) > s.decimation)
                    && (error <= -s.maxError ==> Advance(s, x, at) < s.decimation))
  {
    hide Advance, Times, RealError;
    var half, wing := s.decimation / 2, s.decimation / 4;
    if s.detector.Gardner? {
      RealErrorIs(x[at + half * 3], x[at + half], x[at + half * 2]);
    } else {
      RealErrorIs(x[at + wing * 3], x[at + wing], x[at + half]);
    }
    FromError(s, x, at, error);
  }

  /** The direction for complex samples, from the samples. */
  lemma ComplexDirection(s: Settings<Complex>, x: seq<Complex>, at: nat, error: real)
    requires s.calculateError == ComplexError && s.loopGain > 0.0 && s.maxError >= 0.0
    requires at + s.decimation / 2 * 3 < |x|
    requires var half, wing := s.decimation / 2, s.decimation / 4;
             error == if s.detector.Gardner?
                      then ((x[at + half * 3].re - x[at + half].re) * x[at + half * 2].re
                            + (x[at + half * 3].im - x[at + half].im) * x[at + half * 2].im) / 2.0
                      else ((x[at + wing * 3].re - x[at + wing].re) * x[at + half].re
                            + (x[at + wing * 3].im - x[at + wing].im) * x[at + half].im) / 2.0
    ensures s.detector.Gardner? ==>
              && (error > 0.0 ==> Advance(s, x, at) <= s.decimation)
              && (error < 0.0 ==> Advance(s, x, at) >= s.decimation)
              && ((s.decimation / 2) as real * s.maxError * s.loopGain >= 1.0 ==>
                    && (error >= s.maxError ==> Advance(s, x, at) < s.decimation)
                    && (error <= -s.maxError ==> Advance(s, x, at) > s.decimation))
    ensures s.detector.EarlyLate? ==>
              && (error > 0.0 ==> Advance(s, x, at) >= s.decimation)
              && (error < 0.0 ==> Advance(s, x, at) <= s.decimation)
              && ((s.decimation / 2) as real * s.maxError * s.loopGain >= 1.0 ==>
                    && (error >= s.maxError ==> Advance(s, x, at) > s.decimation)
                    && (error <= -s.maxError ==> Advance(s, x, at) < s.decimation))
  {
    hide Advance, Times, ComplexError;
    var half, wing := s.decimation / 2, s.decimation / 4;
    if s.detector.Gardner? {
      ComplexErrorIs(x[at + half * 3], x[at + half], x[at + half * 2]);
    } else {
      ComplexErrorIs(x[at + wing * 3], x[at + wing], x[at + half]);
    }
    FromError(s, x, at, error);
  }

  predicate Within<T>(s: Settings<T>, x: seq<T>, at: nat) {
    at + s.decimation / 2 * 3 < |x| ==> s.Low() <= Advance(s, x, at) <= s.High()
  }

  /** Whatever the samples, a step stays within half a symbol of the symbol length. */
  ghost predicate StepsBounded<T(!new)>(s: Settings<T>) {
    forall x: seq<T>, at: nat :: Within(s, x, at)
  }

  ghost predicate Usable<T(!new)>(s: Settings<T>) {
    1 <= s.decimation < 0x1_0000_0000 && StepsBounded(s)
  }

  /** The early-late detector cannot see anything: its outer samples are the same one. */
  predicate Blind<T>(s: Settings<T>) {
    s.detector.EarlyLate? && 2 <= s.decimation <= 3 && s.maxError >= 0.0
  }

  lemma BlindStep<T(!new)>(s: Settings<T>, x: seq<T>, at: nat)
    requires Blind(s) && Detects(s.calculateError) && at + s.decimation / 2 * 3 < |x|
    ensures Advance(s, x, at) == s.decimation
  {
    assert s.calculateError(x[at], x[at], x[at + s.decimation / 2]) == 0.0;
    assert TimingError(s, x, at) == 0.0;
  }

  /** Samples at which the limited error is as large as it can be. */
  lemma LargestError<T(!new)>(s: Settings<T>) returns (x: seq<T>)
    requires Detects(s.calculateError) && s.decimation >= 2 && !Blind(s)
    ensures |x| == s.decimation / 2 * 3 + 1 && Limited(TimingError(s, x, 0), s.maxError) == AbsReal(s.maxError)
  {
    assert Attains(s.calculateError, s.maxError);
    var one, left :| s.calculateError(one, left, one) == s.maxError;
    var place := if s.detector.Gardner? then s.decimation / 2 else s.decimation / 4;
    x := seq(s.decimation / 2 * 3 + 1, i => if i == place then left else one);
  }

  /** Half a symbol times |max_error * loop_gain|. */
  function Product<T>(s: Settings<T>): real {
    Times((s.decimation / 2) as real, AbsReal(Times(s.maxError, s.loopGain)))
  }

  /**
   Every step stays within half a symbol exactly if the offsets of all limited errors do, or
   if there is no error to see.
   */
  lemma StepsBoundedExactly<T(!new)>(s: Settings<T>)
    requires Detects(s.calculateError)
    ensures StepsBounded(s) <==> Blind(s) || Product(s) < (s.decimation / 2 + 1) as real
  {
    hide Times, Correction, Limited, TimingError, Detects;
    var half, sign := s.decimation / 2, DetectorSign(s.detector);
    OffsetsBoundedExactly(half, sign, s.maxError, s.loopGain);
    if Blind(s) {
      forall x: seq<T>, at: nat ensures Within(s, x, at) {
        if at + s.decimation / 2 * 3 < |x| {
          BlindStep(s, x, at);
        }
      }
    } else if OffsetsBounded(half, sign, s.maxError, s.loopGain) {
      forall x: seq<T>, at: nat ensures Within(s, x, at) {
        if at + s.decimation / 2 * 3 < |x| {
          LimitedStep(s, x, at);
        }
      }
    } else {
      NoOffsetBelowTwo(s);
      var x := LargestError(s);
      CorrectionSize(half, sign, AbsReal(s.maxError), s.loopGain);
      AbsTimes(s.maxError, s.loopGain);
      AbsTimes(AbsReal(s.maxError), s.loopGain);
      assert !Within(s, x, 0);
    }
  }

  lemma LimitedStep<T>(s: Settings<T>, x: seq<T>, at: nat)
    requires OffsetsBounded(s.decimation / 2, DetectorSign(s.detector), s.maxError, s.loopGain)
    requires at + s.decimation / 2 * 3 < |x|
    ensures Within(s, x, at)
  {
    hide Correction, TimingError;
  }

  lemma NoOffsetBelowTwo<T>(s: Settings<T>)
    ensures s.decimation < 2 ==> OffsetsBounded(s.decimation / 2, DetectorSign(s.detector), s.maxError, s.loopGain)
  {
    hide Times;
    var half, sign := s.decimation / 2, DetectorSign(s.detector);
    if s.decimation < 2 {
      TimesUnits(AbsReal(Times(s.maxError, s.loopGain)));
      OffsetsBoundedExactly(half, sign, s.maxError, s.loopGain);
    }
  }

  class TimingRecovery<T(!new)> {
    const detector: Detector
    const decimation: nat
    const loopGain: real
    const maxError: real
    const calculateError: (T, T, T) -> real
    var correctionOffset: int

    function Parameters(): Settings<T> { Settings(detector, decimation, loopGain, maxError, calculateError) }

    ghost predicate Valid()
      reads this
    {
      Usable(Parameters()) && Abs(correctionOffset) <= decimation / 2
    }

    constructor (s: Settings<T>)
      requires Usable(s)
      ensures Valid() && Parameters() == s
    {
      detector, decimation, loopGain, maxError := s.detector, s.decimation, s.loopGain, s.maxError;
      calculateError := s.calculateError;
      correctionOffset := 0;
    }

    predicate CanProcess(available: nat, writeable: nat) {
      available > decimation / 2 * 3 && writeable > 0
    }

    /**
     The reset in front of the detectors compares with 0.9 times a negated unsigned number,
     which is huge: the offset is reset on every call, not only when it is large.
     */
    method ResetOffset()
      requires Valid()
      modifies this
      ensures Valid() && correctionOffset == 0
    {
      var quarter := decimation / 4;
      if correctionOffset as real <= 0.9 * UnsignedMinus(quarter) as real
         || correctionOffset as real >= 0.9 * quarter as real {
        correctionOffset := 0;
      }
    }

    /** The three samples of a detector and the symbol; each index has to be in the window. */
    method GetError(input: seq<T>) returns (error: real, symbol: T)
      requires Valid() && |input| > decimation / 2 * 3 && correctionOffset == 0
      ensures symbol == input[decimation / 2]
      ensures error == TimingError(Parameters(), input, 0)
    {
      var half := decimation / 2;
      symbol := input[half];
      if detector.Gardner? {
        error := calculateError(input[half * 3], input[half], input[half * 2]);
      } else {
        var wing := decimation / 4;
        error := calculateError(input[wing * 3], input[wing - correctionOffset], input[half]);
      }
    }

    method Process(input: seq<T>, writeable: nat) returns (symbol: T, advanced: nat)
      requires Valid() && CanProcess(|input|, writeable)
      modifies this
      ensures Valid() && symbol == input[decimation / 2]
      ensures advanced == Advance(Parameters(), input, 0) && correctionOffset == advanced - decimation
      ensures decimation - decimation / 2 <= advanced <= decimation + decimation / 2
      ensures 1 <= advanced <= |input|
    {
      hide Correction, TimingError, StepsBounded;
      ResetOffset();
      var error;
      error, symbol := GetError(input);
      if error > maxError {
        error := maxError;
      }
      if error < -maxError {
        error := -maxError;
      }
      StepInside(Parameters(), input, 0);
      correctionOffset := Correction(decimation / 2, DetectorSign(detector), error, loopGain);
      advanced := decimation + correctionOffset;
    }
  }

  lemma StepInside<T(!new)>(s: Settings<T>, x: seq<T>, at: nat)
    requires StepsBounded(s) && at + s.decimation / 2 * 3 < |x|
    ensures s.Low() <= Advance(s, x, at) <= s.High()
  {
    hide Advance;
    assert Within(s, x, at);
  }

  /** Had the reset kept offsets inside +-0.9 quarter symbols, the detectors would stay in range too. */
  lemma IntendedWindowInRange(decimation: nat, offset: int, index: int)
    requires decimation >= 1
    requires -0.9 * (decimation / 4) as real < offset as real < 0.9 * (decimation / 4) as real
    requires index == decimation / 4 - offset
    ensures 0 <= index <= decimation / 2 * 3
  {}

  /** Only the samples at the cursor matter, not how many are available behind them. */
  lemma AdvanceInside<T>(s: Settings<T>, x: seq<T>, at: nat, arrived: nat)
    requires at + s.decimation / 2 * 3 < arrived <= |x|
    ensures Advance(s, x[at..arrived], 0) == Advance(s, x, at)
    ensures x[at..arrived][s.decimation / 2] == x[at + s.decimation / 2]
  {
    hide Correction, Limited;
    var piece, half, wing := x[at..arrived], s.decimation / 2, s.decimation / 4;
    assert piece[half * 3] == x[at + half * 3] && piece[half * 2] == x[at + half * 2] && piece[half] == x[at + half];
    assert piece[wing * 3] == x[at + wing * 3] && piece[wing] == x[at + wing];
  }

  /**
   A symbol lies half a symbol length after its cursor, and the next cursor follows from
   the samples at this one: a symbol length on, within half a symbol.
   */
  ghost predicate Follows<T>(s: Settings<T>, x: seq<T>, arrived: nat, from: nat, symbol: T, next: nat) {
    && from + s.decimation / 2 * 3 < arrived <= |x|
    && symbol == x[from + s.decimation / 2]
    && next == from + Advance(s, x, from)
    && s.decimation - s.decimation / 2 <= next - from <= s.decimation + s.decimation / 2
  }

  /** Symbols that follow each other from the start of the stream on. */
  ghost predicate Tracks<T>(s: Settings<T>, x: seq<T>, arrived: nat, symbols: seq<T>, cursor: seq<nat>) {
    && |cursor| == |symbols| + 1 && cursor[0] == 0
    && (forall i :: 0 <= i < |symbols| ==> Follows(s, x, arrived, cursor[i], symbols[i], cursor[i + 1]))
  }

  lemma TracksNothing<T>(s: Settings<T>, x: seq<T>)
    ensures Tracks(s, x, 0, [], [0])
  {}

  lemma TracksLater<T>(s: Settings<T>, x: seq<T>, before: nat, arrived: nat, symbols: seq<T>, cursor: seq<nat>)
    requires Tracks(s, x, before, symbols, cursor) && before <= arrived <= |x|
    ensures Tracks(s, x, arrived, symbols, cursor)
  {
    hide Advance;
  }

  lemma OneMore<T>(s: Settings<T>, x: seq<T>, arrived: nat, from: nat, advanced: nat)
    requires from + s.decimation / 2 * 3 < arrived <= |x|
    requires advanced == Advance(s, x, from)
    requires s.decimation - s.decimation / 2 <= advanced <= s.decimation + s.decimation / 2
    ensures Follows(s, x, arrived, from, x[from + s.decimation / 2], from + advanced)
  {
    hide Advance;
  }

  lemma TracksOneMore<T>(s: Settings<T>, x: seq<T>, arrived: nat, symbols: seq<T>, cursor: seq<nat>,
                      pos: nat, advanced: nat)
    requires Tracks(s, x, arrived, symbols, cursor) && cursor[|symbols|] == pos
    requires pos + s.decimation / 2 * 3 < arrived <= |x|
    requires advanced == Advance(s, x, pos)
    requires s.decimation - s.decimation / 2 <= advanced <= s.decimation + s.decimation / 2
    ensures Tracks(s, x, arrived, symbols + [x[pos + s.decimation / 2]], cursor + [pos + advanced])
  {
    hide Advance, Follows;
    var symbol := x[pos + s.decimation / 2];
    assert Follows(s, x, arrived, pos, symbol, pos + advanced) by { OneMore(s, x, arrived, pos, advanced); }
  }

  /** n symbols consume n times the symbol length, within half a symbol for each. */
  lemma {:induction false} ConsumedBounds<T>(s: Settings<T>, x: seq<T>, arrived: nat, symbols: seq<T>,
                                          cursor: seq<nat>, n: nat)
    requires Tracks(s, x, arrived, symbols, cursor) && n <= |symbols|
    ensures n * (s.decimation - s.decimation / 2) <= cursor[n] <= n * (s.decimation + s.decimation / 2)
  {
    hide Advance;
    if n > 0 {
      ConsumedBounds(s, x, arrived, symbols, cursor, n - 1);
      var low, high := s.decimation - s.decimation / 2, s.decimation + s.decimation / 2;
      assert n * low == (n - 1) * low + low && n * high == (n - 1) * high + high;
    }
  }

  /**
   The cursors of any two runs over the same stream agree as far as both go: neither the
   schedule nor the room of the writer moves a symbol.
   */
  lemma {:induction false} SameCursors<T>(s: Settings<T>, x: seq<T>, arrived: nat, symbols: seq<T>, cursor: seq<nat>,
                                       arrived': nat, symbols': seq<T>, cursor': seq<nat>, n: nat)
    requires Tracks(s, x, arrived, symbols, cursor) && Tracks(s, x, arrived', symbols', cursor')
    requires n <= |symbols| && n <= |symbols'|
    ensures cursor[n] == cursor'[n]
    ensures n < |symbols| && n < |symbols'| ==> symbols[n] == symbols'[n]
  {
    hide Advance;
    if n > 0 {
      SameCursors(s, x, arrived, symbols, cursor, arrived', symbols', cursor', n - 1);
      assert Follows(s, x, arrived, cursor[n - 1], symbols[n - 1], cursor[n]);
      assert Follows(s, x, arrived', cursor'[n - 1], symbols'[n - 1], cursor'[n]);
    }
    if n < |symbols| && n < |symbols'| {
      assert Follows(s, x, arrived, cursor[n], symbols[n], cursor[n + 1]);
      assert Follows(s, x, arrived', cursor'[n], symbols'[n], cursor'[n + 1]);
    }
  }

  /** Any schedule tracks the stream, as far as what arrived allows. */
  method RunTiming<T(!new)>(s: Settings<T>, x: seq<T>, offers: seq<Offer>) returns (symbols: seq<T>, cursor: seq<nat>)
    requires Usable(s)
    ensures Tracks(s, x, Arrived(offers, |x|), symbols, cursor)
    ensures |symbols| * (s.decimation - s.decimation / 2) <= cursor[|symbols|]
         <= |symbols| * (s.decimation + s.decimation / 2)
    ensures cursor[|symbols|] <= Arrived(offers, |x|)
    ensures EndsWithRoom(offers, 1) ==> Arrived(offers, |x|) <= cursor[|symbols|] + s.decimation / 2 * 3
    ensures NeverRoom(offers, 1) ==> symbols == []
  {
    hide StepsBounded, Advance, Tracks;
    var recovery := new TimingRecovery(s);
    symbols, cursor := [], [0];
    var arrived, pos := 0, 0;
    TracksNothing(s, x);
    for k := 0 to |offers|
      invariant fresh(recovery) && recovery.Valid() && recovery.Parameters() == s
      invariant |cursor| == |symbols| + 1 && cursor[|symbols|] == pos <= arrived == Arrived(offers[..k], |x|)
      invariant EndsWithRoom(offers[..k], 1) ==> arrived <= pos + s.decimation / 2 * 3
      invariant Tracks(s, x, arrived, symbols, cursor)
      invariant NeverRoom(offers[..k], 1) ==> symbols == []
    {
      ArrivedNext(offers, |x|, k);
      TracksLater(s, x, arrived, Min(|x|, arrived + offers[k].arriving), symbols, cursor);
      arrived := Min(|x|, arrived + offers[k].arriving);
      while recovery.CanProcess(arrived - pos, offers[k].writeable)
        invariant fresh(recovery) && recovery.Valid() && recovery.Parameters() == s
        invariant |cursor| == |symbols| + 1 && cursor[|symbols|] == pos <= arrived
        invariant Tracks(s, x, arrived, symbols, cursor)
        invariant NeverRoom(offers[..k + 1], 1) ==> symbols == []
        decreases arrived - pos
      {
        AdvanceInside(s, x, pos, arrived);
        var symbol, advanced := recovery.Process(x[pos..arrived], offers[k].writeable);
        TracksOneMore(s, x, arrived, symbols, cursor, pos, advanced);
        symbols, cursor := symbols + [symbol], cursor + [pos + advanced];
        pos := pos + advanced;
      }
    }
    assert offers[..|offers|] == offers;
    ConsumedBounds(s, x, arrived, symbols, cursor, |symbols|);
  }
}

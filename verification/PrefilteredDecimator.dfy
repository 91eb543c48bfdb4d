/**
 src/lib/fractionaldecimator.cpp:98-103: resampling through a prefilter is resampling the
 stream that src/lib/fir.cpp filters with its taps.
 */
module PrefilteredDecimators {
  import opened Complexes
  import opened FirFilters
  import opened FractionalDecimators
  import opened Integers
  import opened Polynomials
  import opened Reals
  import opened Schedules

  /** Real samples or taps as complex ones. */
  function Embedded(x: seq<real>): (z: seq<Complex>)
    ensures |z| == |x| && forall i :: 0 <= i < |x| ==> z[i] == Complex(x[i], 0.0)
  {
    seq(|x|, i requires 0 <= i < |x| => Complex(x[i], 0.0))
  }

  /** The prefilter of the decimator is the FIR filter. */
  lemma {:induction false} DotIsFir(x: seq<real>, stale: real, taps: seq<real>, n: int, m: nat)
    requires 0 <= n && m <= |taps| && n + m <= |x|
    ensures Complex(Dot(Signal(x, stale), taps, n, m), 0.0) == Fir(Embedded(x), Embedded(taps[..m]), n)
  {
    hide Times, Fir;
    if m == 0 {
      FirGrows(Embedded(x), [], ZERO, n);
      assert Embedded(taps[..0]) == [];
    } else {
      DotIsFir(x, stale, taps, n, m - 1);
      FirGrows(Embedded(x), Embedded(taps[..m - 1]), Complex(taps[m - 1], 0.0), n);
      assert Embedded(taps[..m]) == Embedded(taps[..m - 1]) + [Complex(taps[m - 1], 0.0)];
      RealProduct(x[n + m - 1], taps[m - 1]);
    }
  }

  lemma RealProduct(a: real, b: real)
    ensures Mul(Complex(a, 0.0), Complex(b, 0.0)) == Complex(Times(a, b), 0.0)
  {}

  /** The stream that a FIR filter with these taps makes of x. */
  ghost predicate IsFiltered(y: seq<real>, x: seq<real>, taps: seq<real>) {
    && |y| == Max(|x| - |taps| + 1, 0)
    && forall n :: 0 <= n < |y| ==> Complex(y[n], 0.0) == Fir(Embedded(x), Embedded(taps), n)
  }

  lemma FilteredAt(x: seq<real>, a: real, taps: seq<real>, y: seq<real>, b: real, n: int)
    requires IsFiltered(y, x, taps) && 0 <= n && n + |taps| <= |x|
    ensures Filtered(Signal(x, a), Taps(taps), n) == Filtered(Signal(y, b), NoFilter, n)
  {
    hide Dot, Fir;
    assert taps[..|taps|] == taps;
    DotIsFir(x, a, taps, n, |taps|);
    assert Complex(y[n], 0.0) == Fir(Embedded(x), Embedded(taps), n);
  }

  /** An output through the prefilter is the output without it over the filtered stream. */
  lemma PrefilterFirst(x: seq<real>, a: real, taps: seq<real>, y: seq<real>, b: real, points: nat, rate: real,
                       arrived: nat, k: nat)
    requires points >= 4 && rate > 0.0 && arrived <= |x| && IsFiltered(y, x, taps)
    requires Reachable(points, rate, |taps|, arrived, k)
    ensures Resample(Signal(x, a), Taps(taps), points, Position(points, rate, k))
         == Resample(Signal(y, b), NoFilter, points, Position(points, rate, k))
  {
    hide Ceil, Interpolate, Position, Filtered, IsFiltered;
    PositionMonotone(points, rate, 0, k);
    PositionStep(points, rate, 0);
    var position := Position(points, rate, k);
    CeilBounds(position, 0);
    var index := Ceil(position) - 1;
    var through, over := Neighbours(Signal(x, a), Taps(taps), index, points),
                         Neighbours(Signal(y, b), NoFilter, index, points);
    forall i | 0 <= i < points ensures through[i] == over[i] {
      FilteredAt(x, a, taps, y, b, index + i);
    }
    assert through == over;
  }

  /**
   A run through a prefilter: the stream is filtered and then resampled, `y` being the
   filtered stream, for as many outputs as leave `points` samples and the taps.
   */
  method RunPrefiltered(x: seq<real>, taps: seq<real>, rate: real, polyPoints: nat, offers: seq<Offer>)
    returns (out: seq<real>, ghost y: seq<real>)
    requires polyPoints >= 4 && rate > 0.0
    ensures |y| == Max(|x| - |taps| + 1, 0)
    ensures forall n :: 0 <= n < |y| ==> Complex(y[n], 0.0) == Fir(Embedded(x), Embedded(taps), n)
    ensures var points := polyPoints - polyPoints % 2;
            && (forall k :: 0 <= k < |out| ==>
                  out[k] == Resample(Signal(y, 0.0), NoFilter, points, Position(points, rate, k)))
            && (forall k :: 0 <= k < |out| ==> Reachable(points, rate, |taps|, Arrived(offers, |x|), k))
            && (EndsRoomy(offers, points, rate, |taps|) ==>
                  !Reachable(points, rate, |taps|, Arrived(offers, |x|), |out|))
  {
    hide Resample, Position, Reachable, Roomy, Arrived, Signal, Fir;
    var points := polyPoints - polyPoints % 2;
    out := RunDecimator(x, 0.0, rate, polyPoints, Taps(taps), offers);
    y := seq(Max(|x| - |taps| + 1, 0), n => Fir(Embedded(x), Embedded(taps), n).re);
    forall n | 0 <= n < |y| ensures Complex(y[n], 0.0) == Fir(Embedded(x), Embedded(taps), n) {
      DotIsFir(x, 0.0, taps, n, |taps|);
      assert taps[..|taps|] == taps;
    }
    forall k | 0 <= k < |out|
      ensures out[k] == Resample(Signal(y, 0.0), NoFilter, points, Position(points, rate, k))
    {
      PrefilterFirst(x, 0.0, taps, y, 0.0, points, rate, Arrived(offers, |x|), k);
    }
  }
}

/**
 src/lib/firdecimate.cpp and src/lib/filter.cpp: FIR filtering in pieces. However the
 stream is cut, the outputs are those of the whole stream, and the decimating module
 computes every decimation-th output of the plain one.
 */
module FirModules {
  import opened Complexes
  import opened FirFilters
  import opened Integers
  import opened Schedules

  // ----- FirDecimate ------------------------------------------------------------------

  /** FirDecimate::canProcess; `overhead` is the number of taps. */
  predicate DecimateCanProcess(available: nat, writeable: nat, overhead: nat, decimation: nat)
    requires decimation > 0
  {
    available > overhead && (available - overhead) / decimation > 0 && writeable > 0
  }

  /**
   Every tap is laid inside the window. As many outputs as the writer takes, and as leave at
   least |taps| samples in the window, so that a window of just |taps| samples has none.
   */
  method DecimateProcess(window: seq<Complex>, writeable: nat, taps: seq<Complex>, decimation: nat)
    returns (output: seq<Complex>, advanced: nat)
    requires decimation > 0
    ensures |output| <= writeable && advanced == |output| * decimation <= |window|
    ensures forall i {:trigger output[i]} :: 0 <= i < |output| ==> output[i] == Fir(window, taps, i * decimation)
    ensures |output| == writeable || advanced + decimation + |taps| > |window|
    ensures |output| > 0 ==> advanced + |taps| <= |window|
    ensures DecimateCanProcess(|window|, writeable, |taps|, decimation) ==> |output| > 0
  {
    hide Fir;
    output := [];
    advanced := 0;
    if |window| < |taps| {
      return;
    }
    var quotient := (|window| - |taps|) / decimation;
    var samples := Min(quotient, writeable);
    DivisionFits(|window| - |taps|, decimation, samples);
    for i := 0 to samples
      invariant |output| == i
      invariant forall k {:trigger output[k]} :: 0 <= k < i ==> output[k] == Fir(window, taps, k * decimation)
    {
      ProductMonotone(i, samples, decimation);
      var y := ProcessSample(window, taps, i * decimation);
      output := output + [y];
    }
    advanced := samples * decimation;
  }

  lemma DivisionFits(room: nat, decimation: nat, samples: nat)
    requires decimation > 0 && samples <= room / decimation
    ensures samples * decimation <= room
    ensures samples == room / decimation ==> samples * decimation + decimation > room
  {
    DivBounds(room, decimation);
    ProductMonotone(samples, room / decimation, decimation);
  }

  /** The number of outputs `arrived` samples allow. */
  function DecimatedCount(arrived: nat, overhead: nat, decimation: nat): nat
    requires decimation > 0
  {
    if arrived < overhead then 0 else (arrived - overhead) / decimation
  }

  /** The last output leaves the taps and less than one more step in what has arrived. */
  lemma CountExactly(arrived: nat, overhead: nat, decimation: nat, count: nat)
    requires decimation > 0
    ensures count == DecimatedCount(arrived, overhead, decimation)
       <==> if arrived < overhead then count == 0
            else count * decimation + overhead <= arrived < count * decimation + decimation + overhead
  {
    if arrived >= overhead {
      DivBounds(arrived - overhead, decimation);
      if count * decimation + overhead <= arrived < count * decimation + decimation + overhead {
        DivModUnique(arrived - overhead, decimation, count, arrived - overhead - count * decimation);
      }
    }
  }

  lemma CountStep(arrived: nat, overhead: nat, decimation: nat, count: nat, writeable: nat)
    requires decimation > 0 && count * decimation <= arrived
    ensures DecimateCanProcess(arrived - count * decimation, writeable, overhead, decimation)
       <==> writeable > 0 && count < DecimatedCount(arrived, overhead, decimation)
    ensures count * decimation + overhead <= arrived ==> count <= DecimatedCount(arrived, overhead, decimation)
  {
    var used := count * decimation;
    if arrived >= used + overhead {
      QuotientLeft(arrived - used - overhead, decimation, count, arrived - overhead);
    } else if arrived >= overhead {
      QuotientBelow(arrived - overhead, decimation, count);
    }
  }

  lemma QuotientLeft(rest: nat, decimation: nat, count: nat, all: nat)
    requires decimation > 0 && all == rest + count * decimation
    ensures all / decimation == rest / decimation + count
  {
    DivModShift(rest, decimation, count);
  }

  lemma QuotientBelow(all: nat, decimation: nat, count: nat)
    requires decimation > 0 && all < count * decimation
    ensures all / decimation < count
  {
    DivBounds(all, decimation);
    if all / decimation >= count {
      ProductMonotone(count, all / decimation, decimation);
    }
  }

  lemma CountMonotone(before: nat, arrived: nat, overhead: nat, decimation: nat)
    requires decimation > 0 && before <= arrived
    ensures DecimatedCount(before, overhead, decimation) <= DecimatedCount(arrived, overhead, decimation)
  {
    if before >= overhead {
      DivMonotone(before - overhead, arrived - overhead, decimation);
    }
  }

  /** Any schedule decimates the stream as one pass over all that arrived would. */
  method RunDecimate(x: seq<Complex>, taps: seq<Complex>, decimation: nat, offers: seq<Offer>)
    returns (out: seq<Complex>)
    requires decimation > 0
    ensures |out| <= DecimatedCount(Arrived(offers, |x|), |taps|, decimation)
    ensures EndsWithRoom(offers, 1) ==> |out| == DecimatedCount(Arrived(offers, |x|), |taps|, decimation)
    ensures NeverRoom(offers, 1) ==> out == []
    ensures forall n {:trigger out[n]} :: 0 <= n < |out| ==> out[n] == Fir(x, taps, n * decimation)
  {
    hide Fir, DecimatedCount, DecimateCanProcess;
    out := [];
    var arrived := 0;
    EmptyCount(|taps|, decimation);
    for k := 0 to |offers|
      invariant arrived == Arrived(offers[..k], |x|)
      invariant |out| <= DecimatedCount(arrived, |taps|, decimation)
      invariant EndsWithRoom(offers[..k], 1) ==> |out| == DecimatedCount(arrived, |taps|, decimation)
      invariant |out| * decimation <= arrived
      invariant NeverRoom(offers[..k], 1) ==> out == []
      invariant forall n {:trigger out[n]} :: 0 <= n < |out| ==> out[n] == Fir(x, taps, n * decimation)
    {
      ArrivedNext(offers, |x|, k);
      CountMonotone(arrived, Min(|x|, arrived + offers[k].arriving), |taps|, decimation);
      arrived := Min(|x|, arrived + offers[k].arriving);
      out := DrainDecimate(x, taps, decimation, out, arrived, offers[k].writeable);
    }
    assert offers[..|offers|] == offers;
  }

  /** `while (canProcess()) process();` on the samples that have arrived. */
  method DrainDecimate(x: seq<Complex>, taps: seq<Complex>, decimation: nat,
                       soFar: seq<Complex>, arrived: nat, writeable: nat)
    returns (out: seq<Complex>)
    requires decimation > 0
    requires |soFar| * decimation <= arrived <= |x|
    requires |soFar| <= DecimatedCount(arrived, |taps|, decimation)
    requires forall n {:trigger soFar[n]} :: 0 <= n < |soFar| ==> soFar[n] == Fir(x, taps, n * decimation)
    ensures |out| <= DecimatedCount(arrived, |taps|, decimation) && |out| * decimation <= arrived
    ensures if writeable > 0 then |out| == DecimatedCount(arrived, |taps|, decimation) else out == soFar
    ensures forall n {:trigger out[n]} :: 0 <= n < |out| ==> out[n] == Fir(x, taps, n * decimation)
  {
    hide Fir, DecimatedCount, DecimateCanProcess;
    out := soFar;
    CountStep(arrived, |taps|, decimation, |out|, writeable);
    while DecimateCanProcess(arrived - |out| * decimation, writeable, |taps|, decimation)
      invariant |out| * decimation <= arrived && (writeable == 0 ==> out == soFar)
      invariant |out| <= DecimatedCount(arrived, |taps|, decimation)
      invariant DecimateCanProcess(arrived - |out| * decimation, writeable, |taps|, decimation)
           <==> writeable > 0 && |out| < DecimatedCount(arrived, |taps|, decimation)
      invariant forall n {:trigger out[n]} :: 0 <= n < |out| ==> out[n] == Fir(x, taps, n * decimation)
      decreases DecimatedCount(arrived, |taps|, decimation) - |out|
    {
      var position := |out| * decimation;
      var output, advanced := DecimateProcess(x[position..arrived], writeable, taps, decimation);
      forall i | 0 <= i < |output| ensures output[i] == Fir(x, taps, (|out| + i) * decimation) {
        ProductMonotone(i, |output| - 1, decimation);
        assert (|output| - 1) * decimation + decimation == advanced;
        FirWindow(x, taps, position, arrived, i * decimation);
        assert position + i * decimation == (|out| + i) * decimation;
      }
      assert (|out| + |output|) * decimation == position + advanced;
      out := out + output;
      CountStep(arrived, |taps|, decimation, |out|, writeable);
    }
  }

  lemma EmptyCount(overhead: nat, decimation: nat)
    requires decimation > 0
    ensures DecimatedCount(0, overhead, decimation) == 0
  {}

  // ----- FilterModule over a FirFilter -----------------------------------------------------

  /** FilterModule::canProcess with the minimum processing size 0 of a sample filter. */
  predicate FilterCanProcess(available: nat, writeable: nat, overhead: nat) {
    available > overhead && writeable > 0
  }

  /** FilterModule::process: `apply` runs the filter at every index of the window. */
  method FilterProcess(window: seq<Complex>, writeable: nat, taps: seq<Complex>)
    returns (output: seq<Complex>)
    ensures |output| == if |window| < |taps| then 0 else Min(|window| - |taps|, writeable)
    ensures forall i :: 0 <= i < |output| ==> output[i] == Fir(window, taps, i)
    ensures FilterCanProcess(|window|, writeable, |taps|) ==> |output| > 0
  {
    hide Fir;
    output := [];
    if |window| < |taps| {
      return;
    }
    for i := 0 to Min(|window| - |taps|, writeable)
      invariant |output| == i
      invariant forall k :: 0 <= k < i ==> output[k] == Fir(window, taps, k)
    {
      var y := ProcessSample(window, taps, i);
      output := output + [y];
    }
  }

  /** Any schedule filters the stream as one pass over all that arrived would. */
  method RunFilter(x: seq<Complex>, taps: seq<Complex>, offers: seq<Offer>) returns (out: seq<Complex>)
    ensures |out| <= DecimatedCount(Arrived(offers, |x|), |taps|, 1)
    ensures EndsWithRoom(offers, 1) ==> |out| == DecimatedCount(Arrived(offers, |x|), |taps|, 1)
    ensures NeverRoom(offers, 1) ==> out == []
    ensures forall n :: 0 <= n < |out| ==> out[n] == Fir(x, taps, n)
  {
    hide Fir;
    out := [];
    var arrived := 0;
    for k := 0 to |offers|
      invariant arrived == Arrived(offers[..k], |x|)
      invariant |out| <= DecimatedCount(arrived, |taps|, 1)
      invariant EndsWithRoom(offers[..k], 1) ==> |out| == DecimatedCount(arrived, |taps|, 1)
      invariant NeverRoom(offers[..k], 1) ==> out == []
      invariant forall n :: 0 <= n < |out| ==> out[n] == Fir(x, taps, n)
    {
      ArrivedNext(offers, |x|, k);
      arrived := Min(|x|, arrived + offers[k].arriving);
      while FilterCanProcess(arrived - |out|, offers[k].writeable, |taps|)
        invariant |out| <= DecimatedCount(arrived, |taps|, 1)
        invariant NeverRoom(offers[..k + 1], 1) ==> out == []
        invariant forall n :: 0 <= n < |out| ==> out[n] == Fir(x, taps, n)
        decreases arrived - |out|
      {
        var output := FilterProcess(x[|out|..arrived], offers[k].writeable, taps);
        forall i | 0 <= i < |output| ensures output[i] == Fir(x, taps, |out| + i) {
          FirWindow(x, taps, |out|, arrived, i);
        }
        out := out + output;
      }
    }
    assert offers[..|offers|] == offers;
  }

  /** Decimating is filtering and keeping every decimation-th output, under any two schedules. */
  method DecimateIsSparseFilter(x: seq<Complex>, taps: seq<Complex>, decimation: nat,
                                offers: seq<Offer>, others: seq<Offer>)
    returns (decimated: seq<Complex>, filtered: seq<Complex>)
    requires decimation > 0
    ensures |decimated| <= DecimatedCount(Arrived(offers, |x|), |taps|, decimation)
    ensures |filtered| <= DecimatedCount(Arrived(others, |x|), |taps|, 1)
    ensures EndsWithRoom(offers, 1) ==> |decimated| == DecimatedCount(Arrived(offers, |x|), |taps|, decimation)
    ensures EndsWithRoom(others, 1) ==> |filtered| == DecimatedCount(Arrived(others, |x|), |taps|, 1)
    ensures forall n {:trigger decimated[n]} :: 0 <= n < |decimated| ==> decimated[n] == Fir(x, taps, n * decimation)
    ensures forall n :: 0 <= n < |filtered| ==> filtered[n] == Fir(x, taps, n)
    ensures forall n {:trigger decimated[n]} :: 0 <= n < |decimated| && n * decimation < |filtered| ==>
              decimated[n] == filtered[n * decimation]
    ensures Arrived(offers, |x|) == Arrived(others, |x|) && EndsWithRoom(offers, 1) && EndsWithRoom(others, 1)
            ==> |decimated| == |filtered| / decimation
  {
    hide Fir;
    decimated := RunDecimate(x, taps, decimation, offers);
    filtered := RunFilter(x, taps, others);
    forall n | 0 <= n < |decimated| ensures 0 <= n * decimation {
      ProductMonotone(0, n, decimation);
    }
  }
}

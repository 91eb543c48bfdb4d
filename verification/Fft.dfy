/**
 src/lib/fft.cpp: where the transforms of a stream are taken, and of what. After a
 transform the reader is not advanced, only the skip count starts again.
 */
module FftWindows {
  import opened Complexes
  import opened Fourier
  import opened Integers
  import opened Schedules

  /** Samples times the coefficients of a window (PrecalculatedWindow::apply). */
  function Windowed(coefficients: seq<real>, x: seq<Complex>, at: nat): (windowed: seq<Complex>)
    requires at + |coefficients| <= |x|
    ensures |windowed| == |coefficients|
  {
    seq(|coefficients|, i requires 0 <= i < |coefficients| => Mul(Real(coefficients[i]), x[at + i]))
  }

  /** The transform with root w of the windowed samples from `at` on. */
  function Spectrum(w: Complex, coefficients: seq<real>, x: seq<Complex>, at: nat): seq<Complex>
    requires at + |coefficients| <= |x|
  {
    Transform(w, Windowed(coefficients, x, at))
  }

  /** What a spectrum is, bin by bin: each sample times its coefficient, turned by i times the bin. */
  lemma SpectrumGrows(w: Complex, coefficients: seq<real>, r: real, x: seq<Complex>, at: nat, bin: int)
    requires at + |coefficients| + 1 <= |x|
    ensures Dft(w, Windowed([], x, at), bin) == ZERO
    ensures Dft(w, Windowed(coefficients + [r], x, at), bin)
         == Add(Dft(w, Windowed(coefficients, x, at), bin),
                Mul(Complex(x[at + |coefficients|].re * r, x[at + |coefficients|].im * r),
                    Pow(w, |coefficients| * bin)))
    ensures 0 <= bin < |coefficients| ==>
              Spectrum(w, coefficients, x, at)[bin] == Dft(w, Windowed(coefficients, x, at), bin)
  {
    hide Mul, Add, Pow, Dft;
    var last := Complex(x[at + |coefficients|].re * r, x[at + |coefficients|].im * r);
    ScaledSample(r, x[at + |coefficients|]);
    WindowedGrows(coefficients, r, x, at);
    var before := Windowed(coefficients, x, at);
    DftGrows(w, before, last, bin);
    assert Mul(Real(r), x[at + |coefficients|]) == last;
    assert Windowed(coefficients + [r], x, at) == before + [last];
    assert |before| == |coefficients|;
    assert Pow(w, |before| * bin) == Pow(w, |coefficients| * bin);
  }

  lemma WindowedGrows(coefficients: seq<real>, r: real, x: seq<Complex>, at: nat)
    requires at + |coefficients| + 1 <= |x|
    ensures Windowed([], x, at) == []
    ensures Windowed(coefficients + [r], x, at)
         == Windowed(coefficients, x, at) + [Mul(Real(r), x[at + |coefficients|])]
  {
    hide Mul;
    var more, before := Windowed(coefficients + [r], x, at), Windowed(coefficients, x, at);
    forall i | 0 <= i < |coefficients| ensures more[i] == before[i] {
      assert (coefficients + [r])[i] == coefficients[i];
    }
  }

  lemma WindowedInside(coefficients: seq<real>, x: seq<Complex>, from: nat, arrived: nat, at: nat)
    requires from <= arrived <= |x| && from + at + |coefficients| <= arrived
    ensures Windowed(coefficients, x[from..arrived], at) == Windowed(coefficients, x, from + at)
  {
    hide Mul;
  }

  class Fft {
    const fftSize: nat
    const everyNSamples: nat
    const window: seq<real>
    /** Root of the forward plan. */
    const w: Complex
    var skipped: nat
    /** Reader position and number of transforms so far. */
    ghost var position: nat
    ghost var emitted: nat

    ghost predicate Valid()
      reads this
    {
      && fftSize == |window|
      && position == Multiple(emitted, everyNSamples) + skipped && skipped <= everyNSamples
    }

    constructor (window: seq<real>, everyNSamples: nat, w: Complex)
      ensures Valid() && position == 0 && emitted == 0 && skipped == 0
      ensures this.window == window && this.everyNSamples == everyNSamples && this.w == w
    {
      this.fftSize, this.window, this.everyNSamples, this.w := |window|, window, everyNSamples, w;
      skipped, position, emitted := 0, 0, 0;
    }

    predicate CanProcess(available: nat, writeable: nat) {
      Min(available, writeable) > fftSize
    }

    method ApplyWindow(input: seq<Complex>, at: nat) returns (windowed: seq<Complex>)
      requires fftSize == |window| && at + fftSize <= |input|
      ensures windowed == Windowed(window, input, at)
      ensures forall i :: 0 <= i < fftSize ==>
                windowed[i] == Complex(input[at + i].re * window[i], input[at + i].im * window[i])
    {
      hide Mul;
      windowed := [];
      for i := 0 to fftSize
        invariant |windowed| == i && forall k :: 0 <= k < i ==>
                    windowed[k] == Complex(input[at + k].re * window[k], input[at + k].im * window[k])
        invariant forall k :: 0 <= k < i ==> windowed[k] == Windowed(window, input, at)[k]
      {
        windowed := windowed + [Complex(input[at + i].re * window[i], input[at + i].im * window[i])];
        ScaledSample(window[i], input[at + i]);
      }
    }

    /**
     One transform, of the samples from the next multiple of everyNSamples on, exactly if
     they are all there. Otherwise the reader goes as far towards that multiple as it can.
     */
    method Process(input: seq<Complex>, writeable: nat) returns (spectra: seq<seq<Complex>>, advanced: nat)
      requires Valid() && CanProcess(|input|, writeable)
      modifies this
      ensures Valid() && advanced <= |input| && position == old(position) + advanced
      ensures |spectra| <= 1 && emitted == old(emitted) + |spectra|
      ensures |spectra| == 1 ==> position == Multiple(emitted, everyNSamples) && advanced + fftSize <= |input|
                                 && spectra[0] == Spectrum(w, window, input, advanced)
      ensures |spectra| == 1 <==> everyNSamples - old(skipped) + fftSize <= |input|
      ensures |spectra| == 1 ==> skipped == 0
      ensures |spectra| == 0 ==> advanced == Min(everyNSamples - old(skipped), |input|) > 0
                                 && skipped == old(skipped) + advanced
    {
      hide Multiple, Windowed, Transform;
      spectra, advanced := [], 0;
      var available := |input|;
      if skipped + available >= everyNSamples {
        if everyNSamples > skipped {
          var toSkip := everyNSamples - skipped;
          advanced := toSkip;
          skipped := skipped + toSkip;
          available := available - toSkip;
        }
        if available >= fftSize {
          var windowed := ApplyWindow(input, advanced);
          spectra := [Transform(w, windowed)];
          skipped := 0;
          MultipleSteps(emitted, everyNSamples, 0);
          emitted := emitted + 1;
        }
      } else {
        advanced := available;
        skipped := skipped + available;
      }
      position := position + advanced;
    }
  }

  lemma ScaledSample(r: real, z: Complex)
    ensures Mul(Real(r), z) == Complex(z.re * r, z.im * r)
  {}

  /** Transform k (from 1) starts at sample k * every and lies inside what has arrived. */
  ghost predicate IsSpectrum(spectrum: seq<Complex>, w: Complex, window: seq<real>, x: seq<Complex>,
                             arrived: nat, start: nat)
  {
    start + |window| <= arrived <= |x| && spectrum == Spectrum(w, window, x, start)
  }

  ghost predicate AreSpectra(spectra: seq<seq<Complex>>, w: Complex, window: seq<real>, x: seq<Complex>,
                             arrived: nat, every: nat)
  {
    forall k :: 0 <= k < |spectra| ==> IsSpectrum(spectra[k], w, window, x, arrived, Multiple(k + 1, every))
  }

  // ----- how many transforms ------------------------------------------------------------------

  /** How many transforms there were, and how far the reader is on its way to the next. */
  datatype Cursor = Cursor(count: nat, skipped: nat) {
    function Position(every: nat): nat { Multiple(count, every) + skipped }

    predicate Valid(every: nat, arrived: nat) { skipped <= every && Position(every) <= arrived }
  }

  /** Where one offer leads: to the last window that is all there, as long as there is more to read than a window. */
  function Drained(c: Cursor, arrived: nat, writeable: nat, size: nat, every: nat): Cursor
    requires every > 0 && c.Valid(every, arrived)
  {
    if Min(arrived - c.Position(every), writeable) <= size then c
    else if arrived < Multiple(c.count + 1, every) + size then
      c.(skipped := Min(every, arrived - Multiple(c.count, every)))
    else
      var last := (arrived - size) / every;
      LastWindow(arrived, size, every);
      var rest := arrived - Multiple(last, every);
      Cursor(last, if rest <= size then 0 else Min(every, rest))
  }

  lemma LastWindow(arrived: nat, size: nat, every: nat)
    requires every > 0 && size <= arrived
    ensures var last := (arrived - size) / every;
            0 <= last && Multiple(last, every) + size <= arrived < Multiple(last + 1, every) + size
  {
    DivBounds(arrived - size, every);
    ProductMonotone(0, (arrived - size) / every, every);
    MultipleSteps((arrived - size) / every, every, 0);
  }

  lemma OnlyLastWindow(arrived: nat, size: nat, every: nat, n: nat)
    requires every > 0 && Multiple(n, every) + size <= arrived < Multiple(n + 1, every) + size
    ensures (arrived - size) / every == n
  {
    MultipleSteps(n, every, 0);
    DivModUnique(arrived - size, every, n, arrived - size - Multiple(n, every));
  }

  lemma DrainedValid(c: Cursor, arrived: nat, writeable: nat, size: nat, every: nat)
    requires every > 0 && c.Valid(every, arrived)
    ensures Drained(c, arrived, writeable, size, every).Valid(every, arrived)
  {
    hide Multiple;
    if arrived >= Multiple(c.count + 1, every) + size {
      LastWindow(arrived, size, every);
    }
  }

  /** One call on the way does not change where the offer leads. */
  lemma DrainedStep(c: Cursor, d: Cursor, arrived: nat, writeable: nat, size: nat, every: nat)
    requires every > 0 && c.Valid(every, arrived) && d.Valid(every, arrived)
    requires Min(arrived - c.Position(every), writeable) > size
    requires d == if every - c.skipped + size <= arrived - c.Position(every) then Cursor(c.count + 1, 0)
                  else c.(skipped := c.skipped + Min(every - c.skipped, arrived - c.Position(every)))
    ensures Drained(d, arrived, writeable, size, every) == Drained(c, arrived, writeable, size, every)
  {
    hide Multiple;
    MultipleSteps(c.count, every, 0);
    MultipleSteps(c.count + 1, every, 0);
    if d.count == c.count + 1 && arrived < Multiple(c.count + 2, every) + size {
      OnlyLastWindow(arrived, size, every, c.count + 1);
    }
  }

  /** A run of offers on counts alone. */
  function CursorOf(offers: seq<Offer>, total: nat, size: nat, every: nat): (c: Cursor)
    requires every > 0
    ensures c.Valid(every, Arrived(offers, total))
  {
    if |offers| == 0 then Cursor(0, 0)
    else
      var before, last := offers[..|offers| - 1], offers[|offers| - 1];
      DrainedValid(CursorOf(before, total, size, every), Arrived(offers, total), last.writeable, size, every);
      Drained(CursorOf(before, total, size, every), Arrived(offers, total), last.writeable, size, every)
  }

  /** `while (canProcess()) process();` on the samples that have arrived. */
  method Drain(fft: Fft, x: seq<Complex>, soFar: seq<seq<Complex>>, from: nat, arrived: nat, writeable: nat)
    returns (spectra: seq<seq<Complex>>, pos: nat)
    requires fft.Valid() && fft.everyNSamples > 0
    requires fft.position == from <= arrived <= |x| && fft.emitted == |soFar|
    requires AreSpectra(soFar, fft.w, fft.window, x, arrived, fft.everyNSamples)
    modifies fft
    ensures fft.Valid() && fft.position == pos <= arrived && fft.emitted == |spectra|
    ensures Cursor(|spectra|, fft.skipped)
         == Drained(Cursor(|soFar|, old(fft.skipped)), arrived, writeable, fft.fftSize, fft.everyNSamples)
    ensures AreSpectra(spectra, fft.w, fft.window, x, arrived, fft.everyNSamples)
  {
    hide Multiple, Transform, Windowed, IsSpectrum, Drained;
    spectra, pos := soFar, from;
    while fft.CanProcess(arrived - pos, writeable)
      invariant fft.Valid() && fft.position == pos <= arrived && fft.emitted == |spectra|
      invariant AreSpectra(spectra, fft.w, fft.window, x, arrived, fft.everyNSamples)
      invariant Drained(Cursor(|spectra|, fft.skipped), arrived, writeable, fft.fftSize, fft.everyNSamples)
             == Drained(Cursor(|soFar|, old(fft.skipped)), arrived, writeable, fft.fftSize, fft.everyNSamples)
      decreases arrived - pos, fft.skipped
    {
      MultipleSteps(|spectra|, fft.everyNSamples, 0);
      ghost var c := Cursor(|spectra|, fft.skipped);
      var more, advanced := fft.Process(x[pos..arrived], writeable);
      if |more| == 1 {
        SpectrumAt(fft.w, fft.window, x, pos, arrived, advanced);
      }
      pos := pos + advanced;
      spectra := spectra + more;
      DrainedStep(c, Cursor(|spectra|, fft.skipped), arrived, writeable, fft.fftSize, fft.everyNSamples);
    }
    NothingToDrain(Cursor(|spectra|, fft.skipped), arrived, writeable, fft.fftSize, fft.everyNSamples);
  }

  lemma NothingToDrain(c: Cursor, arrived: nat, writeable: nat, size: nat, every: nat)
    requires every > 0 && c.Valid(every, arrived) && Min(arrived - c.Position(every), writeable) <= size
    ensures Drained(c, arrived, writeable, size, every) == c
  {}

  lemma SpectrumAt(w: Complex, window: seq<real>, x: seq<Complex>, from: nat, arrived: nat, advanced: nat)
    requires from <= arrived <= |x| && from + advanced + |window| <= arrived
    ensures IsSpectrum(Spectrum(w, window, x[from..arrived], advanced), w, window, x, arrived, from + advanced)
  {
    hide Transform, Windowed;
    WindowedInside(window, x, from, arrived, advanced);
  }

  lemma SpectraLater(spectra: seq<seq<Complex>>, w: Complex, window: seq<real>, x: seq<Complex>,
                     before: nat, arrived: nat, every: nat)
    requires AreSpectra(spectra, w, window, x, before, every) && before <= arrived <= |x|
    ensures AreSpectra(spectra, w, window, x, arrived, every)
  {
    hide Multiple, Spectrum;
  }

  /**
   Any schedule: spectrum k is the one of samples k * every to k * every + size - 1, and
   there are as many as the counts say.
   */
  method RunFft(x: seq<Complex>, window: seq<real>, every: nat, w: Complex, offers: seq<Offer>)
    returns (spectra: seq<seq<Complex>>)
    requires every > 0
    ensures AreSpectra(spectra, w, window, x, Arrived(offers, |x|), every)
    ensures NeverRoom(offers, |window| + 1) ==> spectra == []
    ensures |spectra| == CursorOf(offers, |x|, |window|, every).count
    ensures EndsWithRoom(offers, |window| + 1) ==> CountFits(|spectra|, Arrived(offers, |x|), |window|, every)
  {
    hide *;
    spectra := TransformAll(x, window, every, w, offers);
    RunCountFits(offers, |x|, |window|, every);
    NoRoomNoCount(offers, |x|, |window|, every);
  }

  method TransformAll(x: seq<Complex>, window: seq<real>, every: nat, w: Complex, offers: seq<Offer>)
    returns (spectra: seq<seq<Complex>>)
    requires every > 0
    ensures AreSpectra(spectra, w, window, x, Arrived(offers, |x|), every)
    ensures |spectra| == CursorOf(offers, |x|, |window|, every).count
  {
    hide Multiple, AreSpectra, Drained, CursorOf;
    var fft := new Fft(window, every, w);
    spectra := [];
    var pos, arrived := 0, 0;
    NoSpectra(w, window, x, every);
    assert CursorOf(offers[..0], |x|, |window|, every) == Cursor(0, 0) by { NoOffers(|x|, |window|, every); }
    for k := 0 to |offers|
      invariant fresh(fft) && fft.Valid() && fft.window == window && fft.everyNSamples == every && fft.w == w
      invariant fft.position == pos <= arrived == Arrived(offers[..k], |x|) && fft.emitted == |spectra|
      invariant Cursor(|spectra|, fft.skipped) == CursorOf(offers[..k], |x|, |window|, every)
      invariant AreSpectra(spectra, w, window, x, arrived, every)
    {
      ArrivedNext(offers, |x|, k);
      SpectraLater(spectra, w, window, x, arrived, Min(|x|, arrived + offers[k].arriving), every);
      arrived := Min(|x|, arrived + offers[k].arriving);
      NextOffer(offers, |x|, |window|, every, k);
      spectra, pos := Drain(fft, x, spectra, pos, arrived, offers[k].writeable);
    }
    assert offers[..|offers|] == offers;
  }

  /** Spectrum k is that of the samples from (k + 1) * every on. */
  lemma SpectraAre(spectra: seq<seq<Complex>>, w: Complex, window: seq<real>, x: seq<Complex>, arrived: nat,
                   every: nat, k: nat)
    requires AreSpectra(spectra, w, window, x, arrived, every) && k < |spectra|
    ensures 0 <= (k + 1) * every && (k + 1) * every + |window| <= arrived <= |x|
    ensures spectra[k] == Spectrum(w, window, x, (k + 1) * every)
  {
    hide Spectrum;
    ProductMonotone(0, k + 1, every);
    assert IsSpectrum(spectra[k], w, window, x, arrived, Multiple(k + 1, every));
  }

  lemma {:induction false} NoRoomNoCount(offers: seq<Offer>, total: nat, size: nat, every: nat)
    requires every > 0
    ensures NeverRoom(offers, size + 1) ==> CursorOf(offers, total, size, every) == Cursor(0, 0)
  {
    hide Multiple;
    if |offers| > 0 {
      NoRoomNoCount(offers[..|offers| - 1], total, size, every);
    }
  }

  lemma NoSpectra(w: Complex, window: seq<real>, x: seq<Complex>, every: nat)
    ensures AreSpectra([], w, window, x, 0, every)
  {}

  lemma NoOffers(total: nat, size: nat, every: nat)
    requires every > 0
    ensures CursorOf([], total, size, every) == Cursor(0, 0)
  {}

  lemma NextOffer(offers: seq<Offer>, total: nat, size: nat, every: nat, k: nat)
    requires every > 0 && k < |offers|
    ensures Arrived(offers[..k], total) <= Arrived(offers[..k + 1], total)
    ensures CursorOf(offers[..k + 1], total, size, every)
         == Drained(CursorOf(offers[..k], total, size, every), Arrived(offers[..k + 1], total),
                    offers[k].writeable, size, every)
  {
    hide Drained;
    assert offers[..k + 1][..k] == offers[..k];
  }

  /**
   The number of transforms that `arrived` samples allow: as many windows as are all there,
   or one less if the last of them ends with the last sample.
   */
  predicate CountFits(count: nat, arrived: nat, size: nat, every: nat) {
    var next := Multiple(count + 1, every) + size;
    && (count > 0 ==> Multiple(count, every) + size <= arrived)
    && (arrived < next || (arrived == next && every >= 2 && size >= 1))
  }

  /** What arrived fixes the number, unless it ends with the last sample of a window. */
  lemma CountFixed(m: nat, n: nat, arrived: nat, size: nat, every: nat)
    requires every > 0 && m <= n && CountFits(m, arrived, size, every) && CountFits(n, arrived, size, every)
    ensures m == n || (every >= 2 && size >= 1 && n == m + 1 && arrived == Multiple(n, every) + size)
  {
    hide Multiple;
    MultipleSteps(m + 1, every, n);
    MultipleSteps(m + 2, every, n);
  }

  /** A window that was transformed has arrived, and where windows cannot be missed the reader never waits. */
  predicate Sensible(c: Cursor, arrived: nat, size: nat, every: nat) {
    && c.Valid(every, arrived)
    && (c.count > 0 ==> Multiple(c.count, every) + size <= arrived)
    && (every == 1 || size == 0 ==> c.skipped < every)
  }

  lemma DrainedFits(c: Cursor, arrived: nat, writeable: nat, size: nat, every: nat)
    requires every > 0 && Sensible(c, arrived, size, every)
    ensures Sensible(Drained(c, arrived, writeable, size, every), arrived, size, every)
    ensures writeable > size ==> CountFits(Drained(c, arrived, writeable, size, every).count, arrived, size, every)
  {
    hide Multiple;
    DrainedValid(c, arrived, writeable, size, every);
    MultipleSteps(c.count, every, 0);
    if arrived >= Multiple(c.count + 1, every) + size {
      LastWindow(arrived, size, every);
      MultipleSteps((arrived - size) / every, every, 0);
    }
  }

  /** The number of transforms of a run does fit, given room in the end. */
  lemma {:induction false} RunCountFits(offers: seq<Offer>, total: nat, size: nat, every: nat)
    requires every > 0
    ensures Sensible(CursorOf(offers, total, size, every), Arrived(offers, total), size, every)
    ensures EndsWithRoom(offers, size + 1) ==>
              CountFits(CursorOf(offers, total, size, every).count, Arrived(offers, total), size, every)
  {
    hide Multiple, Drained, CountFits;
    if |offers| == 0 {
      NoCount(size, every);
    } else {
      var before, last := offers[..|offers| - 1], offers[|offers| - 1];
      RunCountFits(before, total, size, every);
      DrainedFits(CursorOf(before, total, size, every), Arrived(offers, total), last.writeable, size, every);
    }
  }

  lemma NoCount(size: nat, every: nat)
    requires every > 0
    ensures Multiple(0, every) == 0 && CountFits(0, 0, size, every)
  {}

  /**
   With the last sample of window m arrived and room for it, the transform is there exactly
   if the reader was not aligned with that window before the last offer.
   */
  lemma LastSampleExactly(offers: seq<Offer>, total: nat, size: nat, every: nat, m: nat)
    requires every > 0 && |offers| > 0 && EndsWithRoom(offers, size + 1)
    requires m > 0 && Arrived(offers, total) == Multiple(m, every) + size
    ensures CursorOf(offers, total, size, every).count == m
       <==> CursorOf(offers[..|offers| - 1], total, size, every) != Cursor(m - 1, every)
  {
    hide Multiple, Drained, CountFits;
    var c := CursorOf(offers[..|offers| - 1], total, size, every);
    RunCountFits(offers[..|offers| - 1], total, size, every);
    LastStep(c, offers[|offers| - 1].writeable, size, every, m);
  }

  lemma LastStep(c: Cursor, writeable: nat, size: nat, every: nat, m: nat)
    requires every > 0 && m > 0 && writeable > size && Sensible(c, Multiple(m, every) + size, size, every)
    ensures Drained(c, Multiple(m, every) + size, writeable, size, every).count == m <==> c != Cursor(m - 1, every)
  {
    hide Multiple;
    var arrived := Multiple(m, every) + size;
    MultipleSteps(m, every, c.count);
    MultipleSteps(m + 1, every, c.count);
    MultipleSteps(m - 1, every, c.count);
    MultipleSteps(c.count, every, 0);
    MultipleSteps(c.count + 1, every, m);
    if c.count < m - 1 {
      MultipleSteps(c.count + 1, every, m - 1);
      assert c.Position(every) <= Multiple(m - 1, every);
    } else if c.count > m {
      assert false;
    }
    OnlyLastWindow(arrived, size, every, m);
  }

  /** So the chunks matter: one window offered at once is transformed, with its last sample on its own it is not. */
  lemma ChunksMatter(size: nat, every: nat, room: nat)
    requires every >= 2 && size >= 1 && room > size
    ensures CursorOf([Offer(every + size, room)], every + size, size, every).count == 1
    ensures CursorOf([Offer(every + size - 1, room), Offer(1, room)], every + size, size, every).count == 0
  {
    hide Multiple;
    var total := every + size;
    MultipleSteps(0, every, 0);
    MultipleSteps(1, every, 0);
    var first := Offer(every + size - 1, room);
    assert [first, Offer(1, room)][..1] == [first] && [first][..0] == [];
    NoOffers(total, size, every);
    NothingArrived(total);
    assert CursorOf([first], total, size, every) == Cursor(0, every);
    LastSampleExactly([first, Offer(1, room)], total, size, every, 1);
    assert [Offer(total, room)][..0] == [];
    LastSampleExactly([Offer(total, room)], total, size, every, 1);
  }
}

/**
 src/lib/fftfilter.cpp: filtering by fast convolution with overlap and add. The
 block machine computes transforms, multiplies spectra, inverts and carries an
 overlap; the claim is that any number of blocks yields the direct convolution,
 also when the overlap is longer than a block and chains through several calls.
 */
module FftFilters {
  import opened Complexes
  import opened Fourier
  import opened Integers
  import opened Schedules

  // ----- direct convolution ------------------------------------------------------

  lemma {:induction false} SumSupport(n: int, m: int, f: int -> Complex)
    requires 0 <= n <= m
    requires forall i :: n <= i < m ==> f(i) == ZERO
    ensures Sum(m, f) == Sum(n, f)
    decreases m
  {
    hide Add;
    if n < m {
      SumSupport(n, m - 1, f);
      AddLaws(Sum(n, f), ZERO, ZERO);
    }
  }

  /** Convolution is additive over concatenation of the signal. */
  lemma ConvAppend(a: seq<Complex>, b: seq<Complex>, h: seq<Complex>, n: int)
    ensures Conv(a + b, h, n) == Add(Conv(a, h, n), Conv(b, h, n - |a|))
  {
    hide Mul, Add, Sum;
    forall k | 0 <= k < |h|
      ensures ConvTerm(a + b, h, n)(k) == Add(ConvTerm(a, h, n)(k), ConvTerm(b, h, n - |a|)(k))
    {
      assert n - k - |a| == n - |a| - k;
      var whole, left, right := At(a + b, n - k), At(a, n - k), At(b, n - |a| - k);
      AddLaws(whole, ZERO, ZERO);
      assert whole == Add(left, right);
      MulAdd(h[k], left, right);
    }
    SumOfSums(|h|, ConvTerm(a, h, n), ConvTerm(b, h, n - |a|), ConvTerm(a + b, h, n));
  }

  /** Outside the support of signal and taps the convolution vanishes. */
  lemma ConvOutside(x: seq<Complex>, h: seq<Complex>, n: int)
    requires n < 0 || n >= |x| + |h| - 1 || x == []
    ensures Conv(x, h, n) == ZERO
  {
    hide Mul, Sum;
    forall k | 0 <= k < |h| ensures ConvTerm(x, h, n)(k) == ZERO {
      MulUnits(h[k]);
    }
    SumOfZeros(|h|, ConvTerm(x, h, n));
  }

  /** A sample depends only on input up to its own position. */
  lemma ConvCausal(a: seq<Complex>, b: seq<Complex>, h: seq<Complex>, n: int)
    requires n < |a|
    ensures Conv(a + b, h, n) == Conv(a, h, n)
  {
    hide *;
    ConvAppend(a, b, h, n);
    ConvOutside(b, h, n - |a|);
    AddLaws(Conv(a, h, n), ZERO, ZERO);
  }

  /** Circular convolution of a padded block with padded taps does not wrap. */
  lemma PaddedCircularIsLinear(block: seq<Complex>, h: seq<Complex>, size: nat, n: int)
    requires 1 <= |h| && 1 <= |block| && size == |block| + |h| - 1 && 0 <= n < size
    ensures Circular(block + Zeros(size - |block|), h + Zeros(size - |h|), n) == Conv(block, h, n)
  {
    hide Mul, Add, Sum, Back;
    var x, p := block + Zeros(size - |block|), h + Zeros(size - |h|);
    var circular, linear := CircularTerm(x, p, n), ConvTerm(block, h, n);
    forall a | 0 <= a < size ensures circular(a) == if a <= n then linear(n - a) else ZERO {
      BackCases(a, n, size);
      MulComm(At(x, a), At(p, Back(n, a, size)));
      MulUnits(At(x, a));
      MulUnits(At(p, Back(n, a, size)));
      MulUnits(At(h, n - a));
    }
    SumSupport(n + 1, size, circular);
    SumReversed(n + 1, circular, linear);
    var top := if n + 1 < |h| then |h| else n + 1;
    forall k | 0 <= k < top && (k >= |h| || k > n) ensures linear(k) == ZERO {
      MulUnits(At(h, k));
      MulUnits(At(block, n - k));
    }
    SumSupport(n + 1, top, linear);
    SumSupport(|h|, top, linear);
  }

  /** Lines 90-108: transform, multiply, invert and divide convolve the block with the taps. */
  lemma FastBlock(w: Complex, v: Complex, block: seq<Complex>, h: seq<Complex>, size: nat, n: int)
    requires 1 <= |h| && 1 <= |block| && size == |block| + |h| - 1 && 0 <= n < size
    requires Roots(w, v, size)
    ensures var x, p := block + Zeros(size - |block|), h + Zeros(size - |h|);
            Mul(Real(1.0 / size as real), Dft(v, Product(Transform(w, x), Transform(w, p)), n)) == Conv(block, h, n)
  {
    hide *;
    var x, p := block + Zeros(size - |block|), h + Zeros(size - |h|);
    ConvolutionTheorem(w, v, x, p, n);
    PaddedCircularIsLinear(block, h, size, n);
  }

  /** Lines 110-114: adding the stored overlap turns block convolutions into the stream's. */
  lemma OverlapStep(consumed: seq<Complex>, block: seq<Complex>, h: seq<Complex>, overlap: seq<Complex>,
                    result: seq<Complex>)
    requires 1 <= |h| && |overlap| == |h| - 1 && |result| == |block| + |h| - 1
    requires forall j :: 0 <= j < |overlap| ==> overlap[j] == Conv(consumed, h, |consumed| + j)
    requires forall i :: 0 <= i < |result| ==> result[i] == Add(Conv(block, h, i), At(overlap, i))
    ensures forall i :: 0 <= i < |result| ==> result[i] == Conv(consumed + block, h, |consumed| + i)
  {
    hide Add, Conv;
    forall i | 0 <= i < |result| ensures result[i] == Conv(consumed + block, h, |consumed| + i) {
      var before := Conv(consumed, h, |consumed| + i);
      if i >= |overlap| {
        ConvOutside(consumed, h, |consumed| + i);
      }
      assert At(overlap, i) == before;
      ConvAppend(consumed, block, h, |consumed| + i);
      AddLaws(before, Conv(block, h, i), ZERO);
    }
  }

  // ----- the filter ----------------------------------------------------------------

  class FftFilter {
    const fftSize: nat
    const tapsLength: nat
    const inputSize: nat
    /** Frequency domain taps. */
    const taps: seq<Complex>
    /** Roots of the forward and inverse plans. */
    const w: Complex
    const v: Complex
    const forwardInput: array<Complex>
    const overlap: array<Complex>
    /** The impulse response whose transform `taps` is. */
    ghost const impulse: seq<Complex>
    /** Every input sample filtered so far. */
    ghost var consumed: seq<Complex>

    ghost predicate Valid()
      reads this, forwardInput, overlap
    {
      && 1 <= tapsLength == |impulse| <= fftSize
      && inputSize == fftSize - tapsLength + 1
      && Roots(w, v, fftSize)
      && taps == Transform(w, impulse + Zeros(fftSize - tapsLength))
      && forwardInput.Length == overlap.Length == fftSize
      && forwardInput != overlap
      && (forall i :: inputSize <= i < fftSize ==> forwardInput[i] == ZERO)
      && (forall j :: 0 <= j < tapsLength - 1 ==> overlap[j] == Conv(consumed, impulse, |consumed| + j))
    }

    constructor (fftSize: nat, impulse: seq<Complex>, w: Complex, v: Complex)
      requires 1 <= |impulse| <= fftSize && Roots(w, v, fftSize)
      ensures Valid() && fresh(forwardInput) && fresh(overlap)
      ensures this.fftSize == fftSize && this.impulse == impulse && consumed == []
    {
      this.fftSize := fftSize;
      this.tapsLength := |impulse|;
      this.inputSize := fftSize - |impulse| + 1;
      this.taps := Transform(w, impulse + Zeros(fftSize - |impulse|));
      this.w := w;
      this.v := v;
      this.forwardInput := new Complex[fftSize](_ => ZERO);
      this.overlap := new Complex[fftSize](_ => ZERO);
      this.impulse := impulse;
      this.consumed := [];
      new;
      forall j | 0 <= j < tapsLength - 1 ensures overlap[j] == Conv([], impulse, j) {
        ConvOutside([], impulse, j);
      }
    }

    /** Multiplies the filter and the input bin by bin. */
    method MultiplySpectra(forwardOutput: seq<Complex>) returns (product: seq<Complex>)
      requires |forwardOutput| == |taps| == fftSize
      ensures product == Product(forwardOutput, taps)
    {
      var inverseInput := new Complex[fftSize];
      for i := 0 to fftSize
        invariant forall k :: 0 <= k < i ==> inverseInput[k] == Mul(forwardOutput[k], taps[k])
      {
        inverseInput[i] := Mul(forwardOutput[i], taps[i]);
      }
      product := inverseInput[..];
    }

    /** Executes the inverse plan and divides by its length. */
    method ScaledInverse(spectrum: seq<Complex>) returns (result: array<Complex>)
      requires |spectrum| == fftSize > 0
      ensures fresh(result) && result.Length == fftSize
      ensures forall i :: 0 <= i < fftSize ==> result[i] == Mul(Real(1.0 / fftSize as real), Dft(v, spectrum, i))
    {
      var inverse := Transform(v, spectrum);
      result := new Complex[fftSize](i requires 0 <= i < fftSize => inverse[i]);
      for i := 0 to fftSize
        invariant forall k :: 0 <= k < i ==> result[k] == Mul(Real(1.0 / fftSize as real), inverse[k])
        invariant forall k :: i <= k < fftSize ==> result[k] == inverse[k]
      {
        result[i] := Mul(Real(1.0 / fftSize as real), result[i]);
      }
    }

    /** Adds the overlap of the previous blocks to the head of the result. */
    method AddOverlap(result: array<Complex>)
      requires Valid() && result.Length == fftSize && result != overlap && result != forwardInput
      modifies result
      ensures forall i :: 0 <= i < fftSize ==>
                result[i] == Add(old(result[i]), At(overlap[..tapsLength - 1], i))
    {
      for i := 0 to tapsLength - 1
        invariant forall k :: 0 <= k < i ==> result[k] == Add(old(result[k]), overlap[k])
        invariant forall k :: i <= k < fftSize ==> result[k] == old(result[k])
      {
        result[i] := Add(result[i], overlap[i]);
      }
      forall i | tapsLength - 1 <= i < fftSize ensures result[i] == Add(old(result[i]), ZERO) {
        AddLaws(old(result[i]), ZERO, ZERO);
      }
    }

    /** Lines 87-108: the block convolved with the taps, by way of the frequency domain. */
    method FastConvolution(input: seq<Complex>) returns (result: array<Complex>)
      requires Valid() && inputSize <= |input|
      modifies forwardInput
      ensures Valid() && fresh(result) && result.Length == fftSize
      ensures forall i :: 0 <= i < fftSize ==> result[i] == Conv(input[..inputSize], impulse, i)
    {
      hide Mul, Add, Sum, Conv, Dft, Roots, Transform, Product;
      ghost var block := input[..inputSize];
      forall i | 0 <= i < inputSize {
        forwardInput[i] := input[i];
      }
      assert forwardInput[..] == block + Zeros(fftSize - inputSize);
      var product := MultiplySpectra(Transform(w, forwardInput[..]));
      result := ScaledInverse(product);
      forall i | 0 <= i < fftSize ensures result[i] == Conv(block, impulse, i) {
        FastBlock(w, v, block, impulse, fftSize, i);
      }
    }

    /** Filters one block. The output is the stream's convolution at the block's positions. */
    method Apply(input: seq<Complex>, output: array<Complex>) returns (written: nat)
      requires Valid() && inputSize <= |input| && inputSize <= output.Length
      requires output != forwardInput && output != overlap
      modifies this, forwardInput, overlap, output
      ensures Valid() && written == inputSize
      ensures consumed == old(consumed) + input[..inputSize]
      ensures forall i :: 0 <= i < inputSize ==> output[i] == Conv(consumed, impulse, |old(consumed)| + i)
      ensures output[inputSize..] == old(output[inputSize..])
    {
      hide Mul, Add, Sum, Conv, Dft, Roots, Transform, Product;
      ghost var before := overlap[..tapsLength - 1];
      ghost var block := input[..inputSize];
      var result := FastConvolution(input);
      AddOverlap(result);
      OverlapStep(consumed, block, impulse, before, result[..]);
      forall i | 0 <= i < tapsLength - 1 {
        overlap[i] := result[inputSize + i];
      }
      forall i | 0 <= i < inputSize {
        output[i] := result[i];
      }
      consumed := consumed + block;
      written := inputSize;
    }

    /** The next block of a stream, of which everything before it has been filtered. */
    method ApplyAt(x: seq<Complex>, from: nat, output: array<Complex>) returns (block: seq<Complex>)
      requires Valid() && from + inputSize <= |x| && consumed == x[..from]
      requires inputSize <= output.Length && output != forwardInput && output != overlap
      modifies this, forwardInput, overlap, output
      ensures Valid() && consumed == x[..from + inputSize] && |block| == inputSize
      ensures forall i :: 0 <= i < |block| ==> block[i] == Conv(x, impulse, from + i)
    {
      hide Mul, Add, Sum, Conv, Dft, Roots, Transform, Product;
      var written := Apply(x[from..], output);
      assert consumed == x[..from + inputSize];
      block := output[..written];
      BlockOfStream(x, impulse, from, block);
    }
  }

  /** A block that is the convolution of the input so far is that of the whole input. */
  lemma BlockOfStream(x: seq<Complex>, h: seq<Complex>, from: nat, block: seq<Complex>)
    requires from + |block| <= |x|
    requires forall i :: 0 <= i < |block| ==> block[i] == Conv(x[..from + |block|], h, from + i)
    ensures forall i :: 0 <= i < |block| ==> block[i] == Conv(x, h, from + i)
  {
    hide Conv;
    var done := from + |block|;
    assert x[..done] + x[done..] == x;
    forall i | 0 <= i < |block| ensures block[i] == Conv(x, h, from + i) {
      ConvCausal(x[..done], x[done..], h, from + i);
    }
  }

  /**
   A whole run: m blocks handed to `Apply` one after the other return the first
   m * inputSize samples of the direct convolution of the input with the taps.
   */
  method FilterBlocks(fftSize: nat, impulse: seq<Complex>, w: Complex, v: Complex, x: seq<Complex>, m: nat)
    returns (out: seq<Complex>)
    requires 1 <= |impulse| <= fftSize && Roots(w, v, fftSize)
    requires Multiple(m, fftSize - |impulse| + 1) <= |x|
    ensures |out| == Multiple(m, fftSize - |impulse| + 1)
    ensures forall n :: 0 <= n < |out| ==> out[n] == Conv(x, impulse, n)
  {
    hide Mul, Add, Sum, Conv, Dft, Roots, Transform, Product, Multiple;
    var filter := new FftFilter(fftSize, impulse, w, v);
    var buffer := new Complex[fftSize];
    var size := filter.inputSize;
    out := [];
    MultipleSteps(0, size, m);
    for k := 0 to m
      invariant filter.Valid() && filter.fftSize == fftSize && filter.impulse == impulse && filter.inputSize == size
      invariant fresh(filter) && fresh(filter.forwardInput) && fresh(filter.overlap) && fresh(buffer)
      invariant buffer != filter.forwardInput && buffer != filter.overlap && buffer.Length == fftSize
      invariant |out| == Multiple(k, size) <= |x| && filter.consumed == x[..|out|]
      invariant forall n :: 0 <= n < |out| ==> out[n] == Conv(x, impulse, n)
    {
      MultipleSteps(k, size, m);
      MultipleSteps(k + 1, size, m);
      var block := filter.ApplyAt(x, |out|, buffer);
      out := out + block;
    }
  }

  /** FilterModule::canProcess: more than one block available, and room for more than one. */
  predicate FftCanProcess(available: nat, writeable: nat, inputSize: nat) {
    available > inputSize && writeable > inputSize
  }

  /** `while (canProcess()) process();` on the samples that have arrived. */
  method DrainFft(filter: FftFilter, buffer: array<Complex>, x: seq<Complex>, soFar: seq<Complex>, ghost count: nat,
                  arrived: nat, writeable: nat)
    returns (out: seq<Complex>, ghost blocks: nat)
    requires filter.Valid() && buffer.Length == filter.fftSize
    requires buffer != filter.forwardInput && buffer != filter.overlap
    requires |soFar| == Multiple(count, filter.inputSize) <= arrived <= |x| && (|soFar| > 0 ==> |soFar| < arrived)
    requires filter.consumed == x[..|soFar|]
    requires forall n :: 0 <= n < |soFar| ==> soFar[n] == Conv(x, filter.impulse, n)
    modifies filter, filter.forwardInput, filter.overlap, buffer
    ensures filter.Valid() && |out| <= |x| && filter.consumed == x[..|out|]
    ensures |out| == Multiple(blocks, filter.inputSize) <= arrived
    ensures writeable > filter.inputSize ==> arrived <= |out| + filter.inputSize
    ensures |out| > 0 ==> |out| < arrived
    ensures writeable <= filter.inputSize ==> out == soFar
    ensures forall n :: 0 <= n < |out| ==> out[n] == Conv(x, filter.impulse, n)
  {
    hide Mul, Add, Sum, Conv, Dft, Roots, Transform, Product, Multiple;
    out, blocks := soFar, count;
    while FftCanProcess(arrived - |out|, writeable, filter.inputSize)
      invariant filter.Valid() && |out| <= |x| && filter.consumed == x[..|out|]
      invariant |out| == Multiple(blocks, filter.inputSize) <= arrived && (|out| > 0 ==> |out| < arrived)
      invariant writeable <= filter.inputSize ==> out == soFar
      invariant forall n :: 0 <= n < |out| ==> out[n] == Conv(x, filter.impulse, n)
      decreases arrived - |out|
    {
      MultipleSteps(blocks, filter.inputSize, 0);
      var block := filter.ApplyAt(x, |out|, buffer);
      out, blocks := out + block, blocks + 1;
    }
  }

  /**
   The module under any schedule: the outputs are the direct convolution, block by block,
   for as long as more than one block of what has arrived is left.
   */
  method RunFftFilter(fftSize: nat, impulse: seq<Complex>, w: Complex, v: Complex, x: seq<Complex>,
                      offers: seq<Offer>)
    returns (out: seq<Complex>, ghost blocks: nat)
    requires 1 <= |impulse| <= fftSize && Roots(w, v, fftSize)
    ensures |out| == Multiple(blocks, fftSize - |impulse| + 1)
    ensures EndsWithRoom(offers, fftSize - |impulse| + 2) ==> Arrived(offers, |x|) <= |out| + fftSize - |impulse| + 1
    ensures |out| > 0 ==> |out| < Arrived(offers, |x|)
    ensures NeverRoom(offers, fftSize - |impulse| + 2) ==> out == []
    ensures forall n :: 0 <= n < |out| ==> out[n] == Conv(x, impulse, n)
  {
    hide Mul, Add, Sum, Conv, Dft, Roots, Transform, Product, Multiple;
    var filter := new FftFilter(fftSize, impulse, w, v);
    var buffer := new Complex[fftSize];
    var size := filter.inputSize;
    out, blocks := [], 0;
    var arrived := 0;
    MultipleSteps(0, size, 0);
    for k := 0 to |offers|
      invariant filter.Valid() && filter.fftSize == fftSize && filter.impulse == impulse && filter.inputSize == size
      invariant fresh(filter) && fresh(filter.forwardInput) && fresh(filter.overlap) && fresh(buffer)
      invariant buffer != filter.forwardInput && buffer != filter.overlap && buffer.Length == fftSize
      invariant arrived == Arrived(offers[..k], |x|)
      invariant EndsWithRoom(offers[..k], size + 1) ==> arrived <= |out| + size
      invariant |out| == Multiple(blocks, size) <= arrived && (|out| > 0 ==> |out| < arrived)
      invariant NeverRoom(offers[..k], size + 1) ==> out == []
      invariant filter.consumed == x[..|out|]
      invariant forall n :: 0 <= n < |out| ==> out[n] == Conv(x, impulse, n)
    {
      ArrivedNext(offers, |x|, k);
      arrived := Min(|x|, arrived + offers[k].arriving);
      out, blocks := DrainFft(filter, buffer, x, out, blocks, arrived, offers[k].writeable);
    }
    assert offers[..|offers|] == offers;
  }

  // ----- the size of the transform ----------------------------------------------------

  /** Doubles until the padding is large enough: the least power of two that leaves 200 outputs. */
  method GetFftSize(tapsLength: nat) returns (fftSize: nat)
    ensures exists k: nat :: fftSize == Pow2(k)
    ensures tapsLength + 200 <= fftSize
    ensures forall k: nat :: tapsLength + 200 <= Pow2(k) ==> fftSize <= Pow2(k)
  {
    fftSize := 1;
    ghost var k: nat := 0;
    while fftSize < tapsLength
      invariant fftSize == Pow2(k) && (k > 0 ==> Pow2(k - 1) < tapsLength)
      decreases tapsLength - fftSize
    {
      fftSize := fftSize * 2;
      k := k + 1;
    }
    while fftSize - tapsLength < 200
      invariant fftSize == Pow2(k) && (k > 0 ==> Pow2(k - 1) < tapsLength + 200)
      decreases tapsLength + 200 - fftSize
    {
      fftSize := fftSize * 2;
      k := k + 1;
    }
    forall j: nat | tapsLength + 200 <= Pow2(j) ensures fftSize <= Pow2(j) {
      if j < k {
        Pow2Monotone(j, k - 1);
      } else {
        Pow2Monotone(k, j);
      }
    }
  }

  /** The overlap may be several blocks long: 801 taps leave only 224 samples to a call. */
  lemma OverlapLongerThanBlock()
    ensures forall k: nat :: Pow2(k) >= 801 + 200 ==> Pow2(k) >= 1024
    ensures Pow2(10) == 1024 && 1024 - 801 + 1 == 224 < 801 - 1
  {
    assert Pow2(9) == 512 && Pow2(10) == 1024;
    forall k: nat | Pow2(k) >= 1001 ensures Pow2(k) >= 1024 {
      if k <= 9 {
        Pow2Monotone(k, 9);
      } else {
        Pow2Monotone(10, k);
      }
    }
  }
}

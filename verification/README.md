# csdr in Dafny

A model of the streaming kernels of csdr, with proofs that each block-by-block machine
computes what one pass over the whole stream would. Check it with
`dafny verify dfyconfig.toml`.

Samples are exact reals or pairs of reals, codes and positions are integers. A module's
`process` is a method whose `input` is exactly the readable window, so that an index past
`available` would not verify; `canProcess` is a predicate and a precondition where the
source relies on it. Methods that start with `Run` (and `FilterBlocks`, `ReceiveAll`,
`FftBandPass`, `DecimateIsSparseFilter`, `FastIsDirectTurned`, `DecodeTransmission`,
`Receive`) play a whole run. An `Offer` is one step of the environment: so many samples
arrive, so much room is in the writer, and the module is called while it can process
(src/apps/csdr/commands.cpp:88-123).

Runs are stated through functions such as `Fir`, `Decode` or `HistoryOf`. Lemmas whose names
end in `Law`, `Laws`, `Grows` or `Exactly` say what those functions are in terms that do not
use them: by one more tap or sample, by the bits of a code, by the samples of a stream.

| file | models | main result |
|---|---|---|
| Fourier.dfy, FftFilter.dfy | src/lib/fftfilter.cpp | overlap-add through transforms is direct convolution, also when the overlap is longer than a block |
| Fir.dfy, FirDecimate.dfy | src/lib/fir.cpp, filter.cpp, firdecimate.cpp | FFT and FIR band-pass agree up to one unit phasor; FIR in pieces is FIR of the stream |
| Polynomials.dfy, FractionalDecimator.dfy | src/lib/fractionaldecimator.cpp | output k is the stream at a position that depends on k alone; exact on polynomials |
| PrefilteredDecimator.dfy | src/lib/fractionaldecimator.cpp on fir.cpp | resampling through a prefilter is resampling the stream that the FIR filter makes |
| DecimatorOnRing.dfy | src/lib/fractionaldecimator.cpp on ringbuffer.cpp | the decimator reading from a ring that wraps, its step back included |
| RingBuffer.dfy, Source.dfy | src/lib/ringbuffer.cpp, source.cpp | every reader sees its part of one unbounded stream; bytes are reassembled to elements |
| Adpcm.dfy | src/lib/adpcm.cpp | error bound and recovery, lockstep, position and content of sync frames |
| TsmPool.dfy | src/apps/nmux/tsmpool.cpp | what a lapped reader is handed |
| Varicode.dfy, Rtty.dfy, Baudot.dfy | src/lib/varicode.cpp, rtty.cpp, baudot.cpp | round trips from text through bits or samples to text |
| Phasors.dfy, Shift.dfy | src/lib/shift.cpp | the fast shift is the direct one times one constant |
| Fft.dfy, TimingRecovery.dfy | src/lib/fft.cpp, timingrecovery.cpp | where transforms are taken and of what; where every symbol comes from |
| Complexes.dfy, Reals.dfy, Integers.dfy, Schedules.dfy | | laws and the environment the other files share |

What holds only under a condition:

- The forward FFTW plan may destroy its input while the zero padding is written only once
  (src/lib/fftfilter.cpp:40-42, 57-60). The model takes the transform to leave the padding
  intact.
- `FractionalDecimator` needs a positive rate and at least 4 points. With 2 or 3 the first
  output would read in front of the window; with 0 or 1 the source rounds to no points, reads
  nothing, and the sum that guards its loop (src/lib/fractionaldecimator.cpp:86) wraps around
  (`FirstIndex`). The outputs of every call fit the writer exactly if the rate is at least 1
  (`FitsExactly`); `OverrunBelowOne` is a call of the decimator, with or without prefilter,
  that writes too much for any rate below. The first call steps the reader back by one sample
  exactly if it produces one output. That step is an advance by 2^64 - 1, added modulo 2^64:
  it reaches the cell before for every nonzero position, and from position 0 exactly if the
  size of the ring divides 2^64 (`StepBack`). `RunOnRing` is the run with that reader: it
  is lost exactly then, and otherwise no output depends on what was in the ring.
- An RTTY transmission comes back whole exactly if it is empty or at least two marks follow
  it (`RoundTripExactly`); otherwise exactly the last code is missing (`LastFrameStarves`).
- A ring of one element never receives from a source (`EverythingReceived`).
- Whole runs state the values of all outputs for every schedule. How many there are is exact
  when the last offer leaves room in the writer (`EndsWithRoom`, `EndsRoomy`); without room
  the modules wait.
- `writeable` ignores the readers (src/lib/ringbuffer.cpp:97-99), so a reader's view is exact
  while its lag plus the cells the writer has touched fit the buffer. `Seen` states what is
  left otherwise.
- A tsmpool reader needs a first `get_write_buffer` before it registers, as nmux makes it.
  Without it, the first buffer a reader is handed is an unwritten one exactly if the writer
  took fewer than `num` buffers since; with it, never (`FirstHandOut`). A reader that lags
  by a whole number of rounds is told that there is nothing to read. A reader gets every
  block exactly if each of its hand-outs comes while it lags by less than `num`
  (`NoLossExactly`).
- The offset reset of the timing recovery compares with a negated unsigned number
  (src/lib/timingrecovery.cpp:58); the literal code resets it on every call, and the model
  keeps that. The comparison with the intended window is `IntendedWindowInRange`.
- Every step of the timing recovery stays within half a symbol of the symbol length exactly
  if half a symbol times abs(max_error * loop_gain) is less than one sample more than half a
  symbol, or if the early-late detector has a symbol length of 2 or 3 and max_error is not
  negative (`StepsBoundedExactly`): its outer samples are then the same one, and there is no
  error to see. Otherwise `LargestError` gives the samples at which a step leaves the bounds.
- `Fft` depends on the chunks for a window that ends with the last sample: `RunFft` has the
  number of transforms for every schedule, `CountFixed` says that only such a window is left
  open by the number of samples, `LastSampleExactly` when it is transformed, and
  `ChunksMatter` gives two schedules that differ.
- The operands of `|` in the ADPCM encoder are taken from left to right, and a 16-bit word
  in a frame as little-endian.
- The trigonometric functions are a parameter `cis` with the laws of `IsCis`.

## Model

| member | source | states |
|---|---|---|
| Complexes.ByParts | include/complex.hpp:27-37 | the operations on samples by real and imaginary part |
| Fourier.DftGrows | src/lib/fftfilter.cpp:89-91 | one more sample adds itself, turned by its index times the bin, to a bin |
| Fourier.ConvGrows | src/lib/fftfilter.cpp:110-114 | one more tap adds the sample that far back |
| Fourier.Orthogonality | src/lib/fftfilter.cpp:100-108 | powers of a primitive root cancel over a full turn, except for bin 0 |
| Fourier.Inversion | src/lib/fftfilter.cpp:100-108 | the inverse plan after the forward plan multiplies by the length, which is why the result is divided by it |
| Fourier.ConvolutionTheorem | src/lib/fftfilter.cpp:89-108 | transform, multiply bin by bin, invert and divide is circular convolution of length fftSize |
| Phasors.PlanRoots | src/lib/fftfilter.cpp:50-53 | one n-th of a turn backward and forward are the primitive roots the transforms need |
| FftFilters.ConvAppend | src/lib/fftfilter.cpp:110-114 | convolution is additive over the blocks of a stream |
| FftFilters.ConvOutside | src/lib/fftfilter.cpp:110-114 | past signal and taps the convolution is zero, so an overlap of taps_length - 1 samples is enough |
| FftFilters.PaddedCircularIsLinear | src/lib/fftfilter.cpp:56-67 | with inputSize = fftSize - taps_length + 1 the circular convolution of the padded block does not wrap |
| FftFilters.FastBlock | src/lib/fftfilter.cpp:89-108 | the spectral path convolves one block with the taps |
| FftFilters.OverlapStep | src/lib/fftfilter.cpp:110-114 | adding the stored overlap makes every sample of the result, output and new overlap, one of the stream's convolution, for any overlap length |
| FftFilters.FftFilter.constructor | src/lib/fftfilter.cpp:46-68 | a new filter has zero padding and the overlap of an empty stream |
| FftFilters.FftFilter.FastConvolution | src/lib/fftfilter.cpp:86-108 | lines 87 to 108 give the convolution of the block with the impulse response |
| FftFilters.FftFilter.AddOverlap | src/lib/fftfilter.cpp:110-112 | the overlap is added to the first taps_length - 1 samples only |
| FftFilters.FftFilter.Apply | src/lib/fftfilter.cpp:83-120 | one call returns inputSize samples of the convolution of everything filtered so far, and keeps the overlap for the rest |
| FftFilters.FilterBlocks | src/lib/fftfilter.cpp:83-120 | m blocks return exactly the first m * inputSize samples of the direct convolution |
| FftFilters.RunFftFilter | src/lib/filter.cpp:65-88 | under any schedule the filter module returns the direct convolution, given room until at most one block is left |
| FftFilters.GetFftSize | src/lib/fftfilter.cpp:130-136 | terminates with the least power of two that is at least taps_length + 200 |
| FftFilters.OverlapLongerThanBlock | src/lib/fftfilter.cpp:130-145 | 801 taps get a transform of 1024 and blocks of 224, shorter than the overlap |
| FirFilters.FirGrows | src/lib/fir.cpp:67-73 | one more tap adds the sample that far on |
| FirFilters.ProcessSample | src/lib/fir.cpp:67-73 | the accumulator loop is the sum of taps over the samples from index on |
| FirFilters.TapsFor | src/lib/fir.cpp:76-80 | the number of taps is odd, and 4 / transition without its fraction or one more |
| FirFilters.FilterLength | src/lib/fir.cpp:76-80 | computes that number |
| FirFilters.TotalGrows | src/lib/fir.cpp:127-132 | the total is the sum of the taps |
| FirFilters.Normalize | src/lib/fir.cpp:127-132 | divides in place so that the taps sum to one |
| FirFilters.GenerateLowPass | src/lib/fir.cpp:147-162 | symmetric taps with sum one; times one total, the middle one is tau * cutoff * kernel(0), and the one i further sin(tau * cutoff * i) / i * kernel(i / middle) |
| FirFilters.GenerateBandPass | src/lib/fir.cpp:181-205 | tap i is the low-pass tap times (sin, cos) of i times the center angle, phase wrapping included |
| FirFilters.GenerateFftTaps | src/lib/fir.cpp:97-111 | the spectrum of the taps with swapped components, padded with zeros |
| FirFilters.BandPassesAgree | src/lib/fir.cpp:67-111 | convolution with the swapped taps is the correlation with the taps, taps_length - 1 samples later and times -j w^(taps_length - 1), which has magnitude one |
| FirFilters.FftBandPass | src/lib/fftfilter.cpp:83-120 | the FFT band-pass with given low-pass taps equals the FIR band-pass up to that delay and phasor, under any schedule |
| FirFilters.RunFftBandPass | src/lib/fftfilter.cpp:138-146 | FftBandPassFilter from its parameters on, under any schedule: the low-pass for (highcut - lowcut) / 2, turned by (highcut + lowcut) / 2, is applied as a FIR filter, taps_length - 1 samples late and times -j and the phasor of as many center angles |
| FirFilters.FirWindow | src/lib/filter.cpp:31-47 | filtering at an index of a window is filtering at the stream position |
| FirModules.DecimateProcess | src/lib/firdecimate.cpp:37-64 | no tap past the window, and as many outputs as the writer takes and as leave at least taps_length samples in the window; at least one if canProcess |
| FirModules.RunDecimate | src/lib/firdecimate.cpp:37-64 | under any schedule the outputs are y[n] = FIR at n * decimation, given room as many as the arrived samples allow |
| FirModules.CountExactly | src/lib/firdecimate.cpp:37-64 | the number of outputs is the one for which the taps fit and one more step does not |
| FirModules.FilterProcess | src/lib/filter.cpp:65-88 | as many outputs as the writer takes and as leave taps_length samples in the window, at least one if canProcess |
| FirModules.RunFilter | src/lib/filter.cpp:65-88 | under any schedule the outputs are the FIR of the whole stream |
| FirModules.DecimateIsSparseFilter | src/lib/firdecimate.cpp:49-56 | whatever the two schedules, both streams are FIR values of the input, and the decimated one is every decimation-th sample of the filtered one |
| Polynomials.EvalGrows | src/lib/fractionaldecimator.cpp:86-111 | what the polynomials of the exactness results are, coefficient by coefficient |
| Polynomials.EvalDivLinear | src/lib/fractionaldecimator.cpp:86-111 | the remainder theorem, on which uniqueness of interpolation rests |
| Polynomials.TooManyRoots | src/lib/fractionaldecimator.cpp:86-111 | a polynomial with no more coefficients than roots vanishes |
| Polynomials.DenominatorNonzero | src/lib/fractionaldecimator.cpp:46-54 | no precalculated denominator is zero |
| Polynomials.InterpolateAtNode | src/lib/fractionaldecimator.cpp:91-108 | at a node the interpolation returns that sample |
| Polynomials.LagrangeExact | src/lib/fractionaldecimator.cpp:86-111 | interpolating n samples of a polynomial of degree below n returns the polynomial |
| Polynomials.WeightsSumToOne | src/lib/fractionaldecimator.cpp:91-108 | the coefficients over their denominators sum to one |
| FractionalDecimators.FractionalDecimator.constructor | src/lib/fractionaldecimator.cpp:37-57 | for any number of points, rounded down to even: denominators of the Lagrange basis, first position N / 2 - 1 |
| FractionalDecimators.FractionalDecimator.ComputeCoefficients | src/lib/fractionaldecimator.cpp:89-97 | the nested loops compute the products of differences |
| FractionalDecimators.FractionalDecimator.Accumulate | src/lib/fractionaldecimator.cpp:98-108 | the weighted sum over the neighbours, prefiltered if there is a filter, all inside the window |
| FractionalDecimators.FractionalDecimator.Next | src/lib/fractionaldecimator.cpp:86-108 | one output is the stream resampled at reader position + where |
| FractionalDecimators.Stencil | src/lib/fractionaldecimator.cpp:86-108 | an output between index and index + 1 is made of the samples index to index + N - 1, interpolated over the nodes 1 - N / 2 to N / 2 |
| FractionalDecimators.FirstIndex | src/lib/fractionaldecimator.cpp:86-87 | the first index read is inside the window exactly for 4 points and more, -1 for 2, and for none the guard wraps |
| FractionalDecimators.FractionalDecimator.Process | src/lib/fractionaldecimator.cpp:66-118 | outputs at positions that depend on the output count alone, as many as `CallOutputs`; consumption -1 exactly for a first call with one output; from rate 1 on at most writeable outputs, and positive consumption after the first call |
| FractionalDecimators.RunDecimator | src/lib/fractionaldecimator.cpp:66-118 | under any schedule output k is the stream resampled at N / 2 - 1 + k * rate, only for k the arrived samples reach, and for all of them given room |
| FractionalDecimators.ReachableExactly | src/lib/fractionaldecimator.cpp:81-86 | output k needs N / 2 - 1 + k * rate + N samples, the taps, and one more |
| PrefilteredDecimators.DotIsFir | src/lib/fractionaldecimator.cpp:98-103 | the prefilter of the decimator is the FIR filter with its taps |
| PrefilteredDecimators.PrefilterFirst | src/lib/fractionaldecimator.cpp:98-103 | an output through a prefilter is the output without it over the filtered stream |
| PrefilteredDecimators.RunPrefiltered | src/lib/fractionaldecimator.cpp:66-118 | under any schedule a run with a prefilter resamples the stream that the FIR filter makes, as far as the taps fit |
| FractionalDecimators.StaleUnread | src/lib/fractionaldecimator.cpp:86-118 | no output depends on the sample in front of the stream that a step back makes available |
| DecimatorsOnRing.Step | src/lib/fractionaldecimator.cpp:76-118 | a call on a ring reader keeps stream, reader and decimator in step unless it steps back from cell 0 of a ring whose size does not divide 2^64 |
| DecimatorsOnRing.RunOnRing | src/lib/fractionaldecimator.cpp:66-118 | on a ring that holds the chunks the reader is lost exactly if it starts at cell 0, the first call has one output, and the size does not divide 2^64; otherwise the outputs are all those of the stream |
| FractionalDecimators.WideRoom | src/lib/fractionaldecimator.cpp:81 | for every rate below 1 there is a room that dividing by the rate overestimates by any margin |
| FractionalDecimators.CallRunsOut | src/lib/fractionaldecimator.cpp:86-111 | a call ends at the first position the usable samples do not reach |
| FractionalDecimators.CallReaches | src/lib/fractionaldecimator.cpp:86-111 | and makes every output before it |
| FractionalDecimators.UsableExactly | src/lib/fractionaldecimator.cpp:81 | a sample counts as usable exactly if it is available and lies below writeable / rate |
| FractionalDecimators.FitsExactly | src/lib/fractionaldecimator.cpp:81-86 | every call, from any position the decimator can have, writes at most writeable outputs if and only if the rate is at least 1 |
| FractionalDecimators.OverrunBelowOne | src/lib/fractionaldecimator.cpp:66-118 | with such a room the first call, with or without prefilter, writes more than writeable |
| FractionalDecimators.ResamplePolynomial | src/lib/fractionaldecimator.cpp:86-111 | resampling a polynomial returns its value N / 2 - 1 samples after the position |
| FractionalDecimators.RunOnPolynomial | src/lib/fractionaldecimator.cpp:66-118 | without prefilter a run over p(0), p(1), ... returns p(N - 2 + k * rate) |
| RingBuffers.AvailableIsLag | src/lib/ringbuffer.cpp:122-125 | the position arithmetic is the lag modulo the size |
| RingBuffers.AdvancedExactly | src/lib/ringbuffer.cpp:111-114 | the wrapped sum moves a position by the signed argument if and only if that stays at or above 0 or the size divides 2^64 |
| RingBuffers.StepBack | src/lib/ringbuffer.cpp:111-114 | advancing by -1 steps back exactly if the position is not 0 or the size divides 2^64 |
| RingBuffers.StoreKeepsMirror | src/lib/ringbuffer.cpp:101-109 | a store ahead of the write position spares the elements that fit beside it |
| RingBuffers.CommitKeepsMirror | src/lib/ringbuffer.cpp:111-120 | advancing makes the cells part of the stream |
| RingBuffers.SliceIsStream | src/lib/ringbuffer.cpp:181-195 | the mirrored slice at a read pointer is the reader's part of the stream |
| RingBuffers.Ringbuffer.Store | src/lib/ringbuffer.cpp:101-109 | a store through the write pointer changes one cell and keeps the newest elements |
| RingBuffers.Ringbuffer.Advance | src/lib/ringbuffer.cpp:111-120 | the stream grows by the next n cells |
| RingBuffers.Ringbuffer.Put | src/lib/ringbuffer.cpp:106-120 | a block written through the write pointer extends the stream by the part that is committed |
| RingBuffers.RingbufferReader.constructor | src/lib/ringbuffer.cpp:167-172 | a new reader starts at the end of the stream and is entered in the buffer |
| RingBuffers.RingbufferReader.Available | src/lib/ringbuffer.cpp:181-187 | the exact lag below the size, otherwise the lag modulo the size |
| RingBuffers.RingbufferReader.Slice | src/lib/ringbuffer.cpp:189-195 | what is available reads as the untaken part of the stream unless the writer is too close |
| RingBuffers.RingbufferReader.Advance | src/lib/ringbuffer.cpp:197-203 | the reader's position in the stream moves by the signed value of any unsigned argument, forward or back, and is still that of its cell exactly under the condition of `AdvancedExactly` |
| RingBuffers.RunRing | src/lib/ringbuffer.cpp:96-203 | in every run with any number of readers, stepping forward or back, each sees exactly its own part of the unbounded stream while not overtaken, and the lag modulo the size after a lap |
| ByteSources.ByteAddress | src/lib/source.cpp:95-101 | write position times width plus offset is the byte count modulo the ring |
| ByteSources.ElementRing.Receive | src/lib/source.cpp:95-101 | commits the finished elements and keeps the partial one in place, across the wrap too |
| ByteSources.ElementRing.Element | src/lib/source.cpp:95-101 | a committed element reads as its bytes of the stream |
| ByteSources.ReceiveAll | src/lib/source.cpp:88-103 | for any read sizes the bytes received are each read clipped by the room and by what is left, exactly floor(total / width) elements are committed, and they are those of the byte stream |
| ByteSources.ElementIs | src/lib/source.cpp:95-101 | element k is the bytes k * width to k * width + width of the stream |
| ByteSources.ReceivedGrows | src/lib/source.cpp:95-101 | one read receives at most min(size - 1, 1024) elements without the bytes of the unfinished one |
| ByteSources.EverythingReceived | src/lib/source.cpp:95-101 | with enough reads of any positive sizes the whole byte stream is received, exactly if the ring has at least two elements |
| Adpcm.StepGrowth | include/adpcm.hpp:104-114 | each step is a tenth more than the one before, up to 8 tenths of rounding, from 7 to 32767 |
| Adpcm.StepSums | include/adpcm.hpp:104-114 | what every ten steps add up to |
| Adpcm.DecodeLaw | src/lib/adpcm.cpp:127-162 | sign and bits of a code as step, step / 2, step / 4 on top of step / 8, clamped to int16; the index one down for magnitudes up to 3, else 2, 4, 6 or 8 up, within 0..88 |
| Adpcm.QuantizeExactly | src/lib/adpcm.cpp:95-120 | the magnitude is the largest one whose bits fit the distance |
| Adpcm.EncodeLaw | src/lib/adpcm.cpp:95-125 | sign by the side of the predictor, magnitude by the distance, and the state of a decoder after that code |
| Adpcm.IndexLaw | src/lib/adpcm.cpp:95-162 | less than a step away lowers the index by one, further away raises it by 2, 4, 6 or 8 according to what is left |
| Adpcm.QuietLowersIndex | src/lib/adpcm.cpp:95-162 | while samples are less than a step away the index comes down by one each; 88 of them end at the smallest step |
| Adpcm.AdpcmCodec.DecodeSample | src/lib/adpcm.cpp:127-162 | the state after a code, clamped to int16 and to index 0..88 |
| Adpcm.AdpcmCodec.EncodeSample | src/lib/adpcm.cpp:95-125 | the code by successive subtraction, and the state a decoder has after that code |
| Adpcm.QuantizeBound | src/lib/adpcm.cpp:106-144 | below two steps the code stands for the difference up to step / 8 + 2; above it is 7 and falls short |
| Adpcm.SampleBound | src/lib/adpcm.cpp:95-162 | the predictor comes within step / 8 + 2 of a sample less than two steps away, clamping included; otherwise strictly closer on the same side, with the index 8 higher |
| Adpcm.UntrackedRaisesIndex | src/lib/adpcm.cpp:156-159 | while no sample is tracked the step index rises by 8 each |
| Adpcm.Recovery | src/lib/adpcm.cpp:95-162 | any 12 consecutive samples from any state contain one with an error of at most step / 8 + 4 |
| Adpcm.CounterStep | src/lib/adpcm.cpp:207-214 | the sync counter runs out exactly before code bytes 0, 1001, 2002, ... |
| Adpcm.FrameBytes | src/lib/adpcm.cpp:208-211 | the bytes of a frame: SYNC, then index and predictor in two's complement with the low byte first |
| Adpcm.NibbleOrder | src/lib/adpcm.cpp:215-217 | the code of the first sample is in the low half of a byte |
| Adpcm.AdpcmEncoder.WriteFrame | src/lib/adpcm.cpp:208-211 | the eight bytes of a frame at the given place, nothing before it changed |
| Adpcm.AdpcmEncoder.EncodeAt | src/lib/adpcm.cpp:206-218 | frame at output + i and code byte behind it extend the bytes written so far without a gap |
| Adpcm.AdpcmEncoder.Process | src/lib/adpcm.cpp:199-221 | a call extends the byte stream of all samples so far by a byte for each two samples and at most one frame, inside writeable |
| Adpcm.SyncedLayout | src/lib/adpcm.cpp:206-218 | frames precede code bytes 0, 1001, 2002, ... and hold the encoder's state there; every code byte is at its offset |
| Adpcm.FrameRoundTrip | src/lib/adpcm.cpp:208-211 | index and predictor can be read back from a frame, negative values included |
| Adpcm.HalvesInOrder | src/lib/adpcm.cpp:234-235 | the low half of a byte is decoded first |
| Adpcm.PairLockstep | src/lib/adpcm.cpp:215-217 | decoding a packed byte passes through the encoder's two states |
| Adpcm.Lockstep | src/lib/adpcm.cpp:199-239 | a decoder with the encoder's state emits its predictors and has its state after every byte |
| Adpcm.JoinAtFrame | src/lib/adpcm.cpp:206-239 | a decoder loaded from any frame is in lockstep with the code bytes that follow |
| Adpcm.AdpcmDecoder.Process | src/lib/adpcm.cpp:228-239 | a call decodes as many bytes as available and room allow, continuing the run |
| Adpcm.RunEncoder | src/lib/adpcm.cpp:194-221 | under any schedule the same bytes are written, with or without sync |
| Adpcm.RunDecoder | src/lib/adpcm.cpp:223-239 | under any schedule the same samples are decoded |
| Adpcm.RunBoth | src/lib/adpcm.cpp:194-239 | encoder and decoder under independent schedules: the samples decoded are the encoder's predictors |
| TsmPools.SlotSteps | src/apps/nmux/tsmpool.h:41-42 | index_next and index_before count blocks up and down modulo num |
| TsmPools.NewestAfterTake | src/apps/nmux/tsmpool.cpp:23-32 | taking a buffer replaces the newest block of one slot only |
| TsmPools.TsmPool.constructor | src/apps/nmux/tsmpool.cpp:3-19 | an empty pool, before any block |
| TsmPools.TsmPool.GetWriteBuffer | src/apps/nmux/tsmpool.cpp:23-32 | hands out the next slot and numbers its block |
| TsmPools.TsmPool.RegisterThread | src/apps/nmux/tsmpool.cpp:34-43 | a new reader waits for the block being filled |
| TsmPools.TsmPool.RemoveThread | src/apps/nmux/tsmpool.cpp:45-56 | removes the first entry of a thread and no other |
| TsmPools.TsmPool.GetReadBuffer | src/apps/nmux/tsmpool.cpp:58-74 | never the block being filled; the next block or, after laps, whole rounds later; nothing exactly if the lag is a whole number of rounds |
| TsmPools.AnswerExactly | src/apps/nmux/tsmpool.cpp:58-74 | a reader is handed the block it waits for exactly if it lags by less than num, nothing exactly if the lag is a whole number of rounds, and otherwise a block whole rounds later |
| TsmPools.DeliveryGrows | src/apps/nmux/tsmpool.cpp:58-74 | one more block of that kind keeps a delivery increasing and in step modulo num |
| TsmPools.EveryDelivery | src/apps/nmux/tsmpool.cpp:3-74 | in every history each reader gets strictly increasing finished blocks from its registration on, successive ones one apart modulo num |
| TsmPools.NoLossExactly | src/apps/nmux/tsmpool.cpp:58-74 | a reader gets start, start + 1, ... without a gap if and only if each hand-out came while it lagged by less than num |
| TsmPools.EventLaws | src/apps/nmux/tsmpool.cpp:3-74 | what each event does to the counts of a history |
| TsmPools.RemovedIsSilent | src/apps/nmux/tsmpool.cpp:45-56 | a reader that has left is never handed anything again |
| TsmPools.RunPool | src/apps/nmux/tsmpool.cpp:3-74 | for every sequence of events, slots and indices hand every reader exactly the blocks of that history, and nothing exactly where it says so |
| TsmPools.FirstHandOut | src/apps/nmux/nmux.cpp:165-165 | for any numbers of buffers taken before registration and until the first read: what is handed out, and that it is an unwritten buffer exactly if none was taken before and fewer than num since |
| Varicode.TableSound | include/varicode.hpp:50-179 | every code is as wide as its bitcount, begins and ends with a one, holds no two zeros in a row, and belongs to one character |
| Varicode.Landmarks | include/varicode.hpp:50-179 | the codes of the space, e, t, a and E |
| Varicode.MatchExactly | src/lib/varicode.cpp:52-54 | a match is two zeros, the code, two zeros |
| Varicode.EmittedExactly | src/lib/varicode.cpp:43-59 | a character is written exactly if its entry matches, and alone |
| Varicode.MatchesAgree | src/lib/varicode.cpp:52-54 | two well-formed entries that match the same register are the same |
| Varicode.AtMostOneMatch | src/lib/varicode.cpp:52-58 | at most one table entry matches after any bit of any stream |
| Varicode.MatchEnds | src/lib/varicode.cpp:50-54 | a match ends in exactly two zeros, so the early return for twelve zeros loses nothing |
| Varicode.WordIsEnough | src/lib/varicode.cpp:48-54 | 64 bits of history decide every match |
| Varicode.VaricodeDecoder.Process | src/lib/varicode.cpp:43-59 | a call shifts one bit in and writes what the whole history matches |
| Varicode.CharacterSent | src/lib/varicode.cpp:43-59 | after two zeros, a code and one zero write nothing and the second zero writes the character |
| Varicode.IdleSilent | src/lib/varicode.cpp:43-59 | further zeros write nothing |
| Varicode.TransmissionGrows | src/lib/varicode.cpp:43-59 | a character is sent as the bits of its code from the highest on, and at least two zeros |
| Varicode.TextRoundTrip | src/lib/varicode.cpp:43-59 | text sent as codes with two or more zeros after each comes out unchanged |
| Varicode.DecodeTransmission | src/lib/varicode.cpp:43-59 | the decoder, bit by bit, returns the text |
| Rtty.DecodedAppend | src/lib/rtty.cpp:33-53 | later samples only continue where the decoder stopped |
| Rtty.RttyDecoder.Process | src/lib/rtty.cpp:38-57 | a frame is consumed exactly if sample 0 is a space and sample 6 a mark in the polarity, otherwise one sample, and decoding goes on with the rest |
| Rtty.RttyDecoder.ReadWord | src/lib/rtty.cpp:42-46 | the five bits with the first as the lowest, below 32 |
| Rtty.WordOfSamples | src/lib/rtty.cpp:42-57 | the code from five samples and the polarity: positive is a mark unless inverted |
| Rtty.RunRtty | src/lib/rtty.cpp:33-57 | any schedule decodes what one pass over the arrived samples does, for either polarity |
| Rtty.CodesRoundTrip | src/lib/rtty.cpp:33-57 | framed codes with any idling decode to themselves, given two trailing marks |
| Rtty.LastFrameStarves | src/lib/rtty.cpp:33-36 | with fewer than two trailing marks exactly the last code of a transmission is missing |
| Rtty.RoundTripExactly | src/lib/rtty.cpp:33-57 | a transmission decodes to its codes if and only if it is empty or ends in at least two marks |
| Rtty.TransmissionGrows | src/lib/rtty.cpp:38-46 | a code is sent as idling marks, a space, its bits from the lowest on, and a mark |
| Rtty.ReceiveCodes | src/lib/rtty.cpp:33-57 | samples that are positive for marks, or for spaces if inverted, come back as the codes under any schedule |
| Baudot.AlphabetsSound | include/baudot.hpp:26-41 | the codes of letters, digits and signs, and 27 and 31 for the shifts |
| Baudot.CodeStep | src/lib/baudot.cpp:29-48 | one more code is 27 or 31 and switches, or writes the character of the alphabet that is on |
| Baudot.BaudotDecoder.Process | src/lib/baudot.cpp:29-48 | a call continues the text of all codes so far, in the alphabet switched on |
| Baudot.TextAppend | src/lib/baudot.cpp:29-48 | cutting the codes anywhere and carrying the mode over gives the same text |
| Baudot.SendableExactly | include/baudot.hpp:26-41 | what can be sent is what has a code in either alphabet, and the null character |
| Baudot.TextRoundTrip | src/lib/baudot.cpp:29-48 | shift-encoded text comes back unchanged, from either mode |
| Baudot.Receive | src/lib/baudot.cpp:29-48 | samples through both decoders, either polarity and any chunking, return the text that was sent |
| Phasors.WrapPhase | src/lib/shift.cpp:90-92 | the wrap loops terminate within one turn and keep the phasor |
| Phasors.CisMultiple | src/lib/shift.cpp:49-56 | n steps of an angle are the n-th power of its phasor |
| Shifts.ShiftAddfast.constructor | src/lib/shift.cpp:45-56 | the four precomputed rotations are w to w^4 |
| Shifts.ShiftAddfast.FourLanes | src/lib/shift.cpp:78-89 | four samples from one phasor, and the phasor to go on with |
| Shifts.ShiftAddfast.Process | src/lib/shift.cpp:69-93 | sample n of all calls together is turned by w^(n + 1) |
| Shifts.ShiftMath.Process | src/lib/shift.cpp:109-123 | sample n of all calls together is turned by w^n |
| Shifts.FastIsDirectTurned | src/lib/shift.cpp:69-123 | cut up in any two ways, fast and direct shift turn sample n by w^(n + 1) and w^n, so that one is the other times w |
| FftWindows.SpectrumGrows | src/lib/fft.cpp:61-67 | each sample times its coefficient, turned by its index times the bin, is added to the bin |
| FftWindows.Fft.ApplyWindow | src/lib/window.cpp:75-80 | both components of every sample are multiplied by its coefficient |
| FftWindows.Fft.Process | src/lib/fft.cpp:45-76 | the DFT of the windowed samples from the next multiple of everyNSamples on, exactly if they are all available; otherwise the reader goes as far towards them as it can; reader position is emitted * N + skipped |
| FftWindows.Drain | src/lib/fft.cpp:40-76 | one offer leads to the last window that is all there, and aligns the reader as far as more than a window is left |
| FftWindows.RunFft | src/lib/fft.cpp:40-76 | under any schedule spectrum k is the DFT of the windowed samples k * N to k * N + fftSize - 1, and there are exactly as many as the counts of the schedule say |
| FftWindows.SpectraAre | src/lib/fft.cpp:45-76 | spectrum k is that of the samples from (k + 1) * N on, all of which have arrived |
| FftWindows.RunCountFits | src/lib/fft.cpp:40-76 | given room in the end there are as many transforms as windows have arrived, or one less if the last of them ends with the last sample and everyNSamples is at least 2 |
| FftWindows.CountFixed | src/lib/fft.cpp:40-76 | two such numbers are the same unless a window ends with the last sample |
| FftWindows.LastSampleExactly | src/lib/fft.cpp:49-60 | a window that ends with the last sample is transformed exactly if the reader was not aligned with it before the last offer |
| FftWindows.ChunksMatter | src/lib/fft.cpp:40-76 | a window offered at once is transformed, and with its last sample on its own it is not |
| TimingRecoveries.CorrectionSize | src/lib/timingrecovery.cpp:66-69 | the size of the offset for a given error |
| TimingRecoveries.OffsetsBoundedExactly | src/lib/timingrecovery.cpp:66-69 | offsets stay within half a symbol for every limited error exactly if half * abs(max_error * loop_gain) is below half + 1 |
| TimingRecoveries.RealDetects | src/lib/timingrecovery.cpp:74-78 | for real samples equal outer samples are no error, and any error occurs |
| TimingRecoveries.ComplexDetects | src/lib/timingrecovery.cpp:80-87 | the same for complex samples |
| TimingRecoveries.LargestError | src/lib/timingrecovery.cpp:62-118 | samples at which the limited error is as large as max_error, unless the detector is blind |
| TimingRecoveries.StepsBoundedExactly | src/lib/timingrecovery.cpp:62-118 | over all samples, steps stay within half a symbol of the symbol length if and only if that product is below half + 1 or the detector is blind |
| TimingRecoveries.TimingRecovery.ResetOffset | src/lib/timingrecovery.cpp:56-60 | the literal comparison resets the offset on every call |
| TimingRecoveries.TimingRecovery.GetError | src/lib/timingrecovery.cpp:74-118 | for real and complex samples, every index of either detector is in the window; the error is the one of the three samples, and the symbol is the sample half a symbol in |
| TimingRecoveries.GardnerMove | src/lib/timingrecovery.cpp:62-103 | the Gardner detector consumes the symbol length less half a symbol times limited error times gain, without the fraction |
| TimingRecoveries.EarlyLateMove | src/lib/timingrecovery.cpp:62-118 | the early-late detector consumes as much more, from its own three samples |
| TimingRecoveries.Direction | include/timingrecovery.hpp:56-72 | the direction in which an error of either sign moves the cursor, and by at least one sample from when |
| TimingRecoveries.RealDirection | src/lib/timingrecovery.cpp:62-118 | that direction from real samples |
| TimingRecoveries.ComplexDirection | src/lib/timingrecovery.cpp:62-118 | that direction from complex samples |
| TimingRecoveries.TimingRecovery.Process | src/lib/timingrecovery.cpp:44-72 | consumption is the symbol length corrected by the limited error, between decimation - decimation / 2 and decimation + decimation / 2, positive, and available |
| TimingRecoveries.IntendedWindowInRange | src/lib/timingrecovery.cpp:56-60 | with the window of +-0.9 quarter symbols that was meant, the early-late index is in range too |
| TimingRecoveries.ConsumedBounds | src/lib/timingrecovery.cpp:44-72 | n symbols consume within n times those bounds |
| TimingRecoveries.SameCursors | src/lib/timingrecovery.cpp:44-72 | any two runs over the same stream take the same symbols from the same places, as far as both go |
| TimingRecoveries.RunTiming | src/lib/timingrecovery.cpp:44-72 | under any schedule each symbol lies half a symbol after its cursor, and each cursor follows from the samples at the one before; given room no symbol that arrived is left |

## Left out

- Float rounding, NaN and float conversions of lengths: arithmetic is exact.
- Memory mapping, allocation, destruction of buffers and the errors of a destroyed buffer (src/lib/ringbuffer.cpp:27-94, 219-222); waiting and waking readers. The size rounding of the mapping is not modelled: any positive size up to 2^63 is allowed.
- RingBuffers.Ringbuffer.Advance: the writer is advanced by less than 2^63 elements.
- Shifts.ShiftAddfast.constructor: the phase increment, rate times one turn, is a parameter.
- Filters and rates swapped during a run (setFilter, setRate, setEveryNSamples).
- FractionalDecimators.RunDecimator: samples are real; the complex instance does the same to both components.
- DecimatorsOnRing.RunOnRing: each chunk fits the ring beside what the decimator can leave there, and the writer has room for more than one call (`FitsRing`); a reader that is overtaken is covered by RunRing, a writer without room by RunDecimator.
- FftWindows.Fft.Process: the coefficients of the window are a parameter, and the branch without a window (src/lib/fft.cpp:62-64) is not modelled, because the constructor dereferences the window.
- FirFilters.GenerateLowPass: the window is any function, and the case that the raw taps sum to zero, where the source divides by zero, is excluded.
- FirFilters.TapsFor: a positive transition width is assumed, as the source does.
- Baudot.BaudotDecoder.Process: codes are below 32, as the RTTY decoder writes them; the source would read past its tables for larger bytes.
- Rtty.RttyDecoder.Process: canProcess does not look at the writer, and neither does the model.
- TsmPools.TsmPool.GetReadBuffer: the single-reader mode without a thread, and a block overwritten while it is being sent.
- ByteSources.ReceiveAll: poll, sockets and stopping the thread; a read of nothing ends the run.
- FftAdpcmEncoder: resets the codec for every frame and would only repeat the claims about the codec.
- removeReader, the reader set beyond insertion, command line, FIFO and process handling, converters, demodulators, gain control, noise and power meters: per-sample maps and wiring.
- libsamplerate and FFTW themselves: only the definition of the transforms is used.

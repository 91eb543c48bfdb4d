/**
 src/lib/adpcm.cpp: the IMA ADPCM codec (section 4.5.1 of RFC 3551, but with the first
 sample of a pair in the low nibble), its encoder and decoder modules, and the sync
 frames. The claims: how far the predictor can be from the sample, that both sides
 stay in lockstep, and where the frames are, under any chunking.
 */
module Adpcm {
  import opened Integers
  import opened Schedules

  type Int16 = x: int | -32768 <= x <= 32767

  type Byte = x: int | 0 <= x < 256

  type Nibble = x: int | 0 <= x < 16

  // ----- the codec ----------------------------------------------------------------------

  type Index = i: int | 0 <= i <= 88

  datatype State = State(index: Index, predictor: Int16)

  const START := State(0, 0)

  /** The step size table, in three parts. */
  function StepSize(index: Index): (step: int)
    ensures 7 <= step <= 32767
    ensures index == 88 ==> step == 32767
  {
    if index < 30 then LowStep(index) else if index < 60 then MiddleStep(index) else HighStep(index)
  }

  function LowStep(index: Index): int {
    match index
    case 0 => 7 case 1 => 8 case 2 => 9 case 3 => 10 case 4 => 11 case 5 => 12
    case 6 => 13 case 7 => 14 case 8 => 16 case 9 => 17 case 10 => 19 case 11 => 21
    case 12 => 23 case 13 => 25 case 14 => 28 case 15 => 31 case 16 => 34 case 17 => 37
    case 18 => 41 case 19 => 45 case 20 => 50 case 21 => 55 case 22 => 60 case 23 => 66
    case 24 => 73 case 25 => 80 case 26 => 88 case 27 => 97 case 28 => 107
    case _ => 118
  }

  function MiddleStep(index: Index): int {
    match index
    case 30 => 130 case 31 => 143 case 32 => 157 case 33 => 173 case 34 => 190 case 35 => 209
    case 36 => 230 case 37 => 253 case 38 => 279 case 39 => 307 case 40 => 337 case 41 => 371
    case 42 => 408 case 43 => 449 case 44 => 494 case 45 => 544 case 46 => 598 case 47 => 658
    case 48 => 724 case 49 => 796 case 50 => 876 case 51 => 963 case 52 => 1060 case 53 => 1166
    case 54 => 1282 case 55 => 1411 case 56 => 1552 case 57 => 1707 case 58 => 1878
    case _ => 2066
  }

  function HighStep(index: Index): int {
    match index
    case 60 => 2272 case 61 => 2499 case 62 => 2749 case 63 => 3024 case 64 => 3327 case 65 => 3660
    case 66 => 4026 case 67 => 4428 case 68 => 4871 case 69 => 5358 case 70 => 5894 case 71 => 6484
    case 72 => 7132 case 73 => 7845 case 74 => 8630 case 75 => 9493 case 76 => 10442 case 77 => 11487
    case 78 => 12635 case 79 => 13899 case 80 => 15289 case 81 => 16818 case 82 => 18500 case 83 => 20350
    case 84 => 22385 case 85 => 24623 case 86 => 27086 case 87 => 29794
    case _ => 32767
  }

  function IndexAdjust(code: Nibble): int {
    match code % 8
    case 4 => 2
    case 5 => 4
    case 6 => 6
    case 7 => 8
    case _ => -1
  }

  function Clamp(x: int, low: int, high: int): (r: int)
    requires low <= high
    ensures low <= r <= high
    ensures low <= x <= high ==> r == x
  {
    if x < low then low else if x > high then high else x
  }

  predicate Bit(code: Nibble, k: nat)
    requires k < 4
  {
    match k
    case 0 => code % 2 == 1
    case 1 => code / 2 % 2 == 1
    case 2 => code / 4 % 2 == 1
    case _ => code / 8 == 1
  }

  /** The magnitude that a code stands for at a step size. */
  function Difference(step: int, code: Nibble): int {
    step / 8 + (if Bit(code, 0) then step / 4 else 0) + (if Bit(code, 1) then step / 2 else 0)
    + (if Bit(code, 2) then step else 0)
  }

  /** The codec after a code. */
  function Decode(s: State, code: Nibble): State {
    var difference := Difference(StepSize(s.index), code);
    State(Clamp(s.index + IndexAdjust(code), 0, 88),
          Clamp(s.predictor + (if Bit(code, 3) then -difference else difference), -32768, 32767))
  }

  /** The successive subtraction of step, step / 2 and step / 4. */
  function Quantize(step: int, magnitude: int): (code: Nibble)
    ensures code < 8
  {
    var b2 := magnitude >= step;
    var rest2 := if b2 then magnitude - step else magnitude;
    var b1 := rest2 >= step / 2;
    var rest1 := if b1 then rest2 - step / 2 else rest2;
    var b0 := rest1 >= step / 2 / 2;
    (if b2 then 4 else 0) + (if b1 then 2 else 0) + (if b0 then 1 else 0)
  }

  function Encode(s: State, sample: Int16): (code: Nibble) {
    var diff := sample - s.predictor;
    if diff < 0 then 8 + Quantize(StepSize(s.index), -diff) else Quantize(StepSize(s.index), diff)
  }

  function Next(s: State, sample: Int16): State { Decode(s, Encode(s, sample)) }

  class AdpcmCodec {
    var index: int
    var previousValue: int

    ghost predicate Valid()
      reads this
    {
      0 <= index <= 88 && -32768 <= previousValue <= 32767
    }

    ghost function Current(): State
      requires Valid()
      reads this
    {
      State(index, previousValue)
    }

    constructor ()
      ensures Valid() && Current() == START && index == 0 && previousValue == 0
    {
      index, previousValue := 0, 0;
    }

    /** Builds the difference by scaling the step size. */
    static method ScaleStep(step: int, deltaCode: Nibble) returns (difference: int)
      ensures difference == Difference(step, deltaCode)
    {
      hide Bit;
      difference := step / 8;
      if Bit(deltaCode, 0) {
        difference := difference + step / 4;
      }
      if Bit(deltaCode, 1) {
        difference := difference + step / 2;
      }
      if Bit(deltaCode, 2) {
        difference := difference + step;
      }
    }

    method DecodeSample(deltaCode: Nibble) returns (sample: Int16)
      requires Valid()
      modifies this
      ensures Valid() && Current() == Decode(old(Current()), deltaCode) && sample == Current().predictor
    {
      hide StepSize, Bit, IndexAdjust, Difference;
      var difference := ScaleStep(StepSize(index), deltaCode);
      if Bit(deltaCode, 3) {
        difference := -difference;
      }
      previousValue := previousValue + difference;
      if previousValue > 32767 {
        previousValue := 32767;
      } else if previousValue < -32768 {
        previousValue := -32768;
      }
      index := index + IndexAdjust(deltaCode);
      if index < 0 {
        index := 0;
      } else if index > 88 {
        index := 88;
      }
      sample := previousValue;
    }

    /** Encodes and updates the state by decoding the code it returns. */
    method EncodeSample(sample: Int16) returns (deltaCode: Nibble)
      requires Valid()
      modifies this
      ensures Valid() && Current() == Next(old(Current()), sample) && deltaCode == Encode(old(Current()), sample)
    {
      hide StepSize, Decode;
      var diff := sample - previousValue;
      var step := StepSize(index);
      var code := 0;
      if diff < 0 {
        code := 8;
        diff := -diff;
      }
      if diff >= step {
        code := code + 4;
        diff := diff - step;
      }
      step := step / 2;
      if diff >= step {
        code := code + 2;
        diff := diff - step;
      }
      step := step / 2;
      if diff >= step {
        code := code + 1;
        diff := diff - step;
      }
      deltaCode := code;
      var _ := DecodeSample(deltaCode);
    }
  }

  // ----- the laws of the codec ----------------------------------------------------------------

  /** Steps grow by a tenth, up to the rounding, and end at the largest sample. */
  lemma StepGrowth(i: Index)
    ensures StepSize(0) == 7 && StepSize(10) == 19 && StepSize(40) == 337 && StepSize(70) == 5894
    ensures StepSize(87) == 29794 && StepSize(88) == 32767
    ensures i < 87 ==> StepSize(i) < StepSize(i + 1) && Abs(10 * StepSize(i + 1) - 11 * StepSize(i)) <= 8
  {
    StepLandmarks();
    hide StepSize;
    if i < 44 {
      LowerSteps(i);
    } else if i < 87 {
      UpperSteps(i);
    }
  }

  lemma StepLandmarks()
    ensures StepSize(0) == 7 && StepSize(10) == 19 && StepSize(40) == 337 && StepSize(70) == 5894
    ensures StepSize(87) == 29794 && StepSize(88) == 32767
  {}

  /** Ten steps added up: no single entry of the table can be another. */
  function TenSteps(i: nat): int
    requires i <= 79
  {
    StepSize(i) + StepSize(i + 1) + StepSize(i + 2) + StepSize(i + 3) + StepSize(i + 4)
    + StepSize(i + 5) + StepSize(i + 6) + StepSize(i + 7) + StepSize(i + 8) + StepSize(i + 9)
  }

  lemma StepSums()
    ensures TenSteps(0) == 117 && TenSteps(10) == 304 && TenSteps(20) == 794
    ensures TenSteps(30) == 2071 && TenSteps(40) == 5379 && TenSteps(50) == 13961
    ensures TenSteps(60) == 36214 && TenSteps(70) == 93941 && TenSteps(79) == 221511
  {
    hide TenSteps;
    LowerSums();
    MiddleSums();
    UpperSums();
  }

  lemma LowerSums()
    ensures TenSteps(0) == 117 && TenSteps(10) == 304 && TenSteps(20) == 794
  {}

  lemma MiddleSums()
    ensures TenSteps(30) == 2071 && TenSteps(40) == 5379 && TenSteps(50) == 13961
  {}

  lemma UpperSums()
    ensures TenSteps(60) == 36214 && TenSteps(70) == 93941 && TenSteps(79) == 221511
  {}

  lemma LowerSteps(i: Index)
    requires i < 44
    ensures StepSize(i) < StepSize(i + 1) && Abs(10 * StepSize(i + 1) - 11 * StepSize(i)) <= 8
  {}

  lemma UpperSteps(i: Index)
    requires 44 <= i < 87
    ensures StepSize(i) < StepSize(i + 1) && Abs(10 * StepSize(i + 1) - 11 * StepSize(i)) <= 8
  {}

  /**
   What a code means: its sign, its bits as step, step / 2 and step / 4 on top of step / 8,
   and the index one down for the four small magnitudes, 2, 4, 6 or 8 up for the others.
   */
  lemma DecodeLaw(s: State, code: Nibble)
    ensures var step := StepSize(s.index);
            var size := step / 8 + (if code % 2 == 1 then step / 4 else 0)
                        + (if code / 2 % 2 == 1 then step / 2 else 0) + (if code / 4 % 2 == 1 then step else 0);
            var signed := s.predictor + (if code >= 8 then -size else size);
            && Decode(s, code).predictor == Min(32767, Max(-32768, signed))
            && Decode(s, code).index == if code % 8 <= 3 then Max(0, s.index - 1)
                                        else Min(88, s.index + 2 * (code % 8) - 6)
  {
    hide StepSize;
  }

  /** The quarters of a step that fit, at most three of them. */
  function Quarters(rest: int, half: int, quarter: int): nat {
    if rest < quarter then 0 else if rest < half then 1 else if rest < half + quarter then 2 else 3
  }

  lemma QuantizeRanges(step: int, magnitude: int)
    requires 7 <= step && 0 <= magnitude
    ensures Quantize(step, magnitude) == if magnitude < step then Quarters(magnitude, step / 2, step / 4)
                                         else 4 + Quarters(magnitude - step, step / 2, step / 4)
  {}

  /** Bits of a code as step, step / 2 and step / 4. */
  function Threshold(step: int, code: int): int {
    (if code >= 4 then step else 0) + (if code % 4 >= 2 then step / 2 else 0) + (if code % 2 == 1 then step / 4 else 0)
  }

  /** The code is the largest one whose bits as step, step / 2 and step / 4 fit the magnitude. */
  lemma QuantizeExactly(step: int, magnitude: int, code: int)
    requires 7 <= step && 0 <= magnitude && 0 <= code < 8
    ensures Threshold(step, code) == (if code >= 4 then step else 0) + (if code % 4 >= 2 then step / 2 else 0)
                                     + (if code % 2 == 1 then step / 4 else 0)
    ensures Quantize(step, magnitude) == code
       <==> Threshold(step, code) <= magnitude && (code == 7 || magnitude < Threshold(step, code + 1))
  {
    hide Quantize;
    QuantizeRanges(step, magnitude);
  }

  /** The sign bit is set for a sample below the predictor, and the rest quantizes the distance. */
  lemma EncodeLaw(s: State, sample: Int16)
    ensures Encode(s, sample) >= 8 <==> sample < s.predictor
    ensures Encode(s, sample) % 8 == Quantize(StepSize(s.index), Abs(sample - s.predictor))
    ensures Next(s, sample) == Decode(s, Encode(s, sample))
  {
    hide StepSize, Quantize, Decode;
  }

  /**
   What a sample does to the step index: less than a step away lowers it by one, and further
   away raises it by 2, 4, 6 or 8, by the quarters of a step that are left.
   */
  lemma IndexLaw(s: State, sample: Int16)
    ensures var step, distance := StepSize(s.index), Abs(sample - s.predictor);
            var rest := distance - step;
            Next(s, sample).index ==
              if distance < step then Max(0, s.index - 1)
              else Min(88, s.index + (if rest < step / 4 then 2 else if rest < step / 2 then 4
                                      else if rest < step / 2 + step / 4 then 6 else 8))
  {
    hide StepSize, Quantize, Decode, Encode;
    EncodeLaw(s, sample);
    DecodeLaw(s, Encode(s, sample));
    QuantizeRanges(StepSize(s.index), Abs(sample - s.predictor));
  }

  /** So the step comes down while every sample is less than a step away; 88 of them end at the smallest. */
  lemma {:induction false} QuietLowersIndex(s: State, samples: seq<Int16>, n: nat)
    requires n <= |samples|
    requires forall i :: 0 <= i < n ==>
               Abs(samples[i] - After(s, samples[..i]).predictor) < StepSize(After(s, samples[..i]).index)
    ensures After(s, samples[..n]).index == Max(0, s.index - n)
    ensures n >= 88 ==> After(s, samples[..n]).index == 0
  {
    hide Next, StepSize;
    if n > 0 {
      QuietLowersIndex(s, samples, n - 1);
      AfterGrows(s, samples[..n - 1], samples[n - 1]);
      assert samples[..n - 1] + [samples[n - 1]] == samples[..n];
      IndexLaw(After(s, samples[..n - 1]), samples[n - 1]);
    } else {
      AfterGrows(s, [], 0);
      assert samples[..0] == [];
    }
  }

  lemma AfterGrows(s: State, samples: seq<Int16>, sample: Int16)
    ensures After(s, []) == s && After(s, samples + [sample]) == Next(After(s, samples), sample)
  {
    assert (samples + [sample])[..|samples|] == samples;
  }

  // ----- error bound and recovery -----------------------------------------------------------

  /** The reconstructed magnitude is close below 2 * step, and falls short, by less than all, above. */
  lemma QuantizeBound(step: int, magnitude: int)
    requires 7 <= step && 0 <= magnitude
    ensures magnitude < 2 * step ==> Abs(Difference(step, Quantize(step, magnitude)) - magnitude) <= step / 8 + 2
    ensures magnitude >= 2 * step ==> Quantize(step, magnitude) == 7
    ensures magnitude >= 2 * step ==> 0 < Difference(step, Quantize(step, magnitude)) <= magnitude
    ensures magnitude >= 2 * step ==> Difference(step, Quantize(step, magnitude)) >= 2 * step - step / 8 - 3
  {}

  /**
   One sample: within step / 8 + 2 if the sample was less than two steps away, clamping
   included; otherwise strictly closer on the same side, and the step index rises by 8.
   */
  lemma SampleBound(s: State, sample: Int16)
    ensures var step := StepSize(s.index);
            var before, after := Abs(sample - s.predictor), Abs(sample - Next(s, sample).predictor);
            if before < 2 * step then after <= step / 8 + 2
            else && after < before
                 && after <= before - 2 * step + step / 8 + 3
                 && Next(s, sample).index == Min(88, s.index + 8)
                 && (s.predictor < sample ==> s.predictor < Next(s, sample).predictor <= sample)
                 && (sample < s.predictor ==> sample <= Next(s, sample).predictor < s.predictor)
  {
    hide StepSize, Quantize, Difference, Bit;
    QuantizeBound(StepSize(s.index), Abs(sample - s.predictor));
    SignBit(Quantize(StepSize(s.index), Abs(sample - s.predictor)), StepSize(s.index));
  }

  lemma SignBit(magnitude: Nibble, step: int)
    requires magnitude < 8
    ensures !Bit(magnitude, 3) && Bit(8 + magnitude, 3)
    ensures Difference(step, 8 + magnitude) == Difference(step, magnitude)
    ensures IndexAdjust(8 + magnitude) == IndexAdjust(magnitude)
  {}

  /** The codec after a run of samples. */
  function After(s: State, samples: seq<Int16>): State {
    if |samples| == 0 then s else Next(After(s, samples[..|samples| - 1]), samples[|samples| - 1])
  }

  ghost predicate Tracked(s: State, sample: Int16) {
    Abs(sample - Next(s, sample).predictor) <= StepSize(s.index) / 8 + 4
  }

  /** Until one sample is tracked, every sample raises the step index by 8. */
  lemma {:induction false} UntrackedRaisesIndex(s: State, samples: seq<Int16>, n: nat)
    requires n <= |samples|
    requires forall i :: 0 <= i < n ==> !Tracked(After(s, samples[..i]), samples[i])
    ensures After(s, samples[..n]).index >= Min(88, 8 * n)
  {
    hide Next, StepSize;
    if n > 0 {
      UntrackedRaisesIndex(s, samples, n - 1);
      var before := After(s, samples[..n - 1]);
      assert samples[..n][..n - 1] == samples[..n - 1];
      SampleBound(before, samples[n - 1]);
    }
  }

  /** Any 12 consecutive samples, from any state, contain one that the predictor tracks. */
  lemma Recovery(s: State, samples: seq<Int16>)
    requires |samples| >= 12
    ensures exists i :: 0 <= i < 12 && Tracked(After(s, samples[..i]), samples[i])
    ensures exists i :: 0 <= i < 12 && Abs(samples[i] - Next(After(s, samples[..i]), samples[i]).predictor)
                                       <= StepSize(After(s, samples[..i]).index) / 8 + 4
  {
    hide Next, StepSize;
    if forall i :: 0 <= i < 12 ==> !Tracked(After(s, samples[..i]), samples[i]) {
      UntrackedRaisesIndex(s, samples, 11);
      SampleBound(After(s, samples[..11]), samples[11]);
    }
  }

  // ----- what the encoder module writes ---------------------------------------------------------

  /** First sample of the pair in the low nibble, second in the high one. */
  function PairByte(s: State, a: Int16, b: Int16): Byte {
    Encode(s, a) + 16 * Encode(Next(s, a), b)
  }

  /** The first code is in the low half of a byte, the second in the high one. */
  lemma NibbleOrder(s: State, a: Int16, b: Int16)
    ensures PairByte(s, a, b) % 16 == Encode(s, a) && PairByte(s, a, b) / 16 == Encode(Next(s, a), b)
  {
    hide Encode, Next;
  }

  /** The two's complement of a sample. */
  function Word(x: Int16): (word: int)
    ensures 0 <= word < 65536
  {
    if x < 0 then x + 65536 else x
  }

  function LowByte(x: Int16): Byte { Word(x) % 256 }

  function HighByte(x: Int16): Byte { Word(x) / 256 }

  /** "SYNC", then step index and predictor as 16-bit little-endian words. */
  function Frame(s: State): (frame: seq<Byte>)
    ensures |frame| == 8
  {
    [0x53, 0x59, 0x4E, 0x43, LowByte(s.index), HighByte(s.index), LowByte(s.predictor), HighByte(s.predictor)]
  }

  /** Both words of a frame are in two's complement with the low byte first. */
  lemma FrameBytes(s: State)
    ensures Frame(s) == ['S' as int, 'Y' as int, 'N' as int, 'C' as int, s.index, 0,
                         s.predictor % 256, s.predictor / 256 % 256]
  {}

  /** A frame is written when the counter has run down: before code bytes 0, 1001, 2002, ... */
  const PERIOD := 1001

  function Pairs(samples: seq<Int16>): nat { |samples| / 2 }

  /** The state after n pairs. */
  function AfterPairs(samples: seq<Int16>, n: nat): State
    requires 2 * n <= |samples|
  {
    After(START, samples[..2 * n])
  }

  function CodeByte(samples: seq<Int16>, n: nat): Byte
    requires 2 * n + 2 <= |samples|
  {
    PairByte(AfterPairs(samples, n), samples[2 * n], samples[2 * n + 1])
  }

  /** All bytes of a run that starts with a fresh codec, after n pairs of samples. */
  function Written(sync: bool, samples: seq<Int16>, n: nat): seq<Byte>
    requires 2 * n <= |samples|
  {
    if n == 0 then []
    else
      Written(sync, samples, n - 1)
      + (if sync && (n - 1) % PERIOD == 0 then Frame(AfterPairs(samples, n - 1)) else [])
      + [CodeByte(samples, n - 1)]
  }

  /** The counter of the encoder before code byte n. */
  function CounterAt(n: nat): int {
    if n % PERIOD == 0 then 0 else PERIOD - n % PERIOD
  }

  lemma CounterStep(n: nat)
    ensures CounterAt(n) <= 0 <==> n % PERIOD == 0
    ensures CounterAt(n + 1) == if n % PERIOD == 0 then 1000 else CounterAt(n) - 1
  {}

  lemma {:induction false} WrittenGrows(sync: bool, samples: seq<Int16>, more: seq<Int16>, n: nat)
    requires 2 * n <= |samples|
    ensures Written(sync, samples + more, n) == Written(sync, samples, n)
    ensures AfterPairs(samples + more, n) == AfterPairs(samples, n)
  {
    hide Frame, PairByte, After;
    assert (samples + more)[..2 * n] == samples[..2 * n];
    if n > 0 {
      WrittenGrows(sync, samples, more, n - 1);
    }
  }

  class AdpcmEncoder {
    const codec: AdpcmCodec
    const sync: bool
    var syncCounter: int
    /** All samples encoded so far, in pairs. */
    ghost var samples: seq<Int16>

    ghost predicate Valid()
      reads this, codec
    {
      && codec.Valid() && codec.Current() == After(START, samples)
      && |samples| % 2 == 0
      && (sync ==> syncCounter == CounterAt(Pairs(samples)))
    }

    constructor (sync: bool)
      ensures Valid() && fresh(codec) && this.sync == sync && samples == []
    {
      codec := new AdpcmCodec();
      this.sync := sync;
      syncCounter := 0;
      samples := [];
    }

    /** The two codes of a pair, packed. */
    method EncodePair(a: Int16, b: Int16) returns (byte: Byte)
      requires codec.Valid()
      modifies codec
      ensures codec.Valid() && byte == PairByte(old(codec.Current()), a, b)
      ensures codec.Current() == Next(Next(old(codec.Current()), a), b)
    {
      hide Encode, Next;
      var low: int := codec.EncodeSample(a);
      var high: int := codec.EncodeSample(b);
      byte := low + 16 * high;
    }

    method WriteFrame(output: array<Byte>, at: nat)
      requires codec.Valid() && at + 8 <= output.Length
      modifies output
      ensures output[..at] == old(output[..at]) && output[at..at + 8] == Frame(codec.Current())
    {
      var frame := Frame(State(codec.index, codec.previousValue));
      forall k | 0 <= k < 8 {
        output[at + k] := frame[k];
      }
    }

    predicate CanProcess(available: nat, writeable: nat) {
      available >= 2 && writeable > 8
    }

    /** The frame goes to `output + i`, the code byte behind the frames of this call. */
    method EncodeAt(output: array<Byte>, i: nat, offset: nat, a: Int16, b: Int16) returns (framed: bool)
      requires Valid() && offset <= 8 && i + 9 <= output.Length
      requires sync && Pairs(samples) % PERIOD == 0 ==> offset == 0
      modifies this, codec, output
      ensures Valid() && samples == old(samples) + [a, b]
      ensures framed <==> sync && Pairs(old(samples)) % PERIOD == 0
      ensures var end := i + offset + (if framed then 9 else 1);
              && output[..end] == old(output[..i + offset]) + output[i + offset..end]
              && Written(sync, samples, Pairs(samples))
                 == Written(sync, old(samples), Pairs(old(samples))) + output[i + offset..end]
    {
      hide Frame, PairByte, Next, CounterAt, Written, After;
      ghost var start := codec.Current();
      ghost var before := output[..i + offset];
      CounterStep(Pairs(samples));
      PairAppended(sync, samples, a, b);
      framed := false;
      var at := i + offset;
      if sync {
        framed := syncCounter <= 0;
        syncCounter := syncCounter - 1;
        if framed {
          WriteFrame(output, i);
          at := at + 8;
          syncCounter := 1000;
        }
      }
      var byte := EncodePair(a, b);
      output[at] := byte;
      samples := samples + [a, b];
      assert output[..i + offset] == before;
      assert output[i + offset..at + 1] == (if framed then Frame(start) else []) + [PairByte(start, a, b)];
    }

    /**
     At most 1000 pairs, and so at most one frame: frame and codes land one after the
     other, inside the room of the writer.
     */
    method Process(input: seq<Int16>, output: array<Byte>) returns (consumed: nat, written: nat)
      requires Valid() && CanProcess(|input|, output.Length)
      modifies this, codec, output
      ensures Valid() && consumed <= |input| && samples == old(samples) + input[..consumed]
      ensures consumed == 2 * Min(Min(|input| / 2, output.Length - 8), 1000)
      ensures written == consumed / 2 || (sync && written == consumed / 2 + 8)
      ensures written <= output.Length
      ensures Written(sync, samples, Pairs(samples))
           == Written(sync, old(samples), Pairs(old(samples))) + output[..written]
    {
      hide Frame, PairByte, Next, CounterAt, Written, After;
      var size := Min(Min(|input| / 2, output.Length - 8), 1000);
      var offset := 0;
      ghost var first := Pairs(samples);
      ghost var last := first;
      for i := 0 to size
        invariant Valid() && samples == old(samples) + input[..2 * i] && Pairs(samples) == first + i
        invariant offset == 0 || (sync && offset == 8 && last % PERIOD == 0 && first <= last < first + i)
        invariant Written(sync, samples, first + i) == Written(sync, old(samples), first) + output[..i + offset]
      {
        if offset == 8 && (first + i) % PERIOD == 0 {
          FramesFarApart(last, first + i);
        }
        ghost var before := output[..i + offset];
        var framed := EncodeAt(output, i, offset, input[2 * i], input[2 * i + 1]);
        ghost var end := i + offset + (if framed then 9 else 1);
        Lengthened(Written(sync, old(samples), first), before, output[i + offset..end]);
        TwoMore(old(samples), input, i);
        if framed {
          last := first + i;
          offset := offset + 8;
        }
      }
      consumed, written := 2 * size, size + offset;
    }
  }

  lemma Lengthened(start: seq<Byte>, middle: seq<Byte>, end: seq<Byte>)
    ensures start + middle + end == start + (middle + end)
  {}

  lemma TwoMore(start: seq<Int16>, input: seq<Int16>, i: nat)
    requires 2 * i + 2 <= |input|
    ensures start + input[..2 * i + 2] == start + input[..2 * i] + [input[2 * i], input[2 * i + 1]]
  {}

  lemma FramesFarApart(framed: nat, n: nat)
    requires framed % PERIOD == 0 && n % PERIOD == 0 && framed < n
    ensures n >= framed + PERIOD
  {}

  /** What one more pair adds to the output and to the state. */
  lemma PairAppended(sync: bool, samples: seq<Int16>, a: Int16, b: Int16)
    requires |samples| % 2 == 0
    ensures var n := Pairs(samples);
            var s := After(START, samples);
            && Pairs(samples + [a, b]) == n + 1
            && After(START, samples + [a, b]) == Next(Next(s, a), b)
            && Written(sync, samples + [a, b], n + 1)
               == Written(sync, samples, n) + (if sync && n % PERIOD == 0 then Frame(s) else []) + [PairByte(s, a, b)]
  {
    hide Frame, PairByte, Next;
    var n := Pairs(samples);
    var all := samples + [a, b];
    WrittenGrows(sync, samples, [a, b], n);
    assert samples[..2 * n] == samples && all[..2 * n] == samples;
    assert all[..|all| - 1] == samples + [a] && (samples + [a])[..|samples|] == samples;
  }

  // ----- the framed stream ------------------------------------------------------------------

  /** Where code byte n is in a synced stream: one frame for every period begun. */
  function CodeOffset(n: nat): nat { n + 8 * (n / PERIOD + 1) }

  function SyncedLength(n: nat): nat { n + 8 * ((n + PERIOD - 1) / PERIOD) }

  lemma LengthStep(n: nat)
    ensures SyncedLength(0) == 0 && CodeOffset(n) == n + 8 * (n / 1001 + 1)
    ensures CodeOffset(n) == SyncedLength(n) + (if n % PERIOD == 0 then 8 else 0)
    ensures SyncedLength(n + 1) == CodeOffset(n) + 1
  {}

  lemma {:induction false} LengthOfSynced(samples: seq<Int16>, n: nat)
    requires 2 * n <= |samples|
    ensures |Written(true, samples, n)| == SyncedLength(n)
  {
    hide SyncedLength, CodeOffset, Frame, CodeByte, AfterPairs;
    LengthStep(0);
    if n > 0 {
      LengthOfSynced(samples, n - 1);
      LengthStep(n - 1);
    }
  }

  /**
   Frames precede code bytes 0, 1001, 2002, ... and carry the state the encoder had
   there; every code byte is where CodeOffset says.
   */
  lemma {:induction false} SyncedLayout(samples: seq<Int16>, pairs: nat, n: nat)
    requires 2 * pairs <= |samples| && n < pairs
    ensures CodeOffset(n) < |Written(true, samples, pairs)|
    ensures Written(true, samples, pairs)[CodeOffset(n)] == CodeByte(samples, n)
    ensures n % PERIOD == 0 ==>
              Written(true, samples, pairs)[CodeOffset(n) - 8..CodeOffset(n)] == Frame(AfterPairs(samples, n))
    decreases pairs
  {
    hide Frame, CodeByte, AfterPairs, SyncedLength, CodeOffset;
    LengthOfSynced(samples, pairs - 1);
    LengthOfSynced(samples, pairs);
    LengthStep(n);
    var before, all := Written(true, samples, pairs - 1), Written(true, samples, pairs);
    if n < pairs - 1 {
      SyncedLayout(samples, pairs - 1, n);
      assert all[..|before|] == before;
      if n % PERIOD == 0 {
        assert all[CodeOffset(n) - 8..CodeOffset(n)] == before[CodeOffset(n) - 8..CodeOffset(n)];
      }
    } else if n % PERIOD == 0 {
      assert |before| == CodeOffset(n) - 8;
    }
  }

  /** What a receiver reads from a frame. */
  function ReadFrame(frame: seq<Byte>): (int, int)
    requires |frame| == 8
  {
    (SignedWord(frame[4], frame[5]), SignedWord(frame[6], frame[7]))
  }

  function SignedWord(low: Byte, high: Byte): int {
    var word := low + 256 * high;
    if word < 32768 then word else word - 65536
  }

  lemma WordRoundTrip(x: Int16)
    ensures SignedWord(LowByte(x), HighByte(x)) == x
  {
    DivBounds(Word(x), 256);
  }

  lemma FrameRoundTrip(s: State)
    ensures ReadFrame(Frame(s)) == (s.index, s.predictor)
    ensures Frame(s)[..4] == [0x53, 0x59, 0x4E, 0x43]
  {
    hide LowByte, HighByte, SignedWord;
    WordRoundTrip(s.index);
    WordRoundTrip(s.predictor);
  }

  // ----- lockstep ---------------------------------------------------------------------------------

  function LowNibble(byte: Byte): Nibble { byte % 16 }

  function HighNibble(byte: Byte): Nibble { byte / 16 }

  /** The decoder after one byte, and the two samples it emits on the way. */
  function DecodeByte(s: State, byte: Byte): (State, Int16, Int16) {
    var one := Decode(s, LowNibble(byte));
    var two := Decode(one, HighNibble(byte));
    (two, one.predictor, two.predictor)
  }

  /** The low half of a byte is decoded first. */
  lemma HalvesInOrder(s: State, byte: Byte)
    ensures var one := Decode(s, byte % 16);
            var two := Decode(one, byte / 16);
            DecodeByte(s, byte) == (two, one.predictor, two.predictor)
  {
    hide Decode;
  }

  function DecodedState(s: State, bytes: seq<Byte>): State {
    if |bytes| == 0 then s else DecodeByte(DecodedState(s, bytes[..|bytes| - 1]), bytes[|bytes| - 1]).0
  }

  function Decoded(s: State, bytes: seq<Byte>): (samples: seq<Int16>)
    ensures |samples| == 2 * |bytes|
  {
    if |bytes| == 0 then []
    else
      var d := DecodeByte(DecodedState(s, bytes[..|bytes| - 1]), bytes[|bytes| - 1]);
      Decoded(s, bytes[..|bytes| - 1]) + [d.1, d.2]
  }

  lemma PairLockstep(s: State, a: Int16, b: Int16)
    ensures DecodeByte(s, PairByte(s, a, b))
         == (Next(Next(s, a), b), Next(s, a).predictor, Next(Next(s, a), b).predictor)
  {
    hide Decode, Encode, LowNibble, HighNibble;
    Unpack(Encode(s, a), Encode(Next(s, a), b));
  }

  lemma Unpack(low: Nibble, high: Nibble)
    ensures LowNibble(low + 16 * high) == low && HighNibble(low + 16 * high) == high
  {}

  /** The code bytes of pairs first..last. */
  function CodeBytes(samples: seq<Int16>, first: nat, last: nat): (bytes: seq<Byte>)
    requires first <= last && 2 * last <= |samples|
    ensures |bytes| == last - first
  {
    seq<Byte>(last - first, i requires 0 <= i < last - first => CodeByte(samples, first + i))
  }

  /**
   A decoder that starts with the encoder's state stays in lockstep: after every byte the
   states coincide, and it emits the encoder's predictor after every sample.
   */
  lemma {:induction false} Lockstep(samples: seq<Int16>, first: nat, last: nat)
    requires first <= last && 2 * last <= |samples|
    ensures DecodedState(AfterPairs(samples, first), CodeBytes(samples, first, last)) == AfterPairs(samples, last)
    ensures forall i :: 0 <= i < 2 * (last - first) ==>
              Decoded(AfterPairs(samples, first), CodeBytes(samples, first, last))[i]
              == After(START, samples[..2 * first + i + 1]).predictor
    decreases last
  {
    hide PairByte, Next, DecodeByte;
    if last > first {
      var n := last - 1;
      Lockstep(samples, first, n);
      var bytes := CodeBytes(samples, first, last);
      assert bytes[..|bytes| - 1] == CodeBytes(samples, first, n);
      var s := AfterPairs(samples, n);
      PairLockstep(s, samples[2 * n], samples[2 * n + 1]);
      assert bytes[|bytes| - 1] == CodeByte(samples, n);
      assert samples[..2 * n + 1][..2 * n] == samples[..2 * n];
      assert samples[..2 * n + 2][..2 * n + 1] == samples[..2 * n + 1];
      assert After(START, samples[..2 * n + 1]) == Next(s, samples[2 * n]);
      assert After(START, samples[..2 * n + 2]) == Next(Next(s, samples[2 * n]), samples[2 * n + 1]);
    }
  }

  /** Without sync the stream is the code bytes alone. */
  lemma {:induction false} UnsyncedIsCodes(samples: seq<Int16>, n: nat)
    requires 2 * n <= |samples|
    ensures Written(false, samples, n) == CodeBytes(samples, 0, n)
  {
    hide CodeByte;
    if n > 0 {
      UnsyncedIsCodes(samples, n - 1);
    }
  }

  lemma DecodedAppend(s: State, bytes: seq<Byte>, byte: Byte)
    ensures DecodedState(s, bytes + [byte]) == DecodeByte(DecodedState(s, bytes), byte).0
    ensures Decoded(s, bytes + [byte])
         == Decoded(s, bytes) + [DecodeByte(DecodedState(s, bytes), byte).1, DecodeByte(DecodedState(s, bytes), byte).2]
  {
    hide DecodeByte;
    assert (bytes + [byte])[..|bytes|] == bytes;
  }

  class AdpcmDecoder {
    const codec: AdpcmCodec
    ghost const start: State
    /** All bytes decoded so far. */
    ghost var bytes: seq<Byte>

    ghost predicate Valid()
      reads this, codec
    {
      codec.Valid() && codec.Current() == DecodedState(start, bytes)
    }

    /** A decoder with the default state, or with one read from a frame. */
    constructor (start: State)
      ensures Valid() && fresh(codec) && this.start == start && bytes == []
    {
      codec := new AdpcmCodec();
      this.start := start;
      bytes := [];
      new;
      codec.index, codec.previousValue := start.index, start.predictor;
    }

    predicate CanProcess(available: nat, writeable: nat) {
      available > 0 && writeable >= 10
    }

    method Process(input: seq<Byte>, writeable: nat) returns (output: seq<Int16>, consumed: nat)
      requires Valid()
      modifies this, codec
      ensures Valid() && consumed == Min(|input|, writeable / 2) && |output| == 2 * consumed
      ensures bytes == old(bytes) + input[..consumed]
      ensures Decoded(start, bytes) == Decoded(start, old(bytes)) + output
    {
      hide Decode, LowNibble, HighNibble, Decoded, DecodedState;
      output := [];
      for i := 0 to Min(|input|, writeable / 2)
        invariant Valid() && bytes == old(bytes) + input[..i] && |output| == 2 * i
        invariant Decoded(start, bytes) == Decoded(start, old(bytes)) + output
      {
        var one := codec.DecodeSample(LowNibble(input[i]));
        var two := codec.DecodeSample(HighNibble(input[i]));
        output := output + [one, two];
        DecodedAppend(start, bytes, input[i]);
        bytes := bytes + [input[i]];
      }
      consumed := Min(|input|, writeable / 2);
    }
  }

  ghost predicate Carries(stream: seq<Byte>, samples: seq<Int16>, n: nat)
    requires 2 * n + 2 <= |samples|
  {
    CodeOffset(n) < |stream| && stream[CodeOffset(n)] == CodeByte(samples, n)
  }

  /** A receiver that joins at any frame is in lockstep with the code bytes that follow. */
  lemma JoinAtFrame(samples: seq<Int16>, pairs: nat, n: nat, last: nat)
    requires 2 * pairs <= |samples| && n < pairs && n % PERIOD == 0 && n <= last <= pairs
    ensures CodeOffset(n) - 8 <= CodeOffset(n) <= |Written(true, samples, pairs)|
    ensures ReadFrame(Written(true, samples, pairs)[CodeOffset(n) - 8..CodeOffset(n)])
         == (AfterPairs(samples, n).index, AfterPairs(samples, n).predictor)
    ensures forall m :: n <= m < last ==> Carries(Written(true, samples, pairs), samples, m)
    ensures DecodedState(AfterPairs(samples, n), CodeBytes(samples, n, last)) == AfterPairs(samples, last)
    ensures forall i :: 0 <= i < 2 * (last - n) ==>
              Decoded(AfterPairs(samples, n), CodeBytes(samples, n, last))[i]
              == After(START, samples[..2 * n + i + 1]).predictor
  {
    hide Written, AfterPairs, After, Frame, ReadFrame, CodeByte, Decoded, DecodedState, CodeOffset;
    SyncedLayout(samples, pairs, n);
    FrameRoundTrip(AfterPairs(samples, n));
    forall m | n <= m < last ensures Carries(Written(true, samples, pairs), samples, m) {
      SyncedLayout(samples, pairs, m);
    }
    Lockstep(samples, n, last);
  }

  // ----- runs -----------------------------------------------------------------------------------

  /** `while (canProcess()) process();` on the samples that have arrived. */
  method DrainEncoder(encoder: AdpcmEncoder, samples: seq<Int16>, soFar: seq<Byte>, from: nat, arrived: nat,
                      writeable: nat)
    returns (bytes: seq<Byte>, pos: nat)
    requires encoder.Valid() && from % 2 == 0 && from <= arrived <= |samples| && encoder.samples == samples[..from]
    requires soFar == Written(encoder.sync, encoder.samples, Pairs(encoder.samples))
    modifies encoder, encoder.codec
    ensures encoder.Valid() && pos % 2 == 0 && pos <= arrived && encoder.samples == samples[..pos]
    ensures bytes == Written(encoder.sync, encoder.samples, Pairs(encoder.samples))
    ensures if writeable > 8 then arrived / 2 == pos / 2 else pos == from
  {
    hide Written, After, CounterAt;
    bytes, pos := soFar, from;
    while encoder.CanProcess(arrived - pos, writeable)
      invariant encoder.Valid() && pos % 2 == 0 && pos <= arrived && encoder.samples == samples[..pos]
      invariant writeable <= 8 ==> pos == from
      invariant bytes == Written(encoder.sync, encoder.samples, Pairs(encoder.samples))
      decreases arrived - pos
    {
      var output := new Byte[writeable];
      var consumed, written := encoder.Process(samples[pos..arrived], output);
      bytes := bytes + output[..written];
      assert samples[..pos] + samples[pos..arrived][..consumed] == samples[..pos + consumed];
      pos := pos + consumed;
    }
  }

  /** Any schedule of the encoder writes the same bytes, for all whole pairs that have arrived. */
  method RunEncoder(sync: bool, samples: seq<Int16>, offers: seq<Offer>) returns (bytes: seq<Byte>, pairs: nat)
    ensures pairs <= Arrived(offers, |samples|) / 2
    ensures EndsWithRoom(offers, 9) ==> pairs == Arrived(offers, |samples|) / 2
    ensures NeverRoom(offers, 9) ==> pairs == 0
    ensures bytes == Written(sync, samples, pairs)
  {
    hide Written, After, AfterPairs, CounterAt;
    var encoder := new AdpcmEncoder(sync);
    bytes := [];
    var pos, arrived := 0, 0;
    assert Written(sync, [], 0) == [] by { NothingWritten(sync); }
    for k := 0 to |offers|
      invariant fresh(encoder) && fresh(encoder.codec) && encoder.Valid() && encoder.sync == sync
      invariant arrived == Arrived(offers[..k], |samples|) && pos % 2 == 0
      invariant EndsWithRoom(offers[..k], 9) ==> arrived / 2 == pos / 2
      invariant 0 <= pos <= arrived && encoder.samples == samples[..pos]
      invariant NeverRoom(offers[..k], 9) ==> pos == 0
      invariant bytes == Written(sync, encoder.samples, Pairs(encoder.samples))
    {
      ArrivedNext(offers, |samples|, k);
      arrived := Min(|samples|, arrived + offers[k].arriving);
      bytes, pos := DrainEncoder(encoder, samples, bytes, pos, arrived, offers[k].writeable);
    }
    assert offers[..|offers|] == offers;
    assert samples[..pos] + samples[pos..] == samples;
    WrittenGrows(sync, samples[..pos], samples[pos..], pos / 2);
    pairs := pos / 2;
  }

  lemma NothingWritten(sync: bool)
    ensures Written(sync, [], 0) == []
  {}

  /** Any schedule of the decoder decodes the bytes that have arrived. */
  method RunDecoder(start: State, bytes: seq<Byte>, offers: seq<Offer>) returns (samples: seq<Int16>, consumed: nat)
    ensures consumed <= Arrived(offers, |bytes|)
    ensures EndsWithRoom(offers, 10) ==> consumed == Arrived(offers, |bytes|)
    ensures NeverRoom(offers, 10) ==> consumed == 0
    ensures samples == Decoded(start, bytes[..consumed])
  {
    hide Decoded, DecodedState;
    var decoder := new AdpcmDecoder(start);
    var arrived := 0;
    samples, consumed := [], 0;
    assert Decoded(start, []) == [] by { NothingDecoded(start); }
    for k := 0 to |offers|
      invariant fresh(decoder) && fresh(decoder.codec) && decoder.Valid() && decoder.start == start
      invariant consumed <= arrived == Arrived(offers[..k], |bytes|) && decoder.bytes == bytes[..consumed]
      invariant EndsWithRoom(offers[..k], 10) ==> consumed == arrived
      invariant NeverRoom(offers[..k], 10) ==> consumed == 0
      invariant samples == Decoded(start, decoder.bytes)
    {
      ArrivedNext(offers, |bytes|, k);
      arrived := Min(|bytes|, arrived + offers[k].arriving);
      while decoder.CanProcess(arrived - consumed, offers[k].writeable)
        invariant fresh(decoder) && fresh(decoder.codec) && decoder.Valid() && decoder.start == start
        invariant consumed <= arrived && decoder.bytes == bytes[..consumed]
        invariant NeverRoom(offers[..k + 1], 10) ==> consumed == 0
        invariant samples == Decoded(start, decoder.bytes)
        decreases arrived - consumed
      {
        var output, n := decoder.Process(bytes[consumed..arrived], offers[k].writeable);
        samples := samples + output;
        assert bytes[..consumed] + bytes[consumed..arrived][..n] == bytes[..consumed + n];
        consumed := consumed + n;
      }
    }
    assert offers[..|offers|] == offers;
  }

  lemma NothingDecoded(start: State)
    ensures Decoded(start, []) == []
  {}

  /** Encoder and decoder, each cut up in its own way: the decoded samples are the encoder's predictors. */
  method RunBoth(samples: seq<Int16>, encoding: seq<Offer>, decoding: seq<Offer>)
    returns (decoded: seq<Int16>, pairs: nat)
    ensures pairs <= Arrived(encoding, |samples|) / 2
    ensures EndsWithRoom(encoding, 9) ==> pairs == Arrived(encoding, |samples|) / 2
    ensures |decoded| <= 2 * Arrived(decoding, pairs) <= |samples|
    ensures EndsWithRoom(decoding, 10) ==> |decoded| == 2 * Arrived(decoding, pairs)
    ensures forall i :: 0 <= i < |decoded| ==> decoded[i] == After(START, samples[..i + 1]).predictor
  {
    hide Written, After, AfterPairs, Decoded, DecodedState, CodeByte, Arrived;
    var bytes;
    bytes, pairs := RunEncoder(false, samples, encoding);
    UnsyncedIsCodes(samples, pairs);
    var consumed;
    decoded, consumed := RunDecoder(START, bytes, decoding);
    assert bytes[..consumed] == CodeBytes(samples, 0, consumed);
    AfterNothing(samples);
    Lockstep(samples, 0, consumed);
  }

  lemma AfterNothing(samples: seq<Int16>)
    ensures AfterPairs(samples, 0) == START
  {}
}

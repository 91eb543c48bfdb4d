/**
 src/lib/rtty.cpp: asynchronous start-stop framing. A frame is a space (start), five
 bits from the lowest on, and a mark (stop); anything else is skipped sample by sample.
 */
module Rtty {
  import opened Integers
  import opened Schedules

  type Code = c: int | 0 <= c < 32

  /** A sample above zero is a mark, unless the polarity is inverted. */
  predicate ToBit(sample: real, invert: bool) { (sample > 0.0) != invert }

  function Bits(samples: seq<real>, invert: bool): (bits: seq<bool>)
    ensures |bits| == |samples|
  {
    seq(|samples|, i requires 0 <= i < |samples| => ToBit(samples[i], invert))
  }

  /** The code under a frame: the bit after the start is the lowest. */
  function Word(bits: seq<bool>): (code: Code)
    requires |bits| >= 6
  {
    BitValue(bits[1]) + 2 * BitValue(bits[2]) + 4 * BitValue(bits[3]) + 8 * BitValue(bits[4]) + 16 * BitValue(bits[5])
  }

  /** The code of a frame from its samples: positive ones are marks, or the others if inverted. */
  lemma WordOfSamples(data: seq<real>, invert: bool)
    requires |data| >= 6
    ensures Word(Bits(data, invert)) == (if (data[1] > 0.0) != invert then 1 else 0)
                                        + (if (data[2] > 0.0) != invert then 2 else 0)
                                        + (if (data[3] > 0.0) != invert then 4 else 0)
                                        + (if (data[4] > 0.0) != invert then 8 else 0)
                                        + (if (data[5] > 0.0) != invert then 16 else 0)
  {}

  /** Everything decoded while more than 8 samples are available, and what is left then. */
  function Decoded(bits: seq<bool>): seq<Code> {
    if |bits| <= 8 then []
    else if !bits[0] && bits[6] then [Word(bits)] + Decoded(bits[7..])
    else Decoded(bits[1..])
  }

  function Rest(bits: seq<bool>): seq<bool> {
    if |bits| <= 8 then bits
    else if !bits[0] && bits[6] then Rest(bits[7..])
    else Rest(bits[1..])
  }

  /** Samples that arrive later only continue where the decoder stopped. */
  lemma {:induction false} DecodedAppend(a: seq<bool>, b: seq<bool>)
    ensures Decoded(a + b) == Decoded(a) + Decoded(Rest(a) + b)
    ensures Rest(a + b) == Rest(Rest(a) + b)
    decreases |a|
  {
    hide Word;
    if |a| > 8 {
      if !a[0] && a[6] {
        DecodedAppend(a[7..], b);
        assert (a + b)[7..] == a[7..] + b;
        assert Word(a + b) == Word(a) by { WordPrefix(a, b); }
      } else {
        DecodedAppend(a[1..], b);
        assert (a + b)[1..] == a[1..] + b;
      }
    }
  }

  lemma WordPrefix(a: seq<bool>, b: seq<bool>)
    requires |a| >= 6
    ensures Word(a + b) == Word(a)
  {}

  class RttyDecoder {
    const invert: bool

    constructor (invert: bool)
      ensures this.invert == invert
    {
      this.invert := invert;
    }

    predicate CanProcess(available: nat) { available > 8 }

    /** One frame or one sample. */
    method Process(data: seq<real>) returns (output: seq<Code>, advanced: nat)
      requires CanProcess(|data|)
      ensures 1 <= advanced <= |data|
      ensures Decoded(Bits(data, invert)) == output + Decoded(Bits(data[advanced..], invert))
      ensures Rest(Bits(data, invert)) == Rest(Bits(data[advanced..], invert))
      ensures if (data[0] > 0.0) == invert && (data[6] > 0.0) != invert
              then output == [Word(Bits(data, invert))] && advanced == 7 else output == [] && advanced == 1
    {
      ghost var bits := Bits(data, invert);
      assert Bits(data[7..], invert) == bits[7..] && Bits(data[1..], invert) == bits[1..];
      if !ToBit(data[0], invert) && ToBit(data[6], invert) {
        var word := ReadWord(data);
        output, advanced := [word], 7;
      } else {
        output, advanced := [], 1;
      }
    }

    /** Shifts the bits in from the last to the first. */
    method ReadWord(data: seq<real>) returns (output: Code)
      requires |data| >= 6
      ensures output == Word(Bits(data, invert))
    {
      ghost var bits := Bits(data, invert);
      var word: nat := 0;
      for i := 0 to 5
        invariant word == (match i
                           case 0 => 0
                           case 1 => BitValue(bits[5])
                           case 2 => 2 * BitValue(bits[5]) + BitValue(bits[4])
                           case 3 => 4 * BitValue(bits[5]) + 2 * BitValue(bits[4]) + BitValue(bits[3])
                           case 4 => 8 * BitValue(bits[5]) + 4 * BitValue(bits[4]) + 2 * BitValue(bits[3])
                                     + BitValue(bits[2])
                           case _ => Word(bits))
      {
        word := 2 * word + BitValue(ToBit(data[5 - i], invert));
      }
      output := word;
    }
  }

  /** Any schedule decodes what one pass over all that arrived decodes. */
  method RunRtty(samples: seq<real>, invert: bool, offers: seq<Offer>) returns (out: seq<Code>)
    ensures out == Decoded(Bits(samples[..Arrived(offers, |samples|)], invert))
  {
    hide Decoded, Rest, Bits;
    var decoder := new RttyDecoder(invert);
    out := [];
    var pos, arrived := 0, 0;
    NothingToDecode(invert);
    for k := 0 to |offers|
      invariant arrived == Arrived(offers[..k], |samples|) && pos <= arrived
      invariant out == Decoded(Bits(samples[..arrived], invert))
      invariant Bits(samples[pos..arrived], invert) == Rest(Bits(samples[..arrived], invert))
    {
      ArrivedNext(offers, |samples|, k);
      var next := Min(|samples|, arrived + offers[k].arriving);
      MoreArrived(samples, pos, arrived, next, invert);
      arrived := next;
      while decoder.CanProcess(arrived - pos)
        invariant pos <= arrived
        invariant out + Decoded(Bits(samples[pos..arrived], invert)) == Decoded(Bits(samples[..arrived], invert))
        invariant Rest(Bits(samples[pos..arrived], invert)) == Rest(Bits(samples[..arrived], invert))
        decreases arrived - pos
      {
        var output, advanced := decoder.Process(samples[pos..arrived]);
        assert samples[pos..arrived][advanced..] == samples[pos + advanced..arrived];
        out := out + output;
        pos := pos + advanced;
      }
      TooShort(samples[pos..arrived], invert);
    }
    assert offers[..|offers|] == offers;
  }

  /** Decoding goes on at the samples that were left over. */
  lemma MoreArrived(samples: seq<real>, pos: nat, arrived: nat, next: nat, invert: bool)
    requires pos <= arrived <= next <= |samples|
    requires Bits(samples[pos..arrived], invert) == Rest(Bits(samples[..arrived], invert))
    ensures Decoded(Bits(samples[..next], invert))
         == Decoded(Bits(samples[..arrived], invert)) + Decoded(Bits(samples[pos..next], invert))
    ensures Rest(Bits(samples[pos..next], invert)) == Rest(Bits(samples[..next], invert))
  {
    hide Decoded, Rest, Bits;
    var late := samples[arrived..next];
    assert samples[..next] == samples[..arrived] + late && samples[pos..next] == samples[pos..arrived] + late;
    BitsSplit(samples[..arrived], late, invert);
    BitsSplit(samples[pos..arrived], late, invert);
    DecodedAppend(Bits(samples[..arrived], invert), Bits(late, invert));
  }

  lemma BitsSplit(a: seq<real>, b: seq<real>, invert: bool)
    ensures Bits(a + b, invert) == Bits(a, invert) + Bits(b, invert)
  {}

  lemma NothingToDecode(invert: bool)
    ensures Bits([], invert) == [] && Decoded([]) == [] && Rest([]) == []
  {}

  lemma TooShort(samples: seq<real>, invert: bool)
    requires |samples| <= 8
    ensures Decoded(Bits(samples, invert)) == [] && Rest(Bits(samples, invert)) == Bits(samples, invert)
  {}

  // ----- round trip -----------------------------------------------------------------------

  function Marks(n: nat): (bits: seq<bool>)
    ensures |bits| == n
  {
    seq(n, _ => true)
  }

  /** A code with idling marks before it. */
  datatype Sent = Sent(idle: nat, code: Code)

  function Frame(code: Code): (bits: seq<bool>)
    ensures |bits| == 7
  {
    [false, code % 2 == 1, code / 2 % 2 == 1, code / 2 / 2 % 2 == 1, code / 2 / 2 / 2 % 2 == 1,
     code / 2 / 2 / 2 / 2 % 2 == 1, true]
  }

  function Transmission(frames: seq<Sent>, trailing: nat): seq<bool> {
    if |frames| == 0 then Marks(trailing)
    else Marks(frames[0].idle) + Frame(frames[0].code) + Transmission(frames[1..], trailing)
  }

  /** A code is sent as a space, its bits from the lowest on, and a mark, after its idling marks. */
  lemma TransmissionGrows(idle: nat, code: Code, frames: seq<Sent>, trailing: nat)
    ensures Transmission([], trailing) == seq(trailing, _ => true)
    ensures Transmission([Sent(idle, code)] + frames, trailing)
         == seq(idle, _ => true)
            + [false, code % 2 == 1, code / 2 % 2 == 1, code / 4 % 2 == 1, code / 8 % 2 == 1, code / 16 == 1, true]
            + Transmission(frames, trailing)
  {
    assert ([Sent(idle, code)] + frames)[1..] == frames;
    assert code / 2 / 2 == code / 4 && code / 4 / 2 == code / 8 && code / 8 / 2 == code / 16;
    assert Marks(idle) == seq(idle, _ => true) && Marks(trailing) == seq(trailing, _ => true);
  }

  /** Samples of either polarity that say what is sent. */
  lemma BitsOfSamples(samples: seq<real>, invert: bool, bits: seq<bool>)
    requires |samples| == |bits| && forall i :: 0 <= i < |samples| ==> (samples[i] > 0.0) == (bits[i] != invert)
    ensures Bits(samples, invert) == bits
  {}

  function Codes(frames: seq<Sent>): (codes: seq<Code>)
    ensures |codes| == |frames|
  {
    seq<Code>(|frames|, i requires 0 <= i < |frames| => frames[i].code)
  }

  lemma FrameWord(code: Code, rest: seq<bool>)
    ensures Word(Frame(code) + rest) == code
  {
    WordPrefix(Frame(code), rest);
  }

  lemma {:induction false} SkipMarks(n: nat, rest: seq<bool>)
    requires |rest| > 8
    ensures Decoded(Marks(n) + rest) == Decoded(rest)
  {
    if n == 0 {
      assert Marks(0) + rest == rest;
    } else {
      SkipMarks(n - 1, rest);
      assert (Marks(n) + rest)[1..] == Marks(n - 1) + rest;
    }
  }

  lemma {:induction false} MarksThenTooFew(n: nat, rest: seq<bool>)
    requires |rest| <= 8
    ensures Decoded(Marks(n) + rest) == []
  {
    if n > 0 {
      MarksThenTooFew(n - 1, rest);
      assert (Marks(n) + rest)[1..] == Marks(n - 1) + rest;
    }
  }

  lemma {:induction false} TransmissionLength(frames: seq<Sent>, trailing: nat)
    ensures |Transmission(frames, trailing)| >= trailing
    ensures |frames| > 0 ==> |Transmission(frames, trailing)| >= trailing + 7
  {
    if |frames| > 0 {
      TransmissionLength(frames[1..], trailing);
    }
  }

  /** Framed codes with any idling between them decode to themselves, given two marks to finish. */
  lemma {:induction false} CodesRoundTrip(frames: seq<Sent>, trailing: nat)
    requires trailing >= 2
    ensures Decoded(Transmission(frames, trailing)) == Codes(frames)
  {
    hide Word;
    if |frames| == 0 {
      MarksThenTooFew(trailing, []);
      assert Marks(trailing) + [] == Marks(trailing);
    } else {
      var rest := Transmission(frames[1..], trailing);
      var framed := Frame(frames[0].code) + rest;
      CodesRoundTrip(frames[1..], trailing);
      TransmissionLength(frames[1..], trailing);
      SkipMarks(frames[0].idle, framed);
      assert Marks(frames[0].idle) + Frame(frames[0].code) + rest == Marks(frames[0].idle) + framed;
      FrameWord(frames[0].code, rest);
      assert framed[7..] == rest && !framed[0] && framed[6];
      assert Codes(frames) == [frames[0].code] + Codes(frames[1..]);
    }
  }

  /** With fewer than two trailing marks the last frame waits for a sample that never comes. */
  lemma {:induction false} LastFrameStarves(frames: seq<Sent>, trailing: nat)
    requires |frames| > 0 && trailing < 2
    ensures Decoded(Transmission(frames, trailing)) == Codes(frames[..|frames| - 1])
  {
    hide Word;
    var rest := Transmission(frames[1..], trailing);
    var framed := Frame(frames[0].code) + rest;
    assert Marks(frames[0].idle) + Frame(frames[0].code) + rest == Marks(frames[0].idle) + framed;
    if |frames| == 1 {
      MarksThenTooFew(frames[0].idle, framed);
    } else {
      LastFrameStarves(frames[1..], trailing);
      TransmissionLength(frames[1..], trailing);
      SkipMarks(frames[0].idle, framed);
      FrameWord(frames[0].code, rest);
      assert framed[7..] == rest && !framed[0] && framed[6];
      assert frames[1..][..|frames| - 2] == frames[..|frames| - 1][1..];
      assert Codes(frames[..|frames| - 1]) == [frames[0].code] + Codes(frames[..|frames| - 1][1..]);
    }
  }

  /** When a transmission comes back whole. */
  lemma RoundTripExactly(frames: seq<Sent>, trailing: nat)
    ensures Decoded(Transmission(frames, trailing)) == Codes(frames) <==> frames == [] || trailing >= 2
  {
    if trailing >= 2 {
      CodesRoundTrip(frames, trailing);
    } else if frames == [] {
      MarksThenTooFew(trailing, []);
      assert Marks(trailing) + [] == Marks(trailing);
    } else {
      LastFrameStarves(frames, trailing);
      assert |Codes(frames[..|frames| - 1])| < |Codes(frames)|;
    }
  }

  /**
   The round trip from samples: positive for a mark, or for a space if the polarity is
   inverted, under any schedule that brings all of them.
   */
  method ReceiveCodes(frames: seq<Sent>, trailing: nat, samples: seq<real>, invert: bool, offers: seq<Offer>)
    returns (codes: seq<Code>)
    requires trailing >= 2 && |samples| == |Transmission(frames, trailing)|
    requires forall i :: 0 <= i < |samples| ==> (samples[i] > 0.0) == (Transmission(frames, trailing)[i] != invert)
    requires Arrived(offers, |samples|) == |samples|
    ensures |codes| == |frames| && forall i :: 0 <= i < |frames| ==> codes[i] == frames[i].code
  {
    hide Decoded, Bits, Transmission;
    codes := RunRtty(samples, invert, offers);
    assert samples[..|samples|] == samples;
    BitsOfSamples(samples, invert, Transmission(frames, trailing));
    CodesRoundTrip(frames, trailing);
  }
}

/**
 src/lib/baudot.cpp: five-bit codes with a letters and a figures alphabet (of the family
 of ITU-T Recommendation S.1) and the two codes that switch between them, and the whole
 receiver behind src/lib/rtty.cpp.
 */
module Baudot {
  import opened Integers
  import opened Rtty
  import opened Schedules

  const FIG_SHIFT: Code := 27
  const LTR_SHIFT: Code := 31

  const LETTERS: seq<char> := [
    '\0', 'E', '\n', 'A', ' ', 'S', 'I', 'U', '\r', 'D',
    'R', 'J', 'N', 'F', 'C', 'K', 'T', 'Z', 'L', 'W',
    'H', 'Y', 'P', 'Q', 'O', 'B', 'G', '\0', 'M', 'X',
    'V', '\0'
  ]

  const FIGURES: seq<char> := [
    '\0', '3', '\n', '-', ' ', '\'', '8', '7', '\r', '\0',
    '4', '\U{8}', ',', '!', ':', '(', '5', '+', ')', '2',
    '#', '6', '0', '1', '9', '?', '&', '\0', '.', '/',
    '=', '\0'
  ]

  datatype Mode = Letters | Figures

  function Table(mode: Mode): (table: seq<char>)
    ensures |table| == 32
  {
    if mode.Letters? then LETTERS else FIGURES
  }

  /** The code of a letter, whatever the table says. */
  function LetterCode(c: char): int {
    match c
    case 'A' => 3 case 'B' => 25 case 'C' => 14 case 'D' => 9 case 'E' => 1 case 'F' => 13 case 'G' => 26
    case 'H' => 20 case 'I' => 6 case 'J' => 11 case 'K' => 15 case 'L' => 18 case 'M' => 28 case 'N' => 12
    case 'O' => 24 case 'P' => 22 case 'Q' => 23 case 'R' => 10 case 'S' => 5 case 'T' => 16 case 'U' => 7
    case 'V' => 30 case 'W' => 19 case 'X' => 29 case 'Y' => 21 case 'Z' => 17
    case ' ' => 4 case '\n' => 2 case '\r' => 8
    case _ => -1
  }

  /** The code of a digit or sign. */
  function FigureCode(c: char): int {
    match c
    case '0' => 22 case '1' => 23 case '2' => 19 case '3' => 1 case '4' => 10 case '5' => 16 case '6' => 21
    case '7' => 7 case '8' => 6 case '9' => 24
    case '!' => 13 case '#' => 20 case '&' => 26 case '\'' => 5 case '(' => 15 case ')' => 18 case '+' => 17
    case ',' => 12 case '-' => 3 case '.' => 28 case '/' => 29 case ':' => 14 case '=' => 30 case '?' => 25
    case ' ' => 4 case '\n' => 2 case '\r' => 8 case '\U{8}' => 11
    case _ => -1
  }

  /** The alphabets: what the decoder writes for a code in either mode, other than 27 and 31. */
  lemma AlphabetsSound(mode: Mode, code: Code)
    ensures FIG_SHIFT == 27 && LTR_SHIFT == 31 && (IsShift(code) <==> code == 27 || code == 31)
    ensures !IsShift(code) ==>
              var c := Table(mode)[code];
              if code == 0 || (mode.Figures? && code == 9) then c == '\0' else CodeOf(mode, c) == code
  {
    if mode.Letters? {
      LettersSound(code);
    } else {
      FiguresSound(code);
    }
  }

  function CodeOf(mode: Mode, c: char): int { if mode.Letters? then LetterCode(c) else FigureCode(c) }

  lemma LettersSound(code: Code)
    ensures code == 0 ==> LETTERS[code] == '\0'
    ensures code !in {0, 27, 31} ==> LetterCode(LETTERS[code]) == code
  {}

  lemma FiguresSound(code: Code)
    ensures code == 0 || code == 9 ==> FIGURES[code] == '\0'
    ensures code !in {0, 9, 27, 31} ==> FigureCode(FIGURES[code]) == code
  {}

  predicate IsShift(code: Code) { code == FIG_SHIFT || code == LTR_SHIFT }

  function ModeAfter(mode: Mode, codes: seq<Code>): Mode {
    if |codes| == 0 then mode
    else
      var last := codes[|codes| - 1];
      if last == FIG_SHIFT then Figures else if last == LTR_SHIFT then Letters
      else ModeAfter(mode, codes[..|codes| - 1])
  }

  /** The characters of the codes, each in the alphabet that is switched on when it comes. */
  function Text(mode: Mode, codes: seq<Code>): seq<char> {
    if |codes| == 0 then []
    else
      var before, last := codes[..|codes| - 1], codes[|codes| - 1];
      Text(mode, before) + if IsShift(last) then [] else [Table(ModeAfter(mode, before))[last]]
  }

  lemma CodeStep(mode: Mode, codes: seq<Code>, code: Code)
    ensures ModeAfter(mode, codes + [code])
         == if code == 27 then Figures else if code == 31 then Letters else ModeAfter(mode, codes)
    ensures Text(mode, codes + [code])
         == Text(mode, codes) + if code == 27 || code == 31 then [] else [Table(ModeAfter(mode, codes))[code]]
  {
    hide Table;
    assert (codes + [code])[..|codes|] == codes;
  }

  class BaudotDecoder {
    var mode: Mode
    /** All codes decoded so far. */
    ghost var codes: seq<Code>

    ghost predicate Valid()
      reads this
    {
      mode == ModeAfter(Letters, codes)
    }

    constructor ()
      ensures Valid() && codes == []
    {
      mode := Letters;
      codes := [];
    }

    method Process(input: seq<Code>) returns (output: seq<char>)
      requires Valid()
      modifies this
      ensures Valid() && codes == old(codes) + input
      ensures Text(Letters, codes) == Text(Letters, old(codes)) + output
    {
      hide Table, Text, ModeAfter;
      output := [];
      for i := 0 to |input|
        invariant Valid() && codes == old(codes) + input[..i]
        invariant Text(Letters, codes) == Text(Letters, old(codes)) + output
      {
        CodeStep(Letters, codes, input[i]);
        codes := codes + [input[i]];
        if input[i] == FIG_SHIFT {
          mode := Figures;
        } else if input[i] == LTR_SHIFT {
          mode := Letters;
        } else {
          output := output + [Table(mode)[input[i]]];
        }
      }
    }
  }

  // ----- round trip ------------------------------------------------------------------------

  /** The last code below n for a character in an alphabet, if there is one. */
  function Find(mode: Mode, c: char, n: nat): (code: int)
    requires n <= 32
    ensures -1 <= code < 32
  {
    if n == 0 then -1
    else if !IsShift(n - 1) && Table(mode)[n - 1] == c then n - 1
    else Find(mode, c, n - 1)
  }

  lemma {:induction false} FindsCharacter(mode: Mode, c: char, n: nat)
    requires n <= 32
    ensures var code := Find(mode, c, n); code >= 0 ==> !IsShift(code) && Table(mode)[code] == c
  {
    hide Table;
    if n > 0 {
      FindsCharacter(mode, c, n - 1);
    }
  }

  /** Every character of the alphabets can be sent, and no other. */
  lemma SendableExactly(c: char)
    ensures Sendable(c) <==> LetterCode(c) >= 0 || FigureCode(c) >= 0 || c == '\0'
  {
    hide Find, Table, LetterCode, FigureCode;
    forall mode: Mode ensures Find(mode, c, 32) >= 0 ==> CodeOf(mode, c) >= 0 || c == '\0' {
      FindsCharacter(mode, c, 32);
      if Find(mode, c, 32) >= 0 {
        AlphabetsSound(mode, Find(mode, c, 32));
      }
    }
    FindsCode(Letters, c);
    FindsCode(Figures, c);
  }

  lemma FindsCode(mode: Mode, c: char)
    ensures CodeOf(mode, c) >= 0 || c == '\0' ==> Find(mode, c, 32) >= 0
  {
    hide Find;
    if CodeOf(mode, c) >= 0 {
      CharacterAt(mode, c);
      FindsAny(mode, c, 32, CodeOf(mode, c));
    } else if c == '\0' {
      FindsAny(mode, c, 32, 0);
    }
  }

  lemma CharacterAt(mode: Mode, c: char)
    requires CodeOf(mode, c) >= 0
    ensures CodeOf(mode, c) < 31 && CodeOf(mode, c) != 27 && Table(mode)[CodeOf(mode, c)] == c
  {}

  lemma {:induction false} FindsAny(mode: Mode, c: char, n: nat, code: Code)
    requires code < n <= 32 && !IsShift(code) && Table(mode)[code] == c
    ensures Find(mode, c, n) >= 0
  {
    hide Table;
    if code < n - 1 {
      FindsAny(mode, c, n - 1, code);
    }
  }

  predicate Sendable(c: char) { Find(Letters, c, 32) >= 0 || Find(Figures, c, 32) >= 0 }

  /** A character as codes: as it is if the current alphabet has it, with a shift otherwise. */
  function EncodeCharacter(mode: Mode, c: char): seq<Code>
    requires Sendable(c)
  {
    if Find(mode, c, 32) >= 0 then [Find(mode, c, 32)]
    else if mode.Letters? then [FIG_SHIFT, Find(Figures, c, 32)]
    else [LTR_SHIFT, Find(Letters, c, 32)]
  }

  function EncodeText(mode: Mode, text: seq<char>): seq<Code>
    requires forall i :: 0 <= i < |text| ==> Sendable(text[i])
  {
    if |text| == 0 then []
    else
      var before := EncodeText(mode, text[..|text| - 1]);
      before + EncodeCharacter(ModeAfter(mode, before), text[|text| - 1])
  }

  lemma {:induction false} TextAppend(mode: Mode, a: seq<Code>, b: seq<Code>)
    ensures Text(mode, a + b) == Text(mode, a) + Text(ModeAfter(mode, a), b)
    ensures ModeAfter(mode, a + b) == ModeAfter(ModeAfter(mode, a), b)
    decreases |b|
  {
    hide Table, Text, ModeAfter;
    if |b| == 0 {
      assert a + b == a;
      NoText(ModeAfter(mode, a));
    } else {
      var rest, last := b[..|b| - 1], b[|b| - 1];
      TextAppend(mode, a, rest);
      CodeStep(mode, a + rest, last);
      CodeStep(ModeAfter(mode, a), rest, last);
      assert a + b == a + rest + [last] && b == rest + [last];
    }
  }

  lemma CharacterRoundTrip(mode: Mode, c: char)
    requires Sendable(c)
    ensures Text(mode, EncodeCharacter(mode, c)) == [c]
  {
    hide Table, Find;
    FindsCharacter(Letters, c, 32);
    FindsCharacter(Figures, c, 32);
    var codes := EncodeCharacter(mode, c);
    if |codes| == 1 {
      assert codes[..0] == [];
    } else {
      var shift := [codes[0]];
      assert codes[..1] == shift && shift[..0] == [];
      assert Text(mode, shift) == [];
      assert ModeAfter(mode, shift) == if mode.Letters? then Figures else Letters;
    }
  }

  /** Shift-encoded text comes back unchanged. */
  lemma {:induction false} TextRoundTrip(mode: Mode, text: seq<char>)
    requires forall i :: 0 <= i < |text| ==> Sendable(text[i])
    ensures Text(mode, EncodeText(mode, text)) == text
  {
    hide Table, Find, EncodeCharacter, Sendable, Text, ModeAfter;
    if |text| == 0 {
      NoText(mode);
    } else {
      var before := EncodeText(mode, text[..|text| - 1]);
      TextRoundTrip(mode, text[..|text| - 1]);
      CharacterRoundTrip(ModeAfter(mode, before), text[|text| - 1]);
      TextAppend(mode, before, EncodeCharacter(ModeAfter(mode, before), text[|text| - 1]));
    }
  }

  lemma NoText(mode: Mode)
    ensures Text(mode, []) == [] && ModeAfter(mode, []) == mode
  {}

  /**
   The receiver from samples to text, either polarity, both modules cut up in any way: the
   text that was shift-encoded, framed and sent with any idling comes out unchanged.
   */
  method Receive(text: seq<char>, frames: seq<Sent>, trailing: nat, samples: seq<real>, invert: bool,
                 rtty: seq<Offer>, baudot: seq<Offer>)
    returns (received: seq<char>)
    requires forall i :: 0 <= i < |text| ==> Sendable(text[i])
    requires Codes(frames) == EncodeText(Letters, text) && trailing >= 2
    requires |samples| == |Transmission(frames, trailing)|
    requires forall i :: 0 <= i < |samples| ==> (samples[i] > 0.0) == (Transmission(frames, trailing)[i] != invert)
    requires Arrived(rtty, |samples|) == |samples| && Arrived(baudot, |frames|) == |frames|
    ensures received == text
  {
    hide Table, Text, EncodeText, Transmission, Bits, Arrived, Decoded, Sendable;
    var codes := ReceiveCodes(frames, trailing, samples, invert, rtty);
    assert codes == Codes(frames);
    var decoder := new BaudotDecoder();
    received := [];
    var arrived := 0;
    NoText(Letters);
    assert Arrived(baudot[..0], |codes|) == 0 by { NothingArrived(|codes|); }
    for k := 0 to |baudot|
      invariant fresh(decoder) && decoder.Valid()
      invariant arrived == Arrived(baudot[..k], |codes|) <= |codes|
      invariant decoder.codes == codes[..arrived] && received == Text(Letters, decoder.codes)
    {
      ArrivedNext(baudot, |codes|, k);
      var next := Min(|codes|, arrived + baudot[k].arriving);
      var more := decoder.Process(codes[arrived..next]);
      assert codes[..arrived] + codes[arrived..next] == codes[..next];
      received := received + more;
      arrived := next;
    }
    assert baudot[..|baudot|] == baudot && codes[..|codes|] == codes;
    TextRoundTrip(Letters, text);
  }
}

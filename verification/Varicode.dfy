/**
 src/lib/varicode.cpp: a shift register that is compared with every entry of the
 varicode table after each bit (the PSK31 alphabet of Recommendation ITU-R M.2034). The
 claims: never two matches at once, and text, sent as its codes with two zeros after
 each, comes out unchanged.
 */
module Varicode {
  import opened Integers

  type Ascii = a: int | 0 <= a < 128

  datatype Item = Item(code: nat, bitcount: nat)

  /** The table of include/varicode.hpp, by character, in rows of 16. */
  function Entry(a: Ascii): Item {
    if a < 16 then Controls(a)
    else if a < 32 then MoreControls(a)
    else if a < 48 then Punctuation(a)
    else if a < 64 then Digits(a)
    else if a < 80 then Capitals(a)
    else if a < 96 then MoreCapitals(a)
    else if a < 112 then Letters(a)
    else MoreLetters(a)
  }

  function Controls(a: Ascii): Item {
    match a
    case 0 => Item(683, 10) case 1 => Item(731, 10) case 2 => Item(749, 10) case 3 => Item(887, 10)
    case 4 => Item(747, 10) case 5 => Item(863, 10) case 6 => Item(751, 10) case 7 => Item(765, 10)
    case 8 => Item(767, 10) case 9 => Item(239, 8) case 10 => Item(29, 5) case 11 => Item(879, 10)
    case 12 => Item(733, 10) case 13 => Item(31, 5) case 14 => Item(885, 10)
    case _ => Item(939, 10)
  }

  function MoreControls(a: Ascii): Item {
    match a
    case 16 => Item(759, 10) case 17 => Item(757, 10) case 18 => Item(941, 10) case 19 => Item(943, 10)
    case 20 => Item(859, 10) case 21 => Item(875, 10) case 22 => Item(877, 10) case 23 => Item(855, 10)
    case 24 => Item(891, 10) case 25 => Item(893, 10) case 26 => Item(951, 10) case 27 => Item(853, 10)
    case 28 => Item(861, 10) case 29 => Item(955, 10) case 30 => Item(763, 10)
    case _ => Item(895, 10)
  }

  function Punctuation(a: Ascii): Item {
    match a
    case 32 => Item(1, 1) case 33 => Item(511, 9) case 34 => Item(351, 9) case 35 => Item(501, 9)
    case 36 => Item(475, 9) case 37 => Item(725, 10) case 38 => Item(699, 10) case 39 => Item(383, 9)
    case 40 => Item(251, 8) case 41 => Item(247, 8) case 42 => Item(367, 9) case 43 => Item(479, 9)
    case 44 => Item(117, 7) case 45 => Item(53, 6) case 46 => Item(87, 7)
    case _ => Item(431, 9)
  }

  function Digits(a: Ascii): Item {
    match a
    case 48 => Item(183, 8) case 49 => Item(189, 8) case 50 => Item(237, 8) case 51 => Item(255, 8)
    case 52 => Item(375, 9) case 53 => Item(347, 9) case 54 => Item(363, 9) case 55 => Item(429, 9)
    case 56 => Item(427, 9) case 57 => Item(439, 9) case 58 => Item(245, 8) case 59 => Item(445, 9)
    case 60 => Item(493, 9) case 61 => Item(85, 7) case 62 => Item(471, 9)
    case _ => Item(687, 10)
  }

  function Capitals(a: Ascii): Item {
    match a
    case 64 => Item(701, 10) case 65 => Item(125, 7) case 66 => Item(235, 8) case 67 => Item(173, 8)
    case 68 => Item(181, 8) case 69 => Item(119, 7) case 70 => Item(219, 8) case 71 => Item(253, 8)
    case 72 => Item(341, 9) case 73 => Item(127, 7) case 74 => Item(509, 9) case 75 => Item(381, 9)
    case 76 => Item(215, 8) case 77 => Item(187, 8) case 78 => Item(221, 8)
    case _ => Item(171, 8)
  }

  function MoreCapitals(a: Ascii): Item {
    match a
    case 80 => Item(213, 8) case 81 => Item(477, 9) case 82 => Item(175, 8) case 83 => Item(111, 7)
    case 84 => Item(109, 7) case 85 => Item(343, 9) case 86 => Item(437, 9) case 87 => Item(349, 9)
    case 88 => Item(373, 9) case 89 => Item(379, 9) case 90 => Item(685, 10) case 91 => Item(503, 9)
    case 92 => Item(495, 9) case 93 => Item(507, 9) case 94 => Item(703, 10)
    case _ => Item(365, 9)
  }

  function Letters(a: Ascii): Item {
    match a
    case 96 => Item(735, 10) case 97 => Item(11, 4) case 98 => Item(95, 7) case 99 => Item(47, 6)
    case 100 => Item(45, 6) case 101 => Item(3, 2) case 102 => Item(61, 6) case 103 => Item(91, 7)
    case 104 => Item(43, 6) case 105 => Item(13, 4) case 106 => Item(491, 9) case 107 => Item(191, 8)
    case 108 => Item(27, 5) case 109 => Item(59, 6) case 110 => Item(15, 4)
    case _ => Item(7, 3)
  }

  function MoreLetters(a: Ascii): Item {
    match a
    case 112 => Item(63, 6) case 113 => Item(447, 9) case 114 => Item(21, 5) case 115 => Item(23, 5)
    case 116 => Item(5, 3) case 117 => Item(55, 6) case 118 => Item(123, 7) case 119 => Item(107, 7)
    case 120 => Item(223, 8) case 121 => Item(93, 7) case 122 => Item(469, 9) case 123 => Item(695, 10)
    case 124 => Item(443, 9) case 125 => Item(693, 10) case 126 => Item(727, 10)
    case _ => Item(949, 10)
  }

  /** The character that a code stands for, if it is one. */
  function Character(code: nat): int {
    if code < 55 then CharacterFrom1(code)
    else if code < 127 then CharacterFrom55(code)
    else if code < 239 then CharacterFrom127(code)
    else if code < 379 then CharacterFrom239(code)
    else if code < 491 then CharacterFrom379(code)
    else if code < 725 then CharacterFrom491(code)
    else if code < 861 then CharacterFrom725(code)
    else CharacterFrom861(code)
  }

  function CharacterFrom1(code: nat): int {
    match code
    case 1 => 32 case 3 => 101 case 5 => 116 case 7 => 111 case 11 => 97 case 13 => 105 case 15 => 110 case 21 => 114
    case 23 => 115 case 27 => 108 case 29 => 10 case 31 => 13
    case 43 => 104 case 45 => 100 case 47 => 99 case 53 => 45
    case _ => -1
  }

  function CharacterFrom55(code: nat): int {
    match code
    case 55 => 117 case 59 => 109 case 61 => 102 case 63 => 112
    case 85 => 61 case 87 => 46 case 91 => 103 case 93 => 121
    case 95 => 98 case 107 => 119 case 109 => 84 case 111 => 83
    case 117 => 44 case 119 => 69 case 123 => 118 case 125 => 65
    case _ => -1
  }

  function CharacterFrom127(code: nat): int {
    match code
    case 127 => 73 case 171 => 79 case 173 => 67 case 175 => 82
    case 181 => 68 case 183 => 48 case 187 => 77 case 189 => 49
    case 191 => 107 case 213 => 80 case 215 => 76 case 219 => 70
    case 221 => 78 case 223 => 120 case 235 => 66 case 237 => 50
    case _ => -1
  }

  function CharacterFrom239(code: nat): int {
    match code
    case 239 => 9 case 245 => 58 case 247 => 41 case 251 => 40
    case 253 => 71 case 255 => 51 case 341 => 72 case 343 => 85
    case 347 => 53 case 349 => 87 case 351 => 34 case 363 => 54
    case 365 => 95 case 367 => 42 case 373 => 88 case 375 => 52
    case _ => -1
  }

  function CharacterFrom379(code: nat): int {
    match code
    case 379 => 89 case 381 => 75 case 383 => 39 case 427 => 56
    case 429 => 55 case 431 => 47 case 437 => 86 case 439 => 57
    case 443 => 124 case 445 => 59 case 447 => 113 case 469 => 122
    case 471 => 62 case 475 => 36 case 477 => 81 case 479 => 43
    case _ => -1
  }

  function CharacterFrom491(code: nat): int {
    match code
    case 491 => 106 case 493 => 60 case 495 => 92 case 501 => 35
    case 503 => 91 case 507 => 93 case 509 => 74 case 511 => 33
    case 683 => 0 case 685 => 90 case 687 => 63 case 693 => 125
    case 695 => 123 case 699 => 38 case 701 => 64 case 703 => 94
    case _ => -1
  }

  function CharacterFrom725(code: nat): int {
    match code
    case 725 => 37 case 727 => 126 case 731 => 1 case 733 => 12
    case 735 => 96 case 747 => 4 case 749 => 2 case 751 => 6
    case 757 => 17 case 759 => 16 case 763 => 30 case 765 => 7
    case 767 => 8 case 853 => 27 case 855 => 23 case 859 => 20
    case _ => -1
  }

  function CharacterFrom861(code: nat): int {
    match code
    case 861 => 28 case 863 => 5 case 875 => 21 case 877 => 22
    case 879 => 11 case 885 => 14 case 887 => 3 case 891 => 24
    case 893 => 25 case 895 => 31 case 939 => 15 case 941 => 18
    case 943 => 19 case 949 => 127 case 951 => 26 case 955 => 29
    case _ => -1
  }

  /** The last bitcount + 4 bits of the register are 00, the code, 00. */
  predicate Matches(register: nat, item: Item) {
    register % Pow2(item.bitcount + 4) == 4 * item.code
  }

  /** A match, bit field by bit field: two zeros, the code, two zeros. */
  lemma MatchExactly(register: nat, item: Item)
    requires item.code < Pow2(item.bitcount)
    ensures Matches(register, item)
       <==> register % 4 == 0 && register / 4 % Pow2(item.bitcount) == item.code
            && register / 4 / Pow2(item.bitcount) % 4 == 0
  {
    hide Pow2;
    var p, field := Pow2(item.bitcount), register / 4;
    Pow2Add(item.bitcount, 4);
    Powers();
    DivBounds(field, p);
    DivBounds(field / p, 4);
    var low, gap, high := field % p, field / p % 4, field / p / 4;
    assert field == (high * 4 + gap) * p + low;
    assert register == high * (16 * p) + (4 * (gap * p + low) + register % 4) by {
      assert (high * 4 + gap) * p == high * 4 * p + gap * p;
      assert 4 * (high * 4 * p) == high * (16 * p);
    }
    ProductMonotone(gap, 3, p);
    ProductMonotone(0, gap, p);
    DivModUnique(register, 16 * p, high, 4 * (gap * p + low) + register % 4);
    if gap >= 1 {
      ProductMonotone(1, gap, p);
    }
  }

  // ----- the table ----------------------------------------------------------------------

  /** The number of bits up to the leading one, for what fits in ten bits. */
  function Width(code: nat): nat {
    if code < 2 then 1 else if code < 4 then 2 else if code < 8 then 3 else if code < 16 then 4
    else if code < 32 then 5 else if code < 64 then 6 else if code < 128 then 7 else if code < 256 then 8
    else if code < 512 then 9 else 10
  }

  /** The code fills its bits, begins and ends with a one, and holds no two zeros in a row. */
  predicate WellFormed(item: Item) {
    && item.code % 2 == 1 && item.code < 1024 && item.bitcount == Width(item.code)
    && item.code % 4 != 0
    && (item.code < 2 || item.code / 2 % 4 != 0)
    && (item.code < 4 || item.code / 4 % 4 != 0)
    && (item.code < 8 || item.code / 8 % 4 != 0)
    && (item.code < 16 || item.code / 16 % 4 != 0)
    && (item.code < 32 || item.code / 32 % 4 != 0)
    && (item.code < 64 || item.code / 64 % 4 != 0)
    && (item.code < 128 || item.code / 128 % 4 != 0)
    && (item.code < 256 || item.code / 256 % 4 != 0)
  }

  ghost predicate Sound(a: Ascii) {
    WellFormed(Entry(a)) && Character(Entry(a).code) == a
  }

  // The table is checked entry by entry, eight of its 128 at a time: the cost of a larger
  // piece grows much faster than its size.

  lemma TableSound0(a: Ascii)
    requires 0 <= a < 8
    ensures Sound(a)
  {}

  lemma TableSound8(a: Ascii)
    requires 8 <= a < 16
    ensures Sound(a)
  {}

  lemma TableSound16(a: Ascii)
    requires 16 <= a < 24
    ensures Sound(a)
  {}

  lemma TableSound24(a: Ascii)
    requires 24 <= a < 32
    ensures Sound(a)
  {}

  lemma TableSound32(a: Ascii)
    requires 32 <= a < 40
    ensures Sound(a)
  {}

  lemma TableSound40(a: Ascii)
    requires 40 <= a < 48
    ensures Sound(a)
  {}

  lemma TableSound48(a: Ascii)
    requires 48 <= a < 56
    ensures Sound(a)
  {}

  lemma TableSound56(a: Ascii)
    requires 56 <= a < 64
    ensures Sound(a)
  {}

  lemma TableSound64(a: Ascii)
    requires 64 <= a < 72
    ensures Sound(a)
  {}

  lemma TableSound72(a: Ascii)
    requires 72 <= a < 80
    ensures Sound(a)
  {}

  lemma TableSound80(a: Ascii)
    requires 80 <= a < 88
    ensures Sound(a)
  {}

  lemma TableSound88(a: Ascii)
    requires 88 <= a < 96
    ensures Sound(a)
  {}

  lemma TableSound96(a: Ascii)
    requires 96 <= a < 104
    ensures Sound(a)
  {}

  lemma TableSound104(a: Ascii)
    requires 104 <= a < 112
    ensures Sound(a)
  {}

  lemma TableSound112(a: Ascii)
    requires 112 <= a < 120
    ensures Sound(a)
  {}

  lemma TableSound120(a: Ascii)
    requires 120 <= a < 128
    ensures Sound(a)
  {}

  /** Every entry is well formed, and no two characters share a code. */
  lemma TableSound(a: Ascii)
    ensures Sound(a)
  {
    hide Sound;
    if a < 8 {
      TableSound0(a);
    } else if a < 16 {
      TableSound8(a);
    } else if a < 24 {
      TableSound16(a);
    } else if a < 32 {
      TableSound24(a);
    } else if a < 40 {
      TableSound32(a);
    } else if a < 48 {
      TableSound40(a);
    } else if a < 56 {
      TableSound48(a);
    } else if a < 64 {
      TableSound56(a);
    } else if a < 72 {
      TableSound64(a);
    } else if a < 80 {
      TableSound72(a);
    } else if a < 88 {
      TableSound80(a);
    } else if a < 96 {
      TableSound88(a);
    } else if a < 104 {
      TableSound96(a);
    } else if a < 112 {
      TableSound104(a);
    } else if a < 120 {
      TableSound112(a);
    } else {
      TableSound120(a);
    }
  }

  // ----- at most one match --------------------------------------------------------------

  /** What the bounds of a well-formed code are in powers of two. */
  lemma CodeBounds(item: Item)
    requires WellFormed(item)
    ensures 1 <= item.bitcount <= 10
    ensures Pow2(item.bitcount - 1) <= item.code < Pow2(item.bitcount)
  {
    Powers();
  }

  lemma Powers()
    ensures Pow2(0) == 1 && Pow2(1) == 2 && Pow2(2) == 4 && Pow2(3) == 8 && Pow2(4) == 16 && Pow2(5) == 32
    ensures Pow2(6) == 64 && Pow2(7) == 128 && Pow2(8) == 256 && Pow2(9) == 512 && Pow2(10) == 1024
  {}

  /** No prefix of a well-formed code ends in two zeros. */
  lemma PrefixHasNoGap(item: Item, k: nat)
    requires WellFormed(item) && k < item.bitcount
    ensures item.code / Pow2(k) % 4 != 0
    ensures item.code / Pow2(k) > 0
  {
    Powers();
  }

  /** A match of a longer code pins a shorter one's separators inside it, where there is no gap. */
  lemma MatchesAgree(register: nat, short: Item, long: Item)
    requires WellFormed(short) && WellFormed(long) && short.bitcount <= long.bitcount
    requires Matches(register, short) && Matches(register, long)
    ensures short == long
  {
    hide WellFormed, Pow2;
    var m, n := short.bitcount, long.bitcount;
    CodeBounds(short);
    CodeBounds(long);
    Pow2Add(n - m, m + 4);
    ModOfMod(register, Pow2(m + 4), Pow2(n - m));
    assert 4 * long.code % Pow2(m + 4) == 4 * short.code;
    if m < n {
      PrefixHasNoGap(long, m);
      Pow2Add(4, m);
      Powers();
      SeparatorsInside(long.code, short.code, Pow2(m));
    } else {
      Pow2Add(4, m);
      Powers();
      SmallMod(4 * long.code, Pow2(m + 4));
    }
  }

  lemma SeparatorsInside(long: nat, short: nat, power: nat)
    requires power > 0 && short < power && 4 * long % (16 * power) == 4 * short
    ensures long / power % 4 == 0
  {
    var q := 4 * long / (16 * power);
    DivBounds(4 * long, 16 * power);
    assert q * (16 * power) == 4 * (4 * q * power);
    assert long == 4 * q * power + short;
    DivModUnique(long, power, 4 * q, short);
  }

  /** On every bit stream at most one entry of the table matches. */
  lemma AtMostOneMatch(register: nat, a: Ascii, b: Ascii)
    requires Matches(register, Entry(a)) && Matches(register, Entry(b))
    ensures a == b
  {
    hide WellFormed, Matches, Entry, Character;
    TableSound(a);
    TableSound(b);
    if Entry(a).bitcount <= Entry(b).bitcount {
      MatchesAgree(register, Entry(a), Entry(b));
    } else {
      MatchesAgree(register, Entry(b), Entry(a));
    }
  }

  /** A match ends in exactly two zeros. */
  lemma MatchEnds(register: nat, a: Ascii)
    requires Matches(register, Entry(a))
    ensures register % 8 == 4
    ensures register % 4096 != 0
  {
    hide WellFormed, Entry, Character, Pow2;
    TableSound(a);
    var item := Entry(a);
    OddCode(item);
    FourTimesOdd(item.code);
    Pow2Add(item.bitcount + 1, 3);
    Powers();
    ModOfMod(register, 8, Pow2(item.bitcount + 1));
    MultiplesOf4096(register);
  }

  lemma FourTimesOdd(code: nat)
    requires code % 2 == 1
    ensures 4 * code % 8 == 4
  {}

  lemma MultiplesOf4096(register: nat)
    requires register % 8 == 4
    ensures register % 4096 != 0
  {
    ModOfMod(register, 8, 512);
  }

  lemma OddCode(item: Item)
    requires WellFormed(item)
    ensures item.code % 2 == 1
  {}

  // ----- the decoder ---------------------------------------------------------------------

  /** The characters of the first n entries that match. */
  function MatchesUpTo(register: nat, n: nat): seq<Ascii>
    requires n <= 128
  {
    if n == 0 then []
    else MatchesUpTo(register, n - 1) + if Matches(register, Entry(n - 1)) then [n - 1] else []
  }

  lemma {:induction false} OneMatch(register: nat, n: nat, a: Ascii)
    requires n <= 128 && Matches(register, Entry(a))
    ensures MatchesUpTo(register, n) == if a < n then [a] else []
  {
    hide Matches, Entry;
    if n > 0 {
      OneMatch(register, n - 1, a);
      if Matches(register, Entry(n - 1)) {
        AtMostOneMatch(register, n - 1, a);
      }
    }
  }

  lemma {:induction false} NoMatch(register: nat, n: nat)
    requires n <= 128 && register % 8 != 4
    ensures MatchesUpTo(register, n) == []
  {
    hide Matches, Entry;
    if n > 0 {
      NoMatch(register, n - 1);
      if Matches(register, Entry(n - 1)) {
        MatchEnds(register, n - 1);
      }
    }
  }

  /** What the decoder writes when the register has this value. */
  function Emitted(register: nat): seq<Ascii> { MatchesUpTo(register, 128) }

  lemma Silent(register: nat)
    requires register % 8 != 4
    ensures Emitted(register) == []
  {
    NoMatch(register, 128);
  }

  lemma Speaks(register: nat, a: Ascii)
    requires Matches(register, Entry(a))
    ensures Emitted(register) == [a]
  {
    OneMatch(register, 128, a);
  }

  /** A character is written exactly if its entry matches, and alone. */
  lemma EmittedExactly(register: nat, a: Ascii)
    ensures Matches(register, Entry(a)) <==> Emitted(register) == [a]
    ensures Emitted(register) != [] ==> exists b: Ascii :: Emitted(register) == [b]
  {
    hide Matches, Entry;
    if Matches(register, Entry(a)) {
      Speaks(register, a);
    }
    if Emitted(register) != [] {
      var b := Emitted(register)[0];
      EmittedMatches(register, 128, 0);
      Speaks(register, b);
    }
  }

  lemma {:induction false} EmittedMatches(register: nat, n: nat, i: nat)
    requires n <= 128 && i < |MatchesUpTo(register, n)|
    ensures Matches(register, Entry(MatchesUpTo(register, n)[i]))
  {
    hide Matches, Entry;
    if n > 0 && i < |MatchesUpTo(register, n - 1)| {
      EmittedMatches(register, n - 1, i);
    }
  }

  /** The register ends in two zeros. */
  predicate AtRest(register: nat) { register % 4 == 0 }

  lemma RestGoesOn(register: nat)
    requires AtRest(register)
    ensures AtRest(2 * register) && Emitted(2 * register) == []
  {
    Silent(2 * register);
  }

  /** The unbounded register after some bits. */
  function Shifted(register: nat, bits: seq<bool>): nat {
    if |bits| == 0 then register else 2 * Shifted(register, bits[..|bits| - 1]) + BitValue(bits[|bits| - 1])
  }

  /** Everything written while the bits come in. */
  function Output(register: nat, bits: seq<bool>): seq<Ascii> {
    if |bits| == 0 then [] else Output(register, bits[..|bits| - 1]) + Emitted(Shifted(register, bits))
  }

  /** The 64-bit register holds all the bits a match looks at. */
  lemma WordIsEnough(register: nat, a: Ascii)
    ensures Matches(register % WORD, Entry(a)) == Matches(register, Entry(a))
    ensures register % WORD % 4096 == register % 4096
  {
    hide WellFormed, Entry, Character, Pow2;
    TableSound(a);
    var item := Entry(a);
    CodeBounds(item);
    Pow2Add(60 - item.bitcount, item.bitcount + 4);
    Pow2Of64();
    ModOfMod(register, Pow2(item.bitcount + 4), Pow2(60 - item.bitcount));
    ModOfMod(register, 4096, 0x10_0000_0000_0000);
  }

  lemma Pow2Of64()
    ensures Pow2(64) == WORD
  {
    Powers();
    Pow2Add(10, 10);
    Pow2Add(20, 10);
    Pow2Add(30, 30);
    Pow2Add(60, 4);
  }

  class VaricodeDecoder {
    var status: nat
    /** All bits shifted in so far. */
    ghost var bits: seq<bool>

    ghost predicate Valid()
      reads this
    {
      status == Shifted(0, bits) % WORD
    }

    constructor ()
      ensures Valid() && bits == []
    {
      status := 0;
      bits := [];
    }

    /** Only the lowest bit of a symbol counts. */
    method Process(symbol: nat) returns (output: seq<Ascii>)
      requires Valid()
      modifies this
      ensures Valid() && bits == old(bits) + [symbol % 2 == 1]
      ensures output == Emitted(Shifted(0, bits))
    {
      hide Matches, Entry;
      ghost var before := Shifted(0, bits);
      bits := bits + [symbol % 2 == 1];
      assert bits[..|bits| - 1] == old(bits);
      ghost var register := Shifted(0, bits);
      ShiftedWord(before, symbol % 2);
      status := (2 * status + symbol % 2) % WORD;
      output := [];
      WordIsEnough(register, 0);
      if status % 4096 == 0 {
        NoMatch(register, 128);
        return;
      }
      for n := 0 to 128
        invariant Valid() && Shifted(0, bits) == register
        invariant bits == old(bits) + [symbol % 2 == 1]
        invariant output == MatchesUpTo(register, n)
      {
        WordIsEnough(register, n);
        if Matches(status, Entry(n)) {
          output := output + [n];
        }
      }
    }
  }

  lemma ShiftedWord(register: nat, bit: nat)
    ensures (2 * (register % WORD) + bit) % WORD == (2 * register + bit) % WORD
  {
    DivBounds(register, WORD);
    DivModShift(2 * (register % WORD) + bit, WORD, 2 * (register / WORD));
  }

  // ----- round trip ------------------------------------------------------------------------

  /** The leading k bits of a code. */
  function CodePrefix(item: Item, k: nat): (bits: seq<bool>)
    requires k <= item.bitcount
    ensures |bits| == k
  {
    if k == 0 then [] else CodePrefix(item, k - 1) + [item.code / Pow2(item.bitcount - k) % 2 == 1]
  }

  function CodeOf(a: Ascii): seq<bool> { CodePrefix(Entry(a), Entry(a).bitcount) }

  function Idle(n: nat): seq<bool> { seq(n, _ => false) }

  /** A character with its two separator zeros, and more zeros of idling after it. */
  datatype Sent = Sent(ascii: Ascii, idle: nat)

  function Transmission(text: seq<Sent>): seq<bool> {
    if |text| == 0 then []
    else Transmission(text[..|text| - 1]) + CodeOf(text[|text| - 1].ascii) + Idle(2 + text[|text| - 1].idle)
  }

  /** A character is sent as the bits of its code from the highest on, and at least two zeros. */
  lemma TransmissionGrows(text: seq<Sent>, a: Ascii, idle: nat)
    ensures Transmission([]) == []
    ensures Transmission(text + [Sent(a, idle)]) == Transmission(text) + CodeOf(a) + seq(2 + idle, _ => false)
    ensures |CodeOf(a)| == Entry(a).bitcount
    ensures forall i :: 0 <= i < |CodeOf(a)| ==>
              (CodeOf(a)[i] <==> Entry(a).code / Pow2(Entry(a).bitcount - 1 - i) % 2 == 1)
  {
    hide Entry, Pow2;
    assert (text + [Sent(a, idle)])[..|text|] == text;
    assert Idle(2 + idle) == seq(2 + idle, _ => false);
    forall i | 0 <= i < |CodeOf(a)|
      ensures CodeOf(a)[i] <==> Entry(a).code / Pow2(Entry(a).bitcount - 1 - i) % 2 == 1
    {
      CodeBit(Entry(a), Entry(a).bitcount, i);
    }
  }

  lemma {:induction false} CodeBit(item: Item, k: nat, i: nat)
    requires i < k <= item.bitcount
    ensures CodePrefix(item, k)[i] <==> item.code / Pow2(item.bitcount - 1 - i) % 2 == 1
  {
    hide Pow2;
    if i < k - 1 {
      CodeBit(item, k - 1, i);
    }
  }

  /** Some entries as they are in print: the space, e, t, a, and the capital E. */
  lemma Landmarks()
    ensures Entry(32) == Item(1, 1) && Entry('e' as int) == Item(3, 2) && Entry('t' as int) == Item(5, 3)
    ensures Entry('a' as int) == Item(11, 4) && Entry('E' as int) == Item(119, 7)
    ensures BitValue(false) == 0 && BitValue(true) == 1
  {}

  function Characters(text: seq<Sent>): seq<Ascii> {
    seq(|text|, i requires 0 <= i < |text| => text[i].ascii)
  }

  lemma {:induction false} OutputAppend(register: nat, a: seq<bool>, b: seq<bool>)
    ensures Shifted(register, a + b) == Shifted(Shifted(register, a), b)
    ensures Output(register, a + b) == Output(register, a) + Output(Shifted(register, a), b)
    decreases b
  {
    hide Emitted;
    if |b| == 0 {
      assert a + b == a;
    } else {
      OutputAppend(register, a, b[..|b| - 1]);
      assert (a + b)[..|a + b| - 1] == a + b[..|b| - 1];
    }
  }

  lemma OutputStep(register: nat, bits: seq<bool>, bit: bool)
    ensures Shifted(register, bits + [bit]) == 2 * Shifted(register, bits) + BitValue(bit)
    ensures Output(register, bits + [bit]) == Output(register, bits) + Emitted(Shifted(register, bits + [bit]))
  {
    hide Emitted;
    assert (bits + [bit])[..|bits|] == bits;
  }

  /** The register after the leading k bits of a code. */
  function Pushed(register: nat, item: Item, k: nat): nat
    requires k <= item.bitcount
  {
    ProductMonotone(0, register, Pow2(k));
    DivMonotone(0, item.code, Pow2(item.bitcount - k));
    register * Pow2(k) + item.code / Pow2(item.bitcount - k)
  }

  lemma PushedNothing(register: nat, item: Item)
    requires WellFormed(item)
    ensures Pushed(register, item, 0) == register
  {
    hide WellFormed;
    CodeBounds(item);
    SmallMod(item.code, Pow2(item.bitcount));
  }

  lemma PushedAll(register: nat, item: Item)
    ensures Pushed(register, item, item.bitcount) == register * Pow2(item.bitcount) + item.code
  {
    assert Pow2(0) == 1;
  }

  lemma PushedNext(register: nat, item: Item, k: nat)
    requires k < item.bitcount
    ensures Pushed(register, item, k + 1)
         == 2 * Pushed(register, item, k) + BitValue(item.code / Pow2(item.bitcount - (k + 1)) % 2 == 1)
  {
    HalfDivision(item.code, Pow2(item.bitcount - (k + 1)));
    assert Pow2(item.bitcount - k) == 2 * Pow2(item.bitcount - (k + 1));
    DoubledProduct(register, Pow2(k));
  }

  lemma DoubledProduct(a: nat, b: nat)
    ensures a * (2 * b) == 2 * (a * b)
  {}

  /** A prefix of a code is not at a separator. */
  lemma PushedSilent(register: nat, item: Item, k: nat)
    requires WellFormed(item) && AtRest(register) && 0 < k <= item.bitcount
    ensures Emitted(Pushed(register, item, k)) == []
  {
    hide WellFormed, Pow2, Emitted;
    PrefixHasNoGap(item, item.bitcount - k);
    MultipleOfFour(register, Pow2(k));
    Silent(Pushed(register, item, k));
  }

  lemma MultipleOfFour(register: nat, factor: nat)
    requires AtRest(register)
    ensures register * factor % 4 == 0
  {
    var r := register / 4;
    assert register * factor == (r * factor) * 4;
    DivModUnique(register * factor, 4, r * factor, 0);
  }

  lemma CodePrefixStep(item: Item, k: nat)
    requires k <= item.bitcount
    ensures CodePrefix(item, k)
         == if k == 0 then [] else CodePrefix(item, k - 1) + [item.code / Pow2(item.bitcount - k) % 2 == 1]
  {}

  /** After two zeros, the bits of a code push its prefixes into the register and write nothing. */
  lemma {:induction false} PrefixSilent(register: nat, item: Item, k: nat)
    requires WellFormed(item) && AtRest(register) && k <= item.bitcount
    ensures Shifted(register, CodePrefix(item, k)) == Pushed(register, item, k)
    ensures Output(register, CodePrefix(item, k)) == []
    decreases k
  {
    hide *;
    CodePrefixStep(item, k);
    if k == 0 {
      PushedNothing(register, item);
      NoBits(register);
    } else {
      PrefixSilent(register, item, k - 1);
      PushedNext(register, item, k - 1);
      PushedSilent(register, item, k);
      OutputStep(register, CodePrefix(item, k - 1), item.code / Pow2(item.bitcount - k) % 2 == 1);
    }
  }

  lemma HalfDivision(code: nat, power: nat)
    requires power > 0
    ensures code / power == 2 * (code / (2 * power)) + code / power % 2
  {
    var q := code / (2 * power);
    DivBounds(code, 2 * power);
    var r := code % (2 * power);
    assert code == q * 2 * power + r;
    DivModShift(r, power, 2 * q);
    if r < power {
      SmallMod(r, power);
    } else {
      DivModUnique(r, power, 1, r - power);
    }
  }

  lemma {:induction false} IdleSilent(register: nat, n: nat)
    requires AtRest(register)
    ensures Output(register, Idle(n)) == [] && AtRest(Shifted(register, Idle(n)))
  {
    hide Emitted, AtRest;
    if n > 0 {
      IdleSilent(register, n - 1);
      assert Idle(n) == Idle(n - 1) + [false];
      OutputStep(register, Idle(n - 1), false);
      RestGoesOn(Shifted(register, Idle(n - 1)));
    }
  }

  /** A code and its first separator write nothing; the second one writes the character. */
  lemma CharacterSent(register: nat, a: Ascii)
    requires AtRest(register)
    ensures Output(register, CodeOf(a) + [false]) == []
    ensures Output(register, CodeOf(a) + [false] + [false]) == [a]
    ensures AtRest(Shifted(register, CodeOf(a) + [false] + [false]))
  {
    hide WellFormed, Emitted, Pow2, Entry, Character, Matches, Pushed, AtRest;
    TableSound(a);
    var item := Entry(a);
    PrefixSilent(register, item, item.bitcount);
    OutputStep(register, CodeOf(a), false);
    OutputStep(register, CodeOf(a) + [false], false);
    WholeCode(register, item);
    var sent := Pushed(register, item, item.bitcount);
    Silent(2 * sent);
    Speaks(4 * sent, a);
    FourTimes(sent);
  }

  lemma FourTimes(n: nat)
    ensures AtRest(4 * n) && 2 * (2 * n) == 4 * n
  {}

  /** One zero after a code nothing matches yet; after two the code does. */
  lemma WholeCode(register: nat, item: Item)
    requires WellFormed(item) && AtRest(register)
    ensures 2 * Pushed(register, item, item.bitcount) % 8 != 4
    ensures Matches(4 * Pushed(register, item, item.bitcount), item)
  {
    hide WellFormed, Pow2, Pushed;
    CodeBounds(item);
    OddCode(item);
    Powers();
    Pow2Add(4, item.bitcount);
    PushedAll(register, item);
    MultipleOfFour(register, Pow2(item.bitcount));
    CodeInRegister(register, Pow2(item.bitcount), item.code);
  }

  lemma CodeInRegister(register: nat, power: nat, code: nat)
    requires AtRest(register) && code < power
    ensures 4 * (register * power + code) % (16 * power) == 4 * code
  {
    var r := register / 4;
    assert 4 * (register * power) == r * (16 * power);
    DivModUnique(4 * (register * power + code), 16 * power, r, 4 * code);
  }

  /**
   Round trip: from any register that ends in two zeros, text with any idling between the
   characters comes out as it was, and the register ends in two zeros again.
   */
  lemma {:induction false} TextRoundTrip(register: nat, text: seq<Sent>)
    requires AtRest(register)
    ensures Output(register, Transmission(text)) == Characters(text)
    ensures AtRest(Shifted(register, Transmission(text)))
  {
    hide CodeOf, Idle, Emitted, AtRest, Shifted, Output;
    if |text| == 0 {
      NoBits(register);
    } else {
      var before, last := text[..|text| - 1], text[|text| - 1];
      TextRoundTrip(register, before);
      var r := Shifted(register, Transmission(before));
      var code := CodeOf(last.ascii) + [false] + [false];
      CharacterSent(r, last.ascii);
      IdleSilent(Shifted(r, code), last.idle);
      OutputAppend(r, code, Idle(last.idle));
      OutputAppend(register, Transmission(before), code + Idle(last.idle));
      IdleSplit(last.idle);
      assert Transmission(text) == Transmission(before) + (code + Idle(last.idle));
      assert Characters(text) == Characters(before) + [last.ascii];
    }
  }

  lemma NoBits(register: nat)
    ensures Output(register, []) == [] && Shifted(register, []) == register
  {}

  lemma IdleSplit(n: nat)
    ensures Idle(2 + n) == [false] + [false] + Idle(n)
  {}

  /** A decoder run over a transmission, symbol by symbol, returns the text. */
  method DecodeTransmission(text: seq<Sent>) returns (output: seq<Ascii>)
    ensures output == Characters(text)
    ensures |output| == |text| && forall i :: 0 <= i < |text| ==> output[i] == text[i].ascii
  {
    hide Emitted, Transmission;
    var decoder := new VaricodeDecoder();
    var bits := Transmission(text);
    output := [];
    for i := 0 to |bits|
      invariant fresh(decoder) && decoder.Valid() && decoder.bits == bits[..i]
      invariant output == Output(0, bits[..i])
    {
      var more := decoder.Process(BitValue(bits[i]));
      assert bits[..i + 1] == bits[..i] + [bits[i]];
      OutputStep(0, bits[..i], bits[i]);
      output := output + more;
    }
    assert bits[..|bits|] == bits;
    TextRoundTrip(0, text);
  }
}

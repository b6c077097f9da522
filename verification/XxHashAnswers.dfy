/** Known answers of the 32-bit xxHash, which pin every step of XxHashSpec. */
module XxHashAnswers {
  import opened Arithmetic
  import opened DataType
  import opened XxHashSpec

  // Rounds by their intermediate results -------------------------------------------------

  lemma AccumulatorRoundBy(a: Word32, lane: Word32, sum: int, rotated: int, result: int)
    requires sum == (a as int + lane as int * 0x85EBCA77) % 0x1_0000_0000
    requires rotated == RotateLeft(sum, 0x2000, 0x8_0000) && result == rotated * 0x9E3779B1 % 0x1_0000_0000
    ensures AccumulatorRound(a, lane) == result
  {
  }

  lemma WordRoundBy(acc: Word32, lane: Word32, sum: int, rotated: int, result: int)
    requires sum == (acc as int + lane as int * 0xC2B2AE3D) % 0x1_0000_0000
    requires rotated == RotateLeft(sum, 0x2_0000, 0x8000) && result == rotated * 0x27D4EB2F % 0x1_0000_0000
    ensures WordRound(acc, lane) == result
  {
  }

  lemma ByteRoundBy(acc: Word32, lane: Byte, sum: int, rotated: int, result: int)
    requires sum == (acc as int + lane as int * 0x165667B1) % 0x1_0000_0000
    requires rotated == RotateLeft(sum, 0x800, 0x20_0000) && result == rotated * 0x9E3779B1 % 0x1_0000_0000
    ensures ByteRound(acc, lane) == result
  {
  }

  // Eight zero bytes -----------------------------------------------------------------------

  lemma MixZerosFirst(x: nat)
    requires 4288251951 < x < 4288251953
    ensures BitXor(x, x / 0x8000) == 4288182019
  {
    XorOfFiveDigits(x, x / 0x8000, 0xff9, 0x9, 0x8, 0x8, 0x3, 0x0, 0x1, 0xf, 0xf, 0x3, 0x3, 0xff98, 0x77, 0x3);
  }

  lemma MixZerosSecond(x: nat)
    requires 3968381028 < x < 3968381030
    ensures BitXor(x, x / 0x2000) == 3968848928
  {
    XorOfFiveDigits(x, x / 0x2000, 0xec8, 0x8, 0xb, 0x0, 0x6, 0x5, 0x7, 0x6, 0x4, 0x4, 0x5, 0xec8f, 0xd4, 0x20);
  }

  lemma MixZerosThird(x: nat)
    requires 3736292255 < x < 3736292257
    ensures BitXor(x, x / 0x10000) == 3736311059
  {
    XorOfFiveDigits(x, x / 0x10000, 0xdeb, 0x3, 0x4, 0xb, 0xa, 0x0, 0x0, 0xd, 0xe, 0xb, 0x3, 0xdeb3, 0x95, 0x13);
  }

  lemma MixZeros(h: Word32)
    requires 4288251951 < h < 4288251953
    ensures Step6(h) == 3736311059
  {
    MixZerosFirst(h);
    var a := BitXor(h, h / 0x8000) * 0x85EBCA77 % 0x1_0000_0000;
    MixZerosSecond(a);
    var b := BitXor(a, a / 0x2000) * 0xC2B2AE3D % 0x1_0000_0000;
    MixZerosThird(b);
  }

  lemma ShortHash(m: Message, seed: Word32, start: Word32, last: Word32)
    requires |m| < 16 && start == Step4((seed as int + 0x165667B1) % 0x1_0000_0000, |m|)
    requires last == Step5(start, m)
    ensures Hash(m, seed) == Step6(last)
  {
    assert m[0..] == m;
  }

  lemma TakeWord(acc: Word32, rest: Message, lane: Word32, next: Word32)
    requires |rest| >= 4 && lane == LaneAt(rest, 0) && next == WordRound(acc, lane)
    ensures Step5(acc, rest) == Step5(next, rest[4..])
  {
  }

  lemma TakeByte(acc: Word32, rest: Message, lane: Byte, next: Word32)
    requires 1 <= |rest| < 4 && lane == rest[0] && next == ByteRound(acc, lane)
    ensures Step5(acc, rest) == Step5(next, rest[1..])
  {
  }

  lemma TakeNone(acc: Word32, rest: Message)
    requires |rest| == 0
    ensures Step5(acc, rest) == acc
  {
  }

  lemma ZeroRounds(start: Word32, lane: Word32)
    requires start == 374761401 && lane < 1
    ensures 4288251951 < WordRound(WordRound(start, lane), lane) < 4288251953
  {
    WordRoundBy(start, lane, start, 3480366252, 392697748);
    WordRoundBy(392697748, lane, 392697748, 791162576, 4288251952);
  }

  lemma ZeroLane(m: Message, p: nat)
    requires p + 4 <= |m| && forall i :: 0 <= i < |m| ==> m[i] == 0
    ensures LaneAt(m, p) < 1
  {
  }

  /** A message made of one word twice. */
  lemma SameWordTwice(m: Message, seed: Word32, lane: Word32, start: Word32)
    requires |m| == 8 && lane == LaneAt(m, 0) == LaneAt(m, 4)
    requires start == Step4((seed as int + 0x165667B1) % 0x1_0000_0000, 8)
    ensures Hash(m, seed) == Step6(WordRound(WordRound(start, lane), lane))
  {
    var rest, between := m[4..], WordRound(start, lane);
    TakeWord(start, m, lane, between);
    assert LaneAt(rest, 0) == lane;
    TakeWord(between, rest, lane, WordRound(between, lane));
    TakeNone(WordRound(between, lane), rest[4..]);
    ShortHash(m, seed, start, WordRound(between, lane));
  }

  lemma ZeroAnswer(start: Word32, lane: Word32)
    requires start == 374761401 && lane < 1
    ensures Step6(WordRound(WordRound(start, lane), lane)) == 3736311059
  {
    ZeroRounds(start, lane);
    MixZeros(WordRound(WordRound(start, lane), lane));
  }

  lemma ZeroWords(m: Message, seed: Word32, lane: Word32, start: Word32)
    requires |m| == 8 && lane == LaneAt(m, 0) == LaneAt(m, 4)
    requires start == Step4((seed as int + 0x165667B1) % 0x1_0000_0000, 8) && start == 374761401 && lane < 1
    ensures Hash(m, seed) == 3736311059
  {
    SameWordTwice(m, seed, lane, start);
    ZeroAnswer(start, lane);
  }

  lemma ZeroStart(seed: Word32)
    requires seed == 0
    ensures Step4((seed as int + 0x165667B1) % 0x1_0000_0000, 8) == 374761401
  {
  }

  lemma ZeroLanes(m: Message, seed: Word32)
    requires |m| == 8 && seed < 1 && LaneAt(m, 0) < 1 && LaneAt(m, 4) < 1
    ensures Hash(m, seed) == 3736311059
  {
    ZeroStart(seed);
    ZeroWords(m, seed, LaneAt(m, 0), Step4((seed as int + 0x165667B1) % 0x1_0000_0000, 8));
  }

  /** Eight zero bytes under seed 0, as in test/math_crypto_hash_xx.c. */
  lemma EightZeroBytes(m: Message, zero: Byte, seed: Word32)
    requires zero == 0 && seed == 0
    requires m == [zero, zero, zero, zero, zero, zero, zero, zero]
    ensures Hash(m, seed) == 3736311059
  {
    ZeroLanes(m, seed);
  }

  lemma MixAbcFirst(x: nat)
    requires 1980374630 < x < 1980374632
    ensures BitXor(x, x / 0x8000) == 1980428915
  {
    XorOfFiveDigits(x, x / 0x8000, 0x760, 0xa, 0x1, 0xe, 0x6, 0x7, 0x0, 0xe, 0xc, 0x1, 0x4, 0x760a, 0xf2, 0x73);
  }

  lemma MixAbcSecond(x: nat)
    requires 3505811828 < x < 3505811830
    ensures BitXor(x, x / 0x2000) == 3505452742
  {
    XorOfFiveDigits(x, x / 0x2000, 0xd0f, 0x6, 0x7, 0x1, 0x7, 0x5, 0x6, 0x8, 0x7, 0xb, 0x3, 0xd0f0, 0xf6, 0xc6);
  }

  lemma MixAbcThird(x: nat)
    requires 852582701 < x < 852582703
    ensures BitXor(x, x / 0x10000) == 852579327
  {
    XorOfFiveDigits(x, x / 0x10000, 0x32d, 0x1, 0x6, 0x1, 0x2, 0xe, 0x0, 0x3, 0x2, 0xd, 0x1, 0x32d1, 0x53, 0xff);
  }

  lemma MixAbc(h: Word32)
    requires 1980374630 < h < 1980374632
    ensures Step6(h) == 852579327
  {
    MixAbcFirst(h);
    var a := BitXor(h, h / 0x8000) * 0x85EBCA77 % 0x1_0000_0000;
    MixAbcSecond(a);
    var b := BitXor(a, a / 0x2000) * 0xC2B2AE3D % 0x1_0000_0000;
    MixAbcThird(b);
  }

  lemma AbcRounds()
    ensures ByteRound(374761396, 97) == 3701595112
    ensures ByteRound(3701595112, 98) == 1333853501
    ensures ByteRound(1333853501, 99) == 1980374631
  {
    ByteRoundBy(374761396, 97, 2366878149, 2643340392, 3701595112);
    ByteRoundBy(3701595112, 98, 1773505962, 2892845901, 1333853501);
    ByteRoundBy(1333853501, 99, 4075493040, 1488291735, 1980374631);
  }

  /** A message of three bytes, by the accumulators after each of them. */
  lemma BytesTaken(m: Message, seed: Word32, start: Word32, one: Word32, two: Word32, three: Word32)
    requires |m| == 3 && start == Step4((seed as int + 0x165667B1) % 0x1_0000_0000, 3)
    requires one == ByteRound(start, m[0]) && two == ByteRound(one, m[1]) && three == ByteRound(two, m[2])
    ensures Hash(m, seed) == Step6(three)
  {
    var m1, m2 := m[1..], m[1..][1..];
    TakeByte(start, m, m[0], one);
    TakeByte(one, m1, m[1], two);
    TakeByte(two, m2, m[2], three);
    TakeNone(three, m2[1..]);
    ShortHash(m, seed, start, three);
  }

  lemma AbcTaken(m: Message, seed: Word32, start: Word32)
    requires |m| == 3 && m[0] == 97 && m[1] == 98 && m[2] == 99
    requires start == Step4((seed as int + 0x165667B1) % 0x1_0000_0000, 3) && start == 374761396
    ensures Hash(m, seed) == 0x32D153FF
  {
    AbcRounds();
    BytesTaken(m, seed, start, 3701595112, 1333853501, 1980374631);
    MixAbc(1980374631);
  }

  /** The text "abc": three bytes of tail. */
  lemma ThreeBytes(m: Message, seed: Word32)
    requires |m| == 3 && m[0] == 97 && m[1] == 98 && m[2] == 99 && seed == 0
    ensures Hash(m, seed) == 0x32D153FF
  {
    AbcTaken(m, seed, 374761396);
  }

  lemma MixTextFirst(x: nat)
    requires 3014066458 < x < 3014066460
    ensures BitXor(x, x / 0x8000) == 3014026837
  {
    XorOfFiveDigits(x, x / 0x8000, 0xb3a, 0x7, 0x0, 0x1, 0x1, 0xb, 0x1, 0x6, 0x7, 0x4, 0xe, 0xb3a6, 0x66, 0x55);
  }

  lemma MixTextSecond(x: nat)
    requires 3894387586 < x < 3894387588
    ensures BitXor(x, x / 0x2000) == 3893945214
  {
    XorOfFiveDigits(x, x / 0x2000, 0xe81, 0xf, 0xa, 0x3, 0x8, 0x3, 0x7, 0x4, 0x0, 0xf, 0xd, 0xe818, 0xe3, 0x7e);
  }

  lemma MixTextThird(x: nat)
    requires 3794393349 < x < 3794393351
    ensures BitXor(x, x / 0x10000) == 3794352943
  {
    XorOfFiveDigits(x, x / 0x10000, 0xe22, 0x9, 0xd, 0x9, 0x0, 0x6, 0x0, 0xe, 0x2, 0x2, 0x9, 0xe229, 0x3b, 0x2f);
  }

  lemma MixText(h: Word32)
    requires 3014066458 < h < 3014066460
    ensures Step6(h) == 3794352943
  {
    MixTextFirst(h);
    var a := BitXor(h, h / 0x8000) * 0x85EBCA77 % 0x1_0000_0000;
    MixTextSecond(a);
    var b := BitXor(a, a / 0x2000) * 0xC2B2AE3D % 0x1_0000_0000;
    MixTextThird(b);
  }

  /** A text of two stripes, a word and three bytes: "Nobody inspects the spammish repetition". */
  ghost predicate IsText(m: Message) {
    |m| == 39 && m[0] == 78 && m[1] == 111 && m[2] == 98 && m[3] == 111 && m[4] == 100 && m[5] == 121 && m[6] == 32 &&
    m[7] == 105 && m[8] == 110 && m[9] == 115 && m[10] == 112 && m[11] == 101 && m[12] == 99 && m[13] == 116 &&
    m[14] == 115 && m[15] == 32 && m[16] == 116 && m[17] == 104 && m[18] == 101 && m[19] == 32 && m[20] == 115 &&
    m[21] == 112 && m[22] == 97 && m[23] == 109 && m[24] == 109 && m[25] == 105 && m[26] == 115 && m[27] == 104 &&
    m[28] == 32 && m[29] == 114 && m[30] == 101 && m[31] == 112 && m[32] == 101 && m[33] == 116 && m[34] == 105 &&
    m[35] == 116 && m[36] == 105 && m[37] == 111 && m[38] == 110
  }

  lemma TextLanes(m: Message)
    requires IsText(m)
    ensures LaneAt(m, 0) == 1868721998 && LaneAt(m, 4) == 1763735908
    ensures LaneAt(m, 8) == 1701868398 && LaneAt(m, 12) == 544437347
    ensures LaneAt(m, 16) == 543516788 && LaneAt(m, 20) == 1835102323
    ensures LaneAt(m, 24) == 1752394093 && LaneAt(m, 28) == 1885696544
    ensures LaneAt(m, 32) == 1953068133
  {
  }

  lemma Rounds1()
    ensures AccumulatorRound(606290984, 1868721998) == 74084362
    ensures AccumulatorRound(2246822519, 1763735908) == 3215849699
    ensures AccumulatorRound(0, 1701868398) == 1530049706
    ensures AccumulatorRound(1640531535, 544437347) == 327046485
  {
    AccumulatorRoundBy(606290984, 1868721998, 1230146922, 1370310954, 74084362);
    AccumulatorRoundBy(2246822519, 1763735908, 1721311219, 603876563, 3215849699);
    AccumulatorRoundBy(0, 1701868398, 4266947618, 2391039946, 1530049706);
    AccumulatorRoundBy(1640531535, 544437347, 3609902676, 1472895717, 327046485);
  }

  lemma Rounds2()
    ensures AccumulatorRound(74084362, 543516788) == 1905951598
    ensures AccumulatorRound(3215849699, 1835102323) == 1363942888
    ensures AccumulatorRound(1530049706, 1752394093) == 2549762978
    ensures AccumulatorRound(327046485, 1885696544) == 606771106
  {
    AccumulatorRoundBy(74084362, 543516788, 1047889398, 2965293006, 1905951598);
    AccumulatorRoundBy(3215849699, 1835102323, 1933900888, 2676690536, 1363942888);
    AccumulatorRoundBy(1530049706, 1752394093, 1645721685, 4144671810, 2549762978);
    AccumulatorRoundBy(327046485, 1885696544, 3256066613, 1950791746, 606771106);
  }

  lemma Stripe1(m: Message)
    requires IsText(m)
    ensures StripeRound(Accumulators(606290984, 2246822519, 0, 1640531535), m, 0)
         == Accumulators(74084362, 3215849699, 1530049706, 327046485)
  {
    TextLanes(m);
    Rounds1();
  }

  lemma Stripe2(m: Message)
    requires IsText(m)
    ensures StripeRound(Accumulators(74084362, 3215849699, 1530049706, 327046485), m, 16)
         == Accumulators(1905951598, 1363942888, 2549762978, 606771106)
  {
    TextLanes(m);
    Rounds2();
  }

  lemma Converged(a: Accumulators, r1: int, r2: int, r3: int, r4: int, result: int)
    requires r1 == RotateLeft(a.a1, 0x2, 0x8000_0000) && r2 == RotateLeft(a.a2, 0x80, 0x200_0000)
    requires r3 == RotateLeft(a.a3, 0x1000, 0x10_0000) && r4 == RotateLeft(a.a4, 0x4_0000, 0x4000)
    requires result == (r1 + r2 + r3 + r4) % 0x1_0000_0000
    ensures Step3(a.a1, a.a2, a.a3, a.a4) == result
  {
  }

  lemma TextConverged()
    ensures Step3(1905951598, 1363942888, 2549762978, 606771106) == 2357638445
  {
    Converged(Accumulators(1905951598, 1363942888, 2549762978, 606771106),
              3811903196, 2785997864, 2763663743, 1586008234, 2357638445);
  }

  lemma LongStart(m: Message, seed: Word32, a: Accumulators, b: Accumulators, c: Accumulators)
    requires |m| == 39 && a == Step1(seed) && b == StripeRound(a, m, 0) && c == StripeRound(b, m, 16)
    ensures Gathered(m, seed) == Step3(c.a1, c.a2, c.a3, c.a4)
  {
    TwoStripes(a, m, b, c);
  }

  lemma TextGathered(m: Message)
    requires IsText(m)
    ensures Gathered(m, 0) == 2357638445
  {
    Stripe1(m);
    Stripe2(m);
    LongStart(m, 0, Accumulators(606290984, 2246822519, 0, 1640531535),
              Accumulators(74084362, 3215849699, 1530049706, 327046485),
              Accumulators(1905951598, 1363942888, 2549762978, 606771106));
    TextConverged();
  }

  lemma TwoStripes(a: Accumulators, m: Message, b: Accumulators, c: Accumulators)
    requires |m| == 39 && b == StripeRound(a, m, 0) && c == StripeRound(b, m, 16)
    ensures Step2(a, m, 39 / 16) == c
  {
    assert Step2(a, m, 0) == a;
    assert Step2(a, m, 1) == b;
  }

  lemma TextTailRounds()
    ensures WordRound(2357638484, 1953068133) == 162862404
    ensures ByteRound(162862404, 105) == 3455046601
    ensures ByteRound(3455046601, 111) == 944900219
    ensures ByteRound(944900219, 110) == 3014066459
  {
    WordRoundBy(2357638484, 1953068133, 1862145893, 785047036, 162862404);
    ByteRoundBy(162862404, 105, 858103005, 753330585, 3455046601);
    ByteRoundBy(3455046601, 111, 2103888264, 910967787, 944900219);
    ByteRoundBy(944900219, 110, 3513947785, 2494844555, 3014066459);
  }

  lemma TextTail(rest: Message)
    requires |rest| == 7 && LaneAt(rest, 0) == 1953068133
    requires rest[4] == 105 && rest[5] == 111 && rest[6] == 110
    ensures Step5(2357638484, rest) == 3014066459
  {
    TextTailRounds();
    var last := rest[4..];
    var one, two := last[1..], last[1..][1..];
    TakeWord(2357638484, rest, 1953068133, 162862404);
    TakeByte(162862404, last, 105, 3455046601);
    TakeByte(3455046601, one, 111, 944900219);
    TakeByte(944900219, two, 110, 3014066459);
    TakeNone(3014066459, two[1..]);
  }

  lemma WholeText(m: Message)
    requires IsText(m)
    ensures Hash(m, 0) == 0xE2293B2F
  {
    TextLanes(m);
    TextGathered(m);
    assert Step4(2357638445, 39) == 2357638484;
    assert LaneAt(m[32..], 0) == LaneAt(m, 32);
    TextTail(m[32..]);
    MixText(3014066459);
  }
}

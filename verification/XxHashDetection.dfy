/** The pieces of the 32-bit xxHash lose nothing, so it notices every change of one word or byte. */
module XxHashDetection {
  import opened Arithmetic
  import opened DataType
  import opened XxHashSpec
  import opened HashDetection

  lemma ProductOut(x: int, c: int, inverse: int, wraps: int, q: int)
    requires c * inverse == 1 + 0x1_0000_0000 * wraps
    ensures (x * c - 0x1_0000_0000 * q) * inverse == x + 0x1_0000_0000 * (x * wraps - q * inverse)
  {
    assert (x * c) * inverse == x * (c * inverse);
    assert x * (0x1_0000_0000 * wraps) == 0x1_0000_0000 * (x * wraps);
  }

  lemma RemainderOfWord(x: int, t: int)
    requires 0 <= x < 0x1_0000_0000
    ensures (x + 0x1_0000_0000 * t) % 0x1_0000_0000 == x
  {
  }

  /** An odd factor can be divided out again, by a factor that undoes it modulo 2^32. */
  lemma ProductBack(x: int, c: int, inverse: int, wraps: int, y: int)
    requires c * inverse == 1 + 0x1_0000_0000 * wraps && y == x * c % 0x1_0000_0000 && 0 <= x < 0x1_0000_0000
    ensures y * inverse % 0x1_0000_0000 == x
  {
    var q := x * c / 0x1_0000_0000;
    assert y == x * c - 0x1_0000_0000 * q;
    ProductOut(x, c, inverse, wraps, q);
    RemainderOfWord(x, x * wraps - q * inverse);
  }

  /** The factors of the hash, each with what undoes it. */
  lemma ProductsInjective(x: int, y: int)
    requires 0 <= x < 0x1_0000_0000 && 0 <= y < 0x1_0000_0000
    ensures x * 0x9E3779B1 % 0x1_0000_0000 == y * 0x9E3779B1 % 0x1_0000_0000 ==> x == y
    ensures x * 0x85EBCA77 % 0x1_0000_0000 == y * 0x85EBCA77 % 0x1_0000_0000 ==> x == y
    ensures x * 0xC2B2AE3D % 0x1_0000_0000 == y * 0xC2B2AE3D % 0x1_0000_0000 ==> x == y
    ensures x * 0x27D4EB2F % 0x1_0000_0000 == y * 0x27D4EB2F % 0x1_0000_0000 ==> x == y
    ensures x * 0x165667B1 % 0x1_0000_0000 == y * 0x165667B1 % 0x1_0000_0000 ==> x == y
  {
    ProductInjective(x, y, 0x9E3779B1, 0x0E8B2F51, 150801925);
    ProductInjective(x, y, 0x85EBCA77, 0xB6C92F47, 1604247758);
    ProductInjective(x, y, 0xC2B2AE3D, 0xA89ED915, 2151551417);
    ProductInjective(x, y, 0x27D4EB2F, 0xA0FE3BCF, 420258189);
    ProductInjective(x, y, 0x165667B1, 0xAE398151, 255049472);
  }

  lemma ProductInjective(x: int, y: int, c: int, inverse: int, wraps: int)
    requires 0 <= x < 0x1_0000_0000 && 0 <= y < 0x1_0000_0000 && c * inverse == 1 + 0x1_0000_0000 * wraps
    ensures x * c % 0x1_0000_0000 == y * c % 0x1_0000_0000 ==> x == y
  {
    ProductBack(x, c, inverse, wraps, x * c % 0x1_0000_0000);
    ProductBack(y, c, inverse, wraps, y * c % 0x1_0000_0000);
  }

  lemma SumInjective(a: Word32, a': Word32, x: int, x': int)
    requires (a as int + x) % 0x1_0000_0000 == (a' as int + x') % 0x1_0000_0000
    ensures a == a' <==> x % 0x1_0000_0000 == x' % 0x1_0000_0000
  {
  }

  /** The rotations of the hash. */
  ghost predicate Turn(r: nat, up: int, down: int) {
    || (r == 1 && up == 0x2 && down == 0x8000_0000)
    || (r == 7 && up == 0x80 && down == 0x200_0000)
    || (r == 11 && up == 0x800 && down == 0x20_0000)
    || (r == 12 && up == 0x1000 && down == 0x10_0000)
    || (r == 13 && up == 0x2000 && down == 0x8_0000)
    || (r == 17 && up == 0x2_0000 && down == 0x8000)
    || (r == 18 && up == 0x4_0000 && down == 0x4000)
  }

  lemma RotationInWord(x: Word32, r: nat, up: int, down: int)
    requires Turn(r, up, down)
    ensures 0 <= RotateLeft(x, up, down) < 0x1_0000_0000 && RotateLeft(x, up, down) == Rotl32(x, r)
  {
    Powers();
    RotlIsSum(x, r, up, down);
  }

  lemma RotationInjective(x: Word32, y: Word32, r: nat, up: int, down: int)
    requires Turn(r, up, down)
    ensures 0 <= RotateLeft(x, up, down) < 0x1_0000_0000 && 0 <= RotateLeft(y, up, down) < 0x1_0000_0000
    ensures RotateLeft(x, up, down) == RotateLeft(y, up, down) ==> x == y
  {
    RotationInWord(x, r, up, down);
    RotationInWord(y, r, up, down);
    if RotateLeft(x, up, down) == RotateLeft(y, up, down) {
      RotlInjective(x, y, r);
    }
  }

  /** Before the rotation and the product there was only one word. */
  lemma TurnedProducts(s: Word32, s': Word32, r: nat, up: int, down: int)
    requires Turn(r, up, down)
    ensures RotateLeft(s, up, down) * 0x9E3779B1 % 0x1_0000_0000 == RotateLeft(s', up, down) * 0x9E3779B1 % 0x1_0000_0000
       ==> s == s'
    ensures RotateLeft(s, up, down) * 0x27D4EB2F % 0x1_0000_0000 == RotateLeft(s', up, down) * 0x27D4EB2F % 0x1_0000_0000
       ==> s == s'
  {
    RotationInjective(s, s', r, up, down);
    ProductsInjective(RotateLeft(s, up, down), RotateLeft(s', up, down));
  }

  /** A round is invertible in its accumulator and injective in its input. */
  lemma RoundInjective(a: Word32, a': Word32, w: Word32, w': Word32)
    requires AccumulatorRound(a, w) == AccumulatorRound(a', w')
    ensures a == a' <==> w == w'
  {
    var s: Word32 := (a as int + w as int * 0x85EBCA77) % 0x1_0000_0000;
    var s': Word32 := (a' as int + w' as int * 0x85EBCA77) % 0x1_0000_0000;
    TurnedProducts(s, s', 13, 0x2000, 0x8_0000);
    SumInjective(a, a', w as int * 0x85EBCA77, w' as int * 0x85EBCA77);
    ProductsInjective(w, w');
  }

  /** So is the step that takes a word of the tail. */
  lemma TailWordInjective(h: Word32, h': Word32, w: Word32, w': Word32)
    requires WordRound(h, w) == WordRound(h', w')
    ensures h == h' <==> w == w'
  {
    var s: Word32 := (h as int + w as int * 0xC2B2AE3D) % 0x1_0000_0000;
    var s': Word32 := (h' as int + w' as int * 0xC2B2AE3D) % 0x1_0000_0000;
    TurnedProducts(s, s', 17, 0x2_0000, 0x8000);
    SumInjective(h, h', w as int * 0xC2B2AE3D, w' as int * 0xC2B2AE3D);
    ProductsInjective(w, w');
  }

  /** And the step that takes a byte. */
  lemma TailByteInjective(h: Word32, h': Word32, b: Byte, b': Byte)
    requires ByteRound(h, b) == ByteRound(h', b')
    ensures h == h' <==> b == b'
  {
    var s: Word32 := (h as int + b as int * 0x165667B1) % 0x1_0000_0000;
    var s': Word32 := (h' as int + b' as int * 0x165667B1) % 0x1_0000_0000;
    TurnedProducts(s, s', 11, 0x800, 0x20_0000);
    SumInjective(h, h', b as int * 0x165667B1, b' as int * 0x165667B1);
    ProductsInjective(b, b');
  }

  lemma XorShiftInjective(x: Word32, y: Word32, k: nat, down: int)
    requires (k == 13 && down == 0x2000) || (k == 15 && down == 0x8000) || (k == 16 && down == 0x1_0000)
    ensures 0 <= x / down && 0 <= y / down
    ensures 0 <= BitXor(x, x / down) < 0x1_0000_0000 && 0 <= BitXor(y, y / down) < 0x1_0000_0000
    ensures BitXor(x, x / down) == BitXor(y, y / down) ==> x == y
  {
    Powers();
    XorQuotientInWord(x, k, down);
    XorQuotientInWord(y, k, down);
    if BitXor(x, x / down) == BitXor(y, y / down) {
      XorShrInjective(x, y, k);
    }
  }

  /** The final mix loses nothing. */
  lemma AvalancheInjective(h: Word32, h': Word32)
    requires Step6(h) == Step6(h')
    ensures h == h'
  {
    XorShiftInjective(h, h', 15, 0x8000);
    var a: Word32 := BitXor(h, h / 0x8000) * 0x85EBCA77 % 0x1_0000_0000;
    var a': Word32 := BitXor(h', h' / 0x8000) * 0x85EBCA77 % 0x1_0000_0000;
    XorShiftInjective(a, a', 13, 0x2000);
    var b: Word32 := BitXor(a, a / 0x2000) * 0xC2B2AE3D % 0x1_0000_0000;
    var b': Word32 := BitXor(a', a' / 0x2000) * 0xC2B2AE3D % 0x1_0000_0000;
    XorShiftInjective(b, b', 16, 0x1_0000);
    ProductsInjective(BitXor(a, a / 0x2000), BitXor(a', a' / 0x2000));
    ProductsInjective(BitXor(h, h / 0x8000), BitXor(h', h' / 0x8000));
  }

  lemma SumDiffers(x: int, x': int, rest: int)
    requires 0 <= x < 0x1_0000_0000 && 0 <= x' < 0x1_0000_0000 && x != x'
    ensures (x + rest) % 0x1_0000_0000 != (x' + rest) % 0x1_0000_0000
  {
  }

  lemma RotationDiffers(x: Word32, y: Word32, r: nat, up: int, down: int, rest: int)
    requires Turn(r, up, down) && x != y
    ensures (RotateLeft(x, up, down) + rest) % 0x1_0000_0000 != (RotateLeft(y, up, down) + rest) % 0x1_0000_0000
  {
    RotationInjective(x, y, r, up, down);
    SumDiffers(RotateLeft(x, up, down), RotateLeft(y, up, down), rest);
  }

  /** A difference in one lane survives the convergence. */
  lemma ConvergeDiffers(a: Word32, b: Word32, c: Word32, d: Word32, x: Word32)
    ensures a != x ==> Step3(a, b, c, d) != Step3(x, b, c, d)
    ensures b != x ==> Step3(a, b, c, d) != Step3(a, x, c, d)
    ensures c != x ==> Step3(a, b, c, d) != Step3(a, b, x, d)
    ensures d != x ==> Step3(a, b, c, d) != Step3(a, b, c, x)
  {
    Converge1Differs(a, b, c, d, x);
    Converge2Differs(a, b, c, d, x);
    Converge3Differs(a, b, c, d, x);
    Converge4Differs(a, b, c, d, x);
  }

  lemma Converge1Differs(a: Word32, b: Word32, c: Word32, d: Word32, x: Word32)
    ensures a != x ==> Step3(a, b, c, d) != Step3(x, b, c, d)
  {
    if a != x {
      RotationDiffers(a, x, 1, 0x2, 0x8000_0000, RotateLeft(b, 0x80, 0x200_0000)
        + RotateLeft(c, 0x1000, 0x10_0000) + RotateLeft(d, 0x4_0000, 0x4000));
    }
  }

  lemma Converge2Differs(a: Word32, b: Word32, c: Word32, d: Word32, x: Word32)
    ensures b != x ==> Step3(a, b, c, d) != Step3(a, x, c, d)
  {
    if b != x {
      RotationDiffers(b, x, 7, 0x80, 0x200_0000, RotateLeft(a, 0x2, 0x8000_0000)
        + RotateLeft(c, 0x1000, 0x10_0000) + RotateLeft(d, 0x4_0000, 0x4000));
    }
  }

  lemma Converge3Differs(a: Word32, b: Word32, c: Word32, d: Word32, x: Word32)
    ensures c != x ==> Step3(a, b, c, d) != Step3(a, b, x, d)
  {
    if c != x {
      RotationDiffers(c, x, 12, 0x1000, 0x10_0000, RotateLeft(a, 0x2, 0x8000_0000)
        + RotateLeft(b, 0x80, 0x200_0000) + RotateLeft(d, 0x4_0000, 0x4000));
    }
  }

  lemma Converge4Differs(a: Word32, b: Word32, c: Word32, d: Word32, x: Word32)
    ensures d != x ==> Step3(a, b, c, d) != Step3(a, b, c, x)
  {
    if d != x {
      RotationDiffers(d, x, 18, 0x4_0000, 0x4000, RotateLeft(a, 0x2, 0x8000_0000)
        + RotateLeft(b, 0x80, 0x200_0000) + RotateLeft(c, 0x1000, 0x10_0000));
    }
  }

  lemma ReadLaneInjective(b0: Byte, b1: Byte, b2: Byte, b3: Byte, c0: Byte, c1: Byte, c2: Byte, c3: Byte)
    requires ReadLane(b0, b1, b2, b3) == ReadLane(c0, c1, c2, c3)
    ensures b0 == c0 && b1 == c1 && b2 == c2 && b3 == c3
  {
  }

  // The hash as a whole ----------------------------------------------------------------------

  function Xxh32(): Pieces<Word32> {
    Pieces(ReadLane, AccumulatorRound, Step3, Step4, WordRound, ByteRound, Step6)
  }

  lemma ReadLaneLossless()
    ensures ReadLossless(Xxh32())
  {
    forall b0, b1, b2, b3, c0, c1, c2, c3 | ReadLane(b0, b1, b2, b3) == ReadLane(c0, c1, c2, c3)
      ensures b0 == c0 && b1 == c1 && b2 == c2 && b3 == c3
    {
      ReadLaneInjective(b0, b1, b2, b3, c0, c1, c2, c3);
    }
  }

  lemma RoundsLossless()
    ensures RoundLossless(AccumulatorRound) && RoundLossless(WordRound)
  {
    forall a, a', w, w'
      ensures AccumulatorRound(a, w) == AccumulatorRound(a', w') ==> (a == a' <==> w == w')
      ensures WordRound(a, w) == WordRound(a', w') ==> (a == a' <==> w == w')
    {
      if AccumulatorRound(a, w) == AccumulatorRound(a', w') {
        RoundInjective(a, a', w, w');
      }
      if WordRound(a, w) == WordRound(a', w') {
        TailWordInjective(a, a', w, w');
      }
    }
  }

  lemma ByteRoundLossless()
    ensures RoundLossless(ByteRound)
  {
    forall a, a', b, b' | ByteRound(a, b) == ByteRound(a', b')
      ensures a == a' <==> b == b'
    {
      TailByteInjective(a, a', b, b');
    }
  }

  lemma Lane1Lossless()
    ensures forall a, b, c, d, x :: a != x ==> Step3(a, b, c, d) != Step3(x, b, c, d)
  {
    forall a, b, c, d, x | a != x
      ensures Step3(a, b, c, d) != Step3(x, b, c, d)
    {
      Converge1Differs(a, b, c, d, x);
    }
  }

  lemma Lane2Lossless()
    ensures forall a, b, c, d, x :: b != x ==> Step3(a, b, c, d) != Step3(a, x, c, d)
  {
    forall a, b, c, d, x | b != x
      ensures Step3(a, b, c, d) != Step3(a, x, c, d)
    {
      Converge2Differs(a, b, c, d, x);
    }
  }

  lemma Lane3Lossless()
    ensures forall a, b, c, d, x :: c != x ==> Step3(a, b, c, d) != Step3(a, b, x, d)
  {
    forall a, b, c, d, x | c != x
      ensures Step3(a, b, c, d) != Step3(a, b, x, d)
    {
      Converge3Differs(a, b, c, d, x);
    }
  }

  lemma Lane4Lossless()
    ensures forall a, b, c, d, x :: d != x ==> Step3(a, b, c, d) != Step3(a, b, c, x)
  {
    forall a, b, c, d, x | d != x
      ensures Step3(a, b, c, d) != Step3(a, b, c, x)
    {
      Converge4Differs(a, b, c, d, x);
    }
  }

  lemma Step3Lossless()
    ensures ConvergeLossless(Xxh32())
  {
    Lane1Lossless();
    Lane2Lossless();
    Lane3Lossless();
    Lane4Lossless();
  }

  lemma EndsLossless()
    ensures EndLossless(Xxh32())
  {
    forall a: Word32, a': Word32, n: nat | a != a'
      ensures Step4(a, n) != Step4(a', n)
    {
      SumDiffers(a, a', n);
    }
    forall a, a' | Step6(a) == Step6(a')
      ensures a == a'
    {
      AvalancheInjective(a, a');
    }
  }

  lemma PiecesLossless()
    ensures Lossless(Xxh32())
  {
    ReadLaneLossless();
    RoundsLossless();
    ByteRoundLossless();
    Step3Lossless();
    EndsLossless();
  }

  function ShortStart(seed: Word32): Word32 {
    (seed as int + 0x165667B1) % 0x1_0000_0000
  }

  function LanesOf(a: Accumulators): Lanes<Word32> {
    Lanes(a.a1, a.a2, a.a3, a.a4)
  }

  lemma {:induction false} StripesMatch(a: Accumulators, m: Message, n: nat)
    requires 16 * n <= |m|
    ensures AfterStripes(Xxh32(), LanesOf(a), m, n) == LanesOf(Step2(a, m, n))
  {
    if n > 0 {
      StripesMatch(a, m, n - 1);
    }
  }

  lemma {:induction false} TailMatches(acc: Word32, rest: Message)
    ensures Tail(Xxh32(), acc, rest) == Step5(acc, rest)
    decreases |rest|
  {
    if |rest| >= 4 {
      TailMatches(WordRound(acc, LaneAt(rest, 0)), rest[4..]);
    } else if |rest| >= 1 {
      TailMatches(ByteRound(acc, rest[0]), rest[1..]);
    }
  }

  lemma HashMatches(m: Message, seed: Word32)
    ensures HashOf(Xxh32(), LanesOf(Step1(seed)), ShortStart(seed), m) == Hash(m, seed)
  {
    if |m| >= 16 {
      StripesMatch(Step1(seed), m, |m| / 16);
    }
    TailMatches(Step4(Gathered(m, seed), |m|), m[|m| / 16 * 16..]);
  }

  /** Two messages of equal length that differ only inside one word the code reads never hash
      equal under the same seed. */
  lemma OneWordDetected(m: Message, m': Message, seed: Word32, j: nat)
    requires SameOutside(m, m', 4 * j, 4 * j + 4) && m != m' && 4 * j + 4 <= |m|
    ensures Hash(m, seed) != Hash(m', seed)
  {
    PiecesLossless();
    HashMatches(m, seed);
    HashMatches(m', seed);
    OneWord(Xxh32(), LanesOf(Step1(seed)), ShortStart(seed), m, m', j);
  }

  /** Neither do messages that differ in a single byte, wherever it is. */
  lemma OneByteDetected(m: Message, m': Message, seed: Word32, i: nat)
    requires SameOutside(m, m', i, i + 1) && m != m' && i < |m|
    ensures Hash(m, seed) != Hash(m', seed)
  {
    PiecesLossless();
    HashMatches(m, seed);
    HashMatches(m', seed);
    OneByte(Xxh32(), LanesOf(Step1(seed)), ShortStart(seed), m, m', i);
  }

  /** Below one stripe, different seeds never give a message the same hash. */
  lemma SeedDetected(m: Message, seed: Word32, seed': Word32)
    requires |m| < 16 && seed != seed'
    ensures Hash(m, seed) != Hash(m, seed')
  {
    PiecesLossless();
    HashMatches(m, seed);
    HashMatches(m, seed');
    SumDiffers(seed, seed', 0x165667B1);
    HashDiffers(Xxh32(), LanesOf(Step1(seed)), ShortStart(seed), LanesOf(Step1(seed')), ShortStart(seed'), m, m);
  }
}

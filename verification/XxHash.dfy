/** The 32-bit xxHash of src/math/crypto/HashXX.c, proved against XxHashSpec. */
module XxHash {
  import opened Arithmetic
  import opened DataType
  import opened XxHashSpec

  // Operators on uint32_t -----------------------------------------------------------------

  function Add(x: Word32, y: Word32): Word32 {
    (x as int + y as int) % 0x1_0000_0000
  }

  function Sub(x: Word32, y: Word32): Word32 {
    (x as int - y as int) % 0x1_0000_0000
  }

  const PRIME32_1: Word32 := 0x9E3779B1
  const PRIME32_2: Word32 := 0x85EBCA77
  const PRIME32_5: Word32 := 0x165667B1

  // Products with the primes, so that proofs stay linear.

  function Times1(x: Word32): Word32 { (x as int) * 0x9E3779B1 % 0x1_0000_0000 }

  function Times2(x: Word32): Word32 { (x as int) * 0x85EBCA77 % 0x1_0000_0000 }

  function Times3(x: Word32): Word32 { (x as int) * 0xC2B2AE3D % 0x1_0000_0000 }

  function Times4(x: Word32): Word32 { (x as int) * 0x27D4EB2F % 0x1_0000_0000 }

  function Times5(x: Word32): Word32 { (x as int) * 0x165667B1 % 0x1_0000_0000 }

  lemma SumOfRemainder(x: int, y: int)
    ensures (x + y % 0x1_0000_0000) % 0x1_0000_0000 == (x + y) % 0x1_0000_0000
  {
  }

  /** The rotations and shifts that occur, with the powers of two that they stand for. */
  ghost predicate Turns(r: nat, up: int, down: int) {
    || (r == 1 && up == 0x2 && down == 0x8000_0000)
    || (r == 7 && up == 0x80 && down == 0x200_0000)
    || (r == 11 && up == 0x800 && down == 0x20_0000)
    || (r == 12 && up == 0x1000 && down == 0x10_0000)
    || (r == 13 && up == 0x2000 && down == 0x8_0000)
    || (r == 17 && up == 0x2_0000 && down == 0x8000)
    || (r == 18 && up == 0x4_0000 && down == 0x4000)
  }

  /** internal_xxh_rotl32 */
  method Rotl(x: Word32, r: nat, ghost up: int, ghost down: int) returns (y: Word32)
    requires Turns(r, up, down)
    ensures y == RotateLeft(x, up, down)
  {
    Powers();
    RotlIsSum(x, r, up, down);
    y := Rotl32(x, r);
  }

  /** x ^ (x >> k) */
  method XorShr(x: Word32, k: nat, ghost down: int) returns (y: Word32)
    requires (k == 13 && down == 0x2000) || (k == 15 && down == 0x8000) || (k == 16 && down == 0x1_0000)
    ensures x / down >= 0 && y == BitXor(x, x / down)
  {
    Powers();
    XorQuotientInWord(x, k, down);
    y := BitXor(x, Shr(x, k));
  }

  // The pieces ------------------------------------------------------------------------------

  lemma RoundIs(a: Word32, input: Word32, s: Word32, r: Word32)
    requires s == Add(a, Times2(input)) && r == RotateLeft(s, 0x2000, 0x8_0000)
    ensures Times1(r) == AccumulatorRound(a, input)
  {
    SumOfRemainder(a, input * 0x85EBCA77);
    assert s == (a as int + input as int * 0x85EBCA77) % 0x1_0000_0000;
  }

  /** internal_xxh32_round */
  method Round(acc0: Word32, input: Word32) returns (acc: Word32)
    ensures acc == AccumulatorRound(acc0, input)
  {
    acc := Add(acc0, Times2(input));
    ghost var sum := acc;
    acc := Rotl(acc, 13, 0x2000, 0x8_0000);
    RoundIs(acc0, input, sum, acc);
    acc := Times1(acc);
  }

  /** internal_xxh32_avalanche */
  method Avalanche(h0: Word32) returns (h32: Word32)
    ensures h32 == Step6(h0)
  {
    h32 := XorShr(h0, 15, 0x8000);
    h32 := Times2(h32);
    h32 := XorShr(h32, 13, 0x2000);
    h32 := Times3(h32);
    h32 := XorShr(h32, 16, 0x1_0000);
  }

  lemma WordRoundIs(h: Word32, lane: Word32, s: Word32, r: Word32)
    requires s == Add(h, Times3(lane)) && r == RotateLeft(s, 0x2_0000, 0x8000)
    ensures Times4(r) == WordRound(h, lane)
  {
    SumOfRemainder(h, lane * 0xC2B2AE3D);
    assert s == (h as int + lane as int * 0xC2B2AE3D) % 0x1_0000_0000;
  }

  method ReadWord(h0: Word32, lane: Word32) returns (h32: Word32)
    ensures h32 == WordRound(h0, lane)
  {
    h32 := Add(h0, Times3(lane));
    ghost var sum := h32;
    h32 := Rotl(h32, 17, 0x2_0000, 0x8000);
    WordRoundIs(h0, lane, sum, h32);
    h32 := Times4(h32);
  }

  lemma ByteRoundIs(h: Word32, lane: Byte, s: Word32, r: Word32)
    requires s == Add(h, Times5(lane)) && r == RotateLeft(s, 0x800, 0x20_0000)
    ensures Times1(r) == ByteRound(h, lane)
  {
    SumOfRemainder(h, lane * 0x165667B1);
    assert s == (h as int + lane as int * 0x165667B1) % 0x1_0000_0000;
  }

  method ReadByte(h0: Word32, lane: Byte) returns (h32: Word32)
    ensures h32 == ByteRound(h0, lane)
  {
    h32 := Add(h0, Times5(lane));
    ghost var sum := h32;
    h32 := Rotl(h32, 11, 0x800, 0x20_0000);
    ByteRoundIs(h0, lane, sum, h32);
    h32 := Times1(h32);
  }

  /** PROCESS4 */
  method Process4(h0: Word32, m: Message, p0: nat) returns (h32: Word32, p: nat)
    requires p0 + 4 <= |m|
    ensures p == p0 + 4 && Step5(h0, m[p0..]) == Step5(h32, m[p..])
  {
    h32 := ReadWord(h0, LaneAt(m, p0));
    p := p0 + 4;
    assert m[p0..][4..] == m[p..];
  }

  /** PROCESS1 */
  method Process1(h0: Word32, m: Message, p0: nat) returns (h32: Word32, p: nat)
    requires p0 < |m| < p0 + 4
    ensures p == p0 + 1 && Step5(h0, m[p0..]) == Step5(h32, m[p..])
  {
    h32 := ReadByte(h0, m[p0]);
    p := p0 + 1;
    assert m[p0..][1..] == m[p..];
  }

  /** The switch on the last bits of the length, with its four groups of falling-through cases. */
  method Finalize(h0: Word32, m: Message, p0: nat, len: nat) returns (r: Word32)
    requires p0 + len % 16 == |m|
    ensures r == Step6(Step5(h0, m[p0..]))
  {
    var h, p, rest := h0, p0, len % 16;
    if rest == 12 || rest == 8 || rest == 4 {
      if rest == 12 {
        h, p := Process4(h, m, p);
      }
      if rest == 12 || rest == 8 {
        h, p := Process4(h, m, p);
      }
      h, p := Process4(h, m, p);
    } else if rest == 13 || rest == 9 || rest == 5 {
      if rest == 13 {
        h, p := Process4(h, m, p);
      }
      if rest == 13 || rest == 9 {
        h, p := Process4(h, m, p);
      }
      h, p := Process4(h, m, p);
      h, p := Process1(h, m, p);
    } else if rest == 14 || rest == 10 || rest == 6 {
      if rest == 14 {
        h, p := Process4(h, m, p);
      }
      if rest == 14 || rest == 10 {
        h, p := Process4(h, m, p);
      }
      h, p := Process4(h, m, p);
      h, p := Process1(h, m, p);
      h, p := Process1(h, m, p);
    } else {
      if rest == 15 {
        h, p := Process4(h, m, p);
      }
      if rest == 15 || rest == 11 {
        h, p := Process4(h, m, p);
      }
      if rest == 15 || rest == 11 || rest == 7 {
        h, p := Process4(h, m, p);
      }
      if rest != 2 && rest != 1 && rest != 0 {
        h, p := Process1(h, m, p);
      }
      if rest != 1 && rest != 0 {
        h, p := Process1(h, m, p);
      }
      if rest != 0 {
        h, p := Process1(h, m, p);
      }
    }
    assert m[p..] == [];
    r := Avalanche(h);
  }

  /** One turn of the stripe loop. */
  method ReadStripe(v: Accumulators, input: Message, p0: nat) returns (v': Accumulators, p: nat)
    requires p0 + 16 <= |input|
    ensures v' == StripeRound(v, input, p0) && p == p0 + 16
  {
    p := p0;
    var v1 := Round(v.a1, LaneAt(input, p));
    p := p + 4;
    var v2 := Round(v.a2, LaneAt(input, p));
    p := p + 4;
    var v3 := Round(v.a3, LaneAt(input, p));
    p := p + 4;
    var v4 := Round(v.a4, LaneAt(input, p));
    p := p + 4;
    v' := Accumulators(v1, v2, v3, v4);
  }

  /** Where the stripe loop stops. */
  lemma LastStripe(length: nat, n: nat)
    requires 16 * n <= length < 16 * n + 16
    ensures n == length / 16
  {
  }

  /** One turn of the stripe loop after `n`. */
  method NextStripe(v: Accumulators, input: Message, p0: nat, ghost v0: Accumulators, ghost n: nat)
    returns (v': Accumulators, p: nat)
    requires p0 == 16 * n && p0 + 16 <= |input| && v == Step2(v0, input, n)
    ensures p == 16 * (n + 1) && v' == Step2(v0, input, n + 1)
  {
    v', p := ReadStripe(v, input, p0);
  }

  /** The stripe loop, which runs at least once. */
  method ReadStripes(v: Accumulators, input: Message) returns (v': Accumulators, p: nat)
    requires |input| >= 16
    ensures v' == Step2(v, input, |input| / 16) && p == |input| / 16 * 16
  {
    var limit := |input| - 15;
    ghost var n := 1;
    v', p := NextStripe(v, input, 0, v, 0);
    while p < limit
      invariant p == 16 * n <= |input| && v' == Step2(v, input, n)
    {
      v', p := NextStripe(v', input, p, v, n);
      n := n + 1;
    }
    LastStripe(|input|, n);
  }

  lemma SumOfFour(r1: Word32, r2: Word32, r3: Word32, r4: Word32)
    ensures Add(Add(Add(r1, r2), r3), r4) == (r1 as int + r2 as int + r3 as int + r4 as int) % 0x1_0000_0000
  {
    SumOfRemainder(r3, r1 as int + r2 as int);
    SumOfRemainder(r4, r1 as int + r2 as int + r3 as int);
  }

  lemma ConvergeIs(v: Accumulators, r1: Word32, r2: Word32, r3: Word32, r4: Word32)
    requires r1 == RotateLeft(v.a1, 0x2, 0x8000_0000) && r2 == RotateLeft(v.a2, 0x80, 0x200_0000)
    requires r3 == RotateLeft(v.a3, 0x1000, 0x10_0000) && r4 == RotateLeft(v.a4, 0x4_0000, 0x4000)
    ensures (r1 as int + r2 as int + r3 as int + r4 as int) % 0x1_0000_0000 == Step3(v.a1, v.a2, v.a3, v.a4)
  {
  }

  /** The sum of the four rotated lanes. */
  method Converge(v: Accumulators) returns (h32: Word32)
    ensures h32 == Step3(v.a1, v.a2, v.a3, v.a4)
  {
    var r1 := Rotl(v.a1, 1, 0x2, 0x8000_0000);
    var r2 := Rotl(v.a2, 7, 0x80, 0x200_0000);
    var r3 := Rotl(v.a3, 12, 0x1000, 0x10_0000);
    var r4 := Rotl(v.a4, 18, 0x4_0000, 0x4000);
    SumOfFour(r1, r2, r3, r4);
    ConvergeIs(v, r1, r2, r3, r4);
    h32 := Add(Add(Add(r1, r2), r3), r4);
  }

  method InitialLanes(seed: Word32) returns (v: Accumulators)
    ensures v == Step1(seed)
  {
    v := Accumulators(Add(Add(seed, PRIME32_1), PRIME32_2), Add(seed, PRIME32_2), Add(seed, 0), Sub(seed, PRIME32_1));
  }

  method AddLength(h0: Word32, len: nat) returns (h32: Word32)
    ensures h32 == Step4(h0, len)
  {
    SumOfRemainder(h0, len);
    h32 := Add(h0, len % 0x1_0000_0000);
  }

  method Accumulate(input: Message, seed: Word32) returns (h32: Word32, p: nat)
    ensures h32 == Gathered(input, seed) && p == |input| / 16 * 16
  {
    if |input| >= 16 {
      var v := InitialLanes(seed);
      v, p := ReadStripes(v, input);
      h32 := Converge(v);
    } else {
      h32, p := Add(seed, PRIME32_5), 0;
    }
  }

  /** internal_xxh32_endian_align computes the specified hash for every length and seed. */
  method EndianAlign(input: Message, seed: Word32) returns (r: Word32)
    ensures r == Hash(input, seed)
  {
    var h32, p := Accumulate(input, seed);
    h32 := AddLength(h32, |input|);
    r := Finalize(h32, input, p, |input| % 16);
  }
}

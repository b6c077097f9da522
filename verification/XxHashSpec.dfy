/** The 32-bit hash of the xxHash fast digest algorithm specification, "XXH32 Algorithm Description",
    in plain arithmetic on integers. */
module XxHashSpec {
  import opened Arithmetic
  import opened DataType

  type Message = seq<Byte>

  /** Four bytes, least significant first. */
  function ReadLane(b0: Byte, b1: Byte, b2: Byte, b3: Byte): Word32 {
    (b0 as int) + 0x100 * (b1 as int) + 0x1_0000 * (b2 as int) + 0x100_0000 * (b3 as int)
  }

  function LaneAt(m: Message, p: nat): Word32
    requires p + 4 <= |m|
  {
    ReadLane(m[p], m[p + 1], m[p + 2], m[p + 3])
  }

  /** x <<< n, with up = 2^n and down = 2^(32-n). */
  function RotateLeft(x: int, up: int, down: int): int
    requires down > 0
  {
    x * up % 0x1_0000_0000 + x / down
  }

  datatype Accumulators = Accumulators(a1: Word32, a2: Word32, a3: Word32, a4: Word32)

  /** Step 1. Initialize internal accumulators. */
  function Step1(seed: Word32): Accumulators {
    Accumulators((seed as int + 0x9E3779B1 + 0x85EBCA77) % 0x1_0000_0000,
                 (seed as int + 0x85EBCA77) % 0x1_0000_0000,
                 seed,
                 (seed as int - 0x9E3779B1) % 0x1_0000_0000)
  }

  function AccumulatorRound(a: Word32, lane: Word32): Word32 {
    RotateLeft((a as int + lane as int * 0x85EBCA77) % 0x1_0000_0000, 0x2000, 0x8_0000) * 0x9E3779B1 % 0x1_0000_0000
  }

  function StripeRound(a: Accumulators, m: Message, p: nat): Accumulators
    requires p + 16 <= |m|
  {
    Accumulators(AccumulatorRound(a.a1, LaneAt(m, p)), AccumulatorRound(a.a2, LaneAt(m, p + 4)),
                 AccumulatorRound(a.a3, LaneAt(m, p + 8)), AccumulatorRound(a.a4, LaneAt(m, p + 12)))
  }

  /** Step 2. Process the first `n` stripes. */
  function Step2(a: Accumulators, m: Message, n: nat): Accumulators
    requires 16 * n <= |m|
  {
    if n == 0 then a else StripeRound(Step2(a, m, n - 1), m, 16 * (n - 1))
  }

  /** Step 3. Accumulator convergence: rotations by 1, 7, 12 and 18. */
  function Step3(a1: Word32, a2: Word32, a3: Word32, a4: Word32): Word32 {
    (RotateLeft(a1, 0x2, 0x8000_0000) + RotateLeft(a2, 0x80, 0x200_0000)
     + RotateLeft(a3, 0x1000, 0x10_0000) + RotateLeft(a4, 0x4_0000, 0x4000)) % 0x1_0000_0000
  }

  /** Step 4. Add input length. */
  function Step4(acc: Word32, length: nat): Word32 {
    (acc as int + length) % 0x1_0000_0000
  }

  function WordRound(acc: Word32, lane: Word32): Word32 {
    RotateLeft((acc as int + lane as int * 0xC2B2AE3D) % 0x1_0000_0000, 0x2_0000, 0x8000) * 0x27D4EB2F % 0x1_0000_0000
  }

  function ByteRound(acc: Word32, lane: Byte): Word32 {
    RotateLeft((acc as int + lane as int * 0x165667B1) % 0x1_0000_0000, 0x800, 0x20_0000) * 0x9E3779B1 % 0x1_0000_0000
  }

  /** Step 5. Consume remaining input. */
  function Step5(acc: Word32, rest: Message): Word32
    decreases |rest|
  {
    if |rest| >= 4 then Step5(WordRound(acc, LaneAt(rest, 0)), rest[4..])
    else if |rest| >= 1 then Step5(ByteRound(acc, rest[0]), rest[1..])
    else acc
  }

  /** Step 6. Final mix (avalanche): x ^ (x >> n), with x >> n written as a quotient. */
  function Step6(acc: Word32): Word32 {
    Powers();
    XorQuotientInWord(acc, 15, 0x8000);
    var a: Word32 := BitXor(acc, acc / 0x8000) * 0x85EBCA77 % 0x1_0000_0000;
    XorQuotientInWord(a, 13, 0x2000);
    var b: Word32 := BitXor(a, a / 0x2000) * 0xC2B2AE3D % 0x1_0000_0000;
    XorQuotientInWord(b, 16, 0x1_0000);
    BitXor(b, b / 0x1_0000)
  }

  /** Steps 1 to 3, or the short form for less than one stripe. */
  function Gathered(m: Message, seed: Word32): Word32 {
    if |m| >= 16 then
      var a := Step2(Step1(seed), m, |m| / 16);
      Step3(a.a1, a.a2, a.a3, a.a4)
    else (seed as int + 0x165667B1) % 0x1_0000_0000
  }

  /** Steps 1 to 7. */
  function Hash(m: Message, seed: Word32): Word32 {
    Step6(Step5(Step4(Gathered(m, seed), |m|), m[|m| / 16 * 16..]))
  }
}

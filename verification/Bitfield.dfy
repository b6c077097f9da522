/** The bitfield of src/structures/Bitfield.h, on 64-bit words. */
module Bitfield {

  // Bits -------------------------------------------------------------------------------
  // The operators get names of their own, so that only the one-step lemmas look at bits.

  const ALL_SET: bv64 := 0xFFFF_FFFF_FFFF_FFFF

  function And(x: bv64, y: bv64): bv64 { x & y }

  function Or(x: bv64, y: bv64): bv64 { x | y }

  function Not(x: bv64): bv64 { !x }

  /** y & ~x */
  function AndNot(x: bv64, y: bv64): bv64 { (!x) & y }

  /** x ^ y (XorIsOperator) */
  function Xor(x: bv64, y: bv64): bv64 { AndNot(And(x, y), Or(x, y)) }

  function Half(x: bv64): bv64 { x >> 1 }

  function Double(x: bv64): bv64 { x << 1 }

  function DropByte(x: bv64): bv64 { x >> 8 }

  predicate Odd(x: bv64) { x & 1 == 1 }

  /** Bit `k` of a word. */
  predicate Bit(w: bv64, k: nat) {
    if k == 0 then Odd(w) else Bit(Half(w), k - 1)
  }

  /** 1 << k */
  function Mask(k: nat): bv64 {
    if k == 0 then 1 else Double(Mask(k - 1))
  }

  lemma MaskSteps(n: nat)
    ensures Mask(0) == 1 && Mask(n + 1) == Mask(n) << 1
  {
  }

  lemma AndSteps(x: bv64, y: bv64)
    ensures Half(And(x, y)) == And(Half(x), Half(y)) && (Odd(And(x, y)) <==> Odd(x) && Odd(y))
  {
  }

  lemma OrHalf(x: bv64, y: bv64)
    ensures Half(Or(x, y)) == Or(Half(x), Half(y))
  {
  }

  lemma OrOdd(x: bv64, y: bv64)
    ensures Odd(Or(x, y)) <==> Odd(x) || Odd(y)
  {
  }

  lemma AndNotSteps(x: bv64, m: bv64)
    ensures Half(AndNot(x, m)) == AndNot(Half(x), Half(m)) && (Odd(AndNot(x, m)) <==> !Odd(x) && Odd(m))
  {
  }

  lemma DoubleSteps(x: bv64)
    ensures Half(Double(x)) == And(x, 0x7FFF_FFFF_FFFF_FFFF) && !Odd(Double(x))
  {
  }

  lemma XorIsOperator(x: bv64, y: bv64)
    ensures Xor(x, y) == x ^ y
  {
  }

  lemma NotHasAllBits(x: bv64)
    ensures Not(x) == AndNot(x, ALL_SET)
  {
  }

  lemma EightHalves(x: bv64)
    ensures DropByte(x) == Half(Half(Half(Half(Half(Half(Half(Half(x))))))))
  {
  }

  lemma {:induction false} BitOfAnd(x: bv64, y: bv64, k: nat)
    ensures Bit(And(x, y), k) <==> Bit(x, k) && Bit(y, k)
  {
    AndSteps(x, y);
    if k > 0 {
      BitOfAnd(Half(x), Half(y), k - 1);
    }
  }

  lemma {:induction false} BitOfOr(x: bv64, y: bv64, k: nat)
    ensures Bit(Or(x, y), k) <==> Bit(x, k) || Bit(y, k)
  {
    OrHalf(x, y);
    OrOdd(x, y);
    if k > 0 {
      BitOfOr(Half(x), Half(y), k - 1);
    }
  }

  lemma {:induction false} BitOfZero(k: nat)
    ensures !Bit(0, k)
  {
    assert Half(0) == 0;
    if k > 0 {
      BitOfZero(k - 1);
    }
  }

  /** The lowest `n` bits are set and no other. */
  ghost predicate LowSet(x: bv64, n: nat) {
    if n == 0 then x == 0 else Odd(x) && LowSet(Half(x), n - 1)
  }

  lemma {:induction false} BitOfLowSet(x: bv64, n: nat, k: nat)
    requires LowSet(x, n)
    ensures Bit(x, k) <==> k < n
  {
    if n == 0 {
      BitOfZero(k);
    } else if k > 0 {
      BitOfLowSet(Half(x), n - 1, k - 1);
    }
  }

  lemma LowSetMore(x: bv64, n: nat)
    requires LowSet(x >> 7, n) && x & 0x7f == 0x7f
    ensures LowSet(x, n + 7)
  {
    assert LowSet(x >> 6, n + 1) && LowSet(x >> 5, n + 2) && LowSet(x >> 4, n + 3);
    assert LowSet(x >> 3, n + 4) && LowSet(x >> 2, n + 5) && LowSet(x >> 1, n + 6);
  }

  lemma LowSetConstants()
    ensures LowSet(0xff, 8) && LowSet(0x7FFF_FFFF_FFFF_FFFF, 63) && LowSet(ALL_SET, 64)
  {
    LowSetMore(0x7f, 0);
    assert Half(0xff) == 0x7f;
    LowSetMore(0x3FFF, 7);
    LowSetMore(0x1F_FFFF, 14);
    LowSetMore(0xFFF_FFFF, 21);
    LowSetMore(0x7_FFFF_FFFF, 28);
    LowSetMore(0x3FF_FFFF_FFFF, 35);
    LowSetMore(0x1_FFFF_FFFF_FFFF, 42);
    LowSetMore(0xFF_FFFF_FFFF_FFFF, 49);
    LowSetMore(0x7FFF_FFFF_FFFF_FFFF, 56);
    assert Half(ALL_SET) == 0x7FFF_FFFF_FFFF_FFFF;
  }

  lemma {:induction false} BitOfAndNot(x: bv64, y: bv64, k: nat)
    ensures Bit(AndNot(x, y), k) <==> !Bit(x, k) && Bit(y, k)
  {
    AndNotSteps(x, y);
    if k > 0 {
      BitOfAndNot(Half(x), Half(y), k - 1);
    }
  }

  lemma BitOfNot(x: bv64, k: nat)
    requires k < 64
    ensures Bit(Not(x), k) <==> !Bit(x, k)
  {
    LowSetConstants();
    BitOfLowSet(ALL_SET, 64, k);
    BitOfAndNot(x, ALL_SET, k);
    NotHasAllBits(x);
  }

  lemma BitOfXor(x: bv64, y: bv64, k: nat)
    ensures Bit(Xor(x, y), k) <==> Bit(x, k) != Bit(y, k)
  {
    BitOfAndNot(And(x, y), Or(x, y), k);
    BitOfOr(x, y, k);
    BitOfAnd(x, y, k);
  }

  lemma BitOfDouble(m: bv64, k: nat)
    ensures Bit(Double(m), k) <==> 0 < k < 64 && Bit(m, k - 1)
  {
    DoubleSteps(m);
    if k > 0 {
      LowSetConstants();
      BitOfAnd(m, 0x7FFF_FFFF_FFFF_FFFF, k - 1);
      BitOfLowSet(0x7FFF_FFFF_FFFF_FFFF, 63, k - 1);
    }
  }

  lemma {:induction false} BitOfMask(n: nat, k: nat)
    requires n < 64
    ensures Bit(Mask(n), k) <==> k == n
  {
    if n == 0 {
      assert Half(1) == 0;
      if k > 0 {
        BitOfZero(k - 1);
      }
    } else {
      BitOfDouble(Mask(n - 1), k);
      if k > 0 {
        BitOfMask(n - 1, k - 1);
      }
    }
  }

  /** w >> 8 * i */
  function Dropped(w: bv64, i: nat): bv64 {
    if i == 0 then w else DropByte(Dropped(w, i - 1))
  }

  lemma BitOfDropByte(w: bv64, k: nat)
    ensures Bit(DropByte(w), k) <==> Bit(w, k + 8)
  {
    EightHalves(w);
    var w4 := Half(Half(Half(Half(w))));
    assert Bit(w, k + 8) == Bit(Half(w), k + 7) == Bit(Half(Half(w)), k + 6) == Bit(w4, k + 4);
    assert Bit(w4, k + 4) == Bit(Half(w4), k + 3) == Bit(Half(Half(w4)), k + 2) == Bit(Half(Half(Half(Half(w4)))), k);
  }

  lemma {:induction false} BitOfDropped(w: bv64, i: nat, k: nat)
    ensures Bit(Dropped(w, i), k) <==> Bit(w, 8 * i + k)
  {
    if i > 0 {
      BitOfDropByte(Dropped(w, i - 1), k);
      BitOfDropped(w, i - 1, k + 8);
    }
  }

  /** EXTRACT_BYTE */
  function ByteAt(w: bv64, i: nat): bv64 {
    And(Dropped(w, i), 0xff)
  }

  lemma BitOfByte(w: bv64, i: nat, k: nat)
    ensures Bit(ByteAt(w, i), k) <==> k < 8 && Bit(w, 8 * i + k)
  {
    BitOfAnd(Dropped(w, i), 0xff, k);
    LowSetConstants();
    BitOfLowSet(0xff, 8, k);
    BitOfDropped(w, i, k);
  }

  lemma NonzeroSteps(x: bv64)
    ensures x != 0 <==> Odd(x) || Half(x) != 0
    ensures x != 0 ==> Half(x) < x
  {
  }

  /** A word other than 0 has a set bit. */
  lemma {:induction false} SomeBit(x: bv64) returns (k: nat)
    requires x != 0
    ensures Bit(x, k)
    decreases x
  {
    NonzeroSteps(x);
    if Odd(x) {
      k := 0;
    } else {
      k := SomeBit(Half(x));
      k := k + 1;
    }
  }

  /** Masking with 1 << n leaves something exactly when bit `n` is set. */
  lemma MaskIsolates(w: bv64, n: nat)
    requires n < 64
    ensures And(w, Mask(n)) != 0 <==> Bit(w, n)
  {
    BitOfAnd(w, Mask(n), n);
    BitOfMask(n, n);
    BitOfZero(n);
    if And(w, Mask(n)) != 0 {
      var k := SomeBit(And(w, Mask(n)));
      BitOfAnd(w, Mask(n), k);
      BitOfMask(n, k);
    }
  }

  // Visits -------------------------------------------------------------------------------

  /** `bit_index` and `bit_value` of one run of the code block. */
  datatype Visit = Visit(index: nat, value: int)

  /** Filter 0 takes the cleared bits, 1 the set ones, anything else all. */
  predicate Wanted(filter: int, bit: bool) {
    (filter == 0 ==> !bit) && (filter == 1 ==> bit)
  }

  ghost predicate Seen(v: seq<Visit>, k: nat) {
    exists i :: 0 <= i < |v| && v[i].index == k
  }

  /** `v` visits exactly the wanted bits at `lo..hi`, once each, in ascending order. */
  ghost predicate Visits(v: seq<Visit>, bits: seq<bool>, filter: int, lo: nat, hi: nat)
    requires hi <= |bits|
  {
    && (forall i :: 0 <= i < |v| ==> lo <= v[i].index < hi && Wanted(filter, bits[v[i].index]))
    && (forall i :: 0 <= i < |v| ==> v[i].index < hi && v[i].value == if bits[v[i].index] then 1 else 0)
    && (forall i, j :: 0 <= i < j < |v| ==> v[i].index < v[j].index)
    && (forall k :: lo <= k < hi && Wanted(filter, bits[k]) ==> Seen(v, k))
  }

  lemma VisitsJoin(a: seq<Visit>, b: seq<Visit>, bits: seq<bool>, filter: int, lo: nat, mid: nat, hi: nat)
    requires lo <= mid <= hi <= |bits| && Visits(a, bits, filter, lo, mid) && Visits(b, bits, filter, mid, hi)
    ensures Visits(a + b, bits, filter, lo, hi)
  {
    var v := a + b;
    forall k | lo <= k < hi && Wanted(filter, bits[k])
      ensures Seen(v, k)
    {
      if k < mid {
        assert Seen(a, k);
        var i :| 0 <= i < |a| && a[i].index == k;
        assert v[i].index == k;
      } else {
        assert Seen(b, k);
        var i :| 0 <= i < |b| && b[i].index == k;
        assert v[|a| + i].index == k;
      }
    }
  }

  /** One more visit, past bits that are not wanted. */
  lemma VisitsOne(v: seq<Visit>, bits: seq<bool>, filter: int, lo: nat, mid: nat, k: nat)
    requires lo <= mid <= k < |bits| && Visits(v, bits, filter, lo, mid) && Wanted(filter, bits[k])
    requires forall j :: mid <= j < k ==> !Wanted(filter, bits[j])
    ensures Visits(v + [Visit(k, if bits[k] then 1 else 0)], bits, filter, lo, k + 1)
  {
    var one := [Visit(k, if bits[k] then 1 else 0)];
    assert one[0].index == k;
    VisitsJoin(v, one, bits, filter, lo, mid, k + 1);
  }

  /** __builtin_ffs less one. */
  function LowestBit(b: bv64): (k: nat)
    requires b != 0
    ensures Bit(b, k) && forall j :: 0 <= j < k ==> !Bit(b, j)
    decreases b
  {
    NonzeroSteps(b);
    if Odd(b) then 0 else 1 + LowestBit(Half(b))
  }

  /** What is left of `byte0` has the bits from `next` on. */
  ghost predicate Remaining(byte: bv64, byte0: bv64, next: nat) {
    forall k: nat :: Bit(byte, k) <==> k >= next && Bit(byte0, k)
  }

  /** The set bits of a byte are the wanted ones of eight. */
  ghost predicate Selects(byte0: bv64, bits: seq<bool>, base: nat, filter: int) {
    && (filter == 0 || filter == 1) && base + 8 <= |bits|
    && (forall k :: Bit(byte0, k) ==> k < 8)
    && (forall k :: 0 <= k < 8 ==> (Bit(byte0, k) <==> Wanted(filter, bits[base + k])))
  }

  lemma ClearLowest(byte: bv64, byte0: bv64, next: nat, bit: nat)
    requires Remaining(byte, byte0, next) && bit < 64
    requires Bit(byte, bit) && forall j :: 0 <= j < bit ==> !Bit(byte, j)
    ensures Remaining(Xor(byte, Mask(bit)), byte0, bit + 1)
  {
    forall k: nat
      ensures Bit(Xor(byte, Mask(bit)), k) <==> k >= bit + 1 && Bit(byte0, k)
    {
      BitOfXor(byte, Mask(bit), k);
      BitOfMask(bit, k);
      assert k < bit ==> !Bit(byte, k);
    }
  }

  /** One turn of the loop over the set bits. */
  method VisitLowest(v: seq<Visit>, byte: bv64, base: nat, filter: int,
                    ghost byte0: bv64, ghost next: nat, ghost bits: seq<bool>)
    returns (v': seq<Visit>, byte': bv64, ghost next': nat)
    requires byte != 0 && Selects(byte0, bits, base, filter) && Remaining(byte, byte0, next)
    requires next <= 8 && Visits(v, bits, filter, base, base + next)
    ensures next < next' <= 8 && Remaining(byte', byte0, next') && Visits(v', bits, filter, base, base + next')
  {
    var bit := LowestBit(byte);
    assert Bit(byte, bit);
    forall j | base + next <= j < base + bit
      ensures !Wanted(filter, bits[j])
    {
      assert !Bit(byte, j - base);
    }
    VisitsOne(v, bits, filter, base, base + next, base + bit);
    ClearLowest(byte, byte0, next, bit);
    byte' := Xor(byte, Mask(bit));
    v' := v + [Visit(base + bit, filter)];
    next' := bit + 1;
  }

  lemma NothingLeft(byte0: bv64, base: nat, filter: int, next: nat, v: seq<Visit>, bits: seq<bool>)
    requires Selects(byte0, bits, base, filter) && Remaining(0, byte0, next)
    requires next <= 8 && Visits(v, bits, filter, base, base + next)
    ensures Visits(v, bits, filter, base, base + 8)
  {
    forall k | base + next <= k < base + 8
      ensures !Wanted(filter, bits[k])
    {
      BitOfZero(k - base);
      assert !Bit(byte0, k - base);
    }
    VisitsJoin(v, [], bits, filter, base, base + next, base + 8);
    assert v + [] == v;
  }

  /** internal_bitfield_for_each_set */
  method EachSet(byte0: bv64, base: nat, filter: int, ghost bits: seq<bool>) returns (v: seq<Visit>)
    requires Selects(byte0, bits, base, filter)
    ensures Visits(v, bits, filter, base, base + 8)
    ensures forall k :: base <= k < base + 8 ==> (Seen(v, k) <==> Bit(byte0, k - base))
    ensures forall i :: 0 <= i < |v| ==> base <= v[i].index < base + 8 && v[i].value == filter
  {
    var byte := byte0;
    v := [];
    ghost var next := 0;
    while byte != 0
      invariant 0 <= next <= 8 && Visits(v, bits, filter, base, base + next) && Remaining(byte, byte0, next)
      decreases 8 - next
    {
      v, byte, next := VisitLowest(v, byte, base, filter, byte0, next, bits);
    }
    NothingLeft(byte0, base, filter, next, v, bits);
    forall k | base <= k < base + 8
      ensures Seen(v, k) <==> Bit(byte0, k - base)
    {
      assert Bit(byte0, k - base) <==> Wanted(filter, bits[base + (k - base)]);
    }
  }

  /** b >> i */
  ghost function Halved(b: bv64, i: nat): bv64 {
    if i == 0 then b else Half(Halved(b, i - 1))
  }

  lemma {:induction false} BitOfHalved(b: bv64, i: nat, k: nat)
    ensures Bit(Halved(b, i), k) <==> Bit(b, i + k)
  {
    if i > 0 {
      BitOfHalved(b, i - 1, k + 1);
    }
  }

  lemma OddOfHalved(b: bv64, i: nat)
    ensures Odd(Halved(b, i)) <==> Bit(b, i)
  {
    BitOfHalved(b, i, 0);
  }

  /** `v` visits the bits of a byte one after the other, each with its value. */
  ghost predicate EveryBit(v: seq<Visit>, byte0: bv64, base: nat) {
    forall i :: 0 <= i < |v| ==> v[i] == Visit(base + i, if Bit(byte0, i) then 1 else 0)
  }

  lemma EveryBitOneMore(v: seq<Visit>, byte0: bv64, base: nat)
    requires EveryBit(v, byte0, base)
    ensures EveryBit(v + [Visit(base + |v|, if Bit(byte0, |v|) then 1 else 0)], byte0, base)
  {
  }

  /** One turn of the loop over all eight bits. */
  method VisitBit(v: seq<Visit>, byte: bv64, i: nat, base: nat, filter: int, ghost byte0: bv64, ghost bits: seq<bool>)
    returns (v': seq<Visit>, byte': bv64)
    requires filter != 0 && filter != 1 && i < 8 && base + 8 <= |bits|
    requires byte == Halved(byte0, i) && (Bit(byte0, i) <==> bits[base + i])
    requires Visits(v, bits, filter, base, base + i) && |v| == i && EveryBit(v, byte0, base)
    ensures byte' == Halved(byte0, i + 1) && Visits(v', bits, filter, base, base + i + 1)
    ensures |v'| == i + 1 && EveryBit(v', byte0, base)
  {
    var value := if Odd(byte) then 1 else 0;
    v' := v + [Visit(base + i, value)];
    byte' := Half(byte);
    OddOfHalved(byte0, i);
    BitTaken(v, i, base, filter, byte0, bits);
  }

  lemma BitTaken(v: seq<Visit>, i: nat, base: nat, filter: int, byte0: bv64, bits: seq<bool>)
    requires filter != 0 && filter != 1 && i < 8 && base + 8 <= |bits| && (Bit(byte0, i) <==> bits[base + i])
    requires Visits(v, bits, filter, base, base + i) && |v| == i && EveryBit(v, byte0, base)
    ensures Visits(v + [Visit(base + i, if Bit(byte0, i) then 1 else 0)], bits, filter, base, base + i + 1)
    ensures EveryBit(v + [Visit(base + i, if Bit(byte0, i) then 1 else 0)], byte0, base)
  {
    VisitsOne(v, bits, filter, base, base + i, base + i);
    EveryBitOneMore(v, byte0, base);
  }

  /** internal_bitfield_for_each: all eight bits. */
  method EachBit(byte0: bv64, base: nat, filter: int, ghost bits: seq<bool>) returns (v: seq<Visit>)
    requires filter != 0 && filter != 1 && base + 8 <= |bits|
    requires forall k :: 0 <= k < 8 ==> (Bit(byte0, k) <==> bits[base + k])
    ensures Visits(v, bits, filter, base, base + 8)
    ensures |v| == 8 && EveryBit(v, byte0, base)
  {
    var byte := byte0;
    v := [];
    for i := 0 to 8
      invariant byte == Halved(byte0, i) && Visits(v, bits, filter, base, base + i)
      invariant |v| == i && EveryBit(v, byte0, base)
    {
      v, byte := VisitBit(v, byte, i, base, filter, byte0, bits);
    }
  }

  lemma BitsOfByte(w: bv64, i: nat, base: nat, filter: int, bits: seq<bool>)
    requires i < 8 && base + 64 <= |bits|
    requires forall k :: 0 <= k < 64 ==> (Bit(w, k) <==> if filter == 0 then !bits[base + k] else bits[base + k])
    ensures forall k :: Bit(ByteAt(w, i), k) ==> k < 8
    ensures forall k :: 0 <= k < 8 ==>
              (Bit(ByteAt(w, i), k) <==> if filter == 0 then !bits[base + 8 * i + k] else bits[base + 8 * i + k])
  {
    forall k
      ensures Bit(ByteAt(w, i), k) <==> k < 8 && Bit(w, 8 * i + k)
    {
      BitOfByte(w, i, k);
    }
    forall k | 0 <= k < 8
      ensures Bit(ByteAt(w, i), k) <==> if filter == 0 then !bits[base + 8 * i + k] else bits[base + 8 * i + k]
    {
      assert Bit(w, 8 * i + k) <==> if filter == 0 then !bits[base + (8 * i + k)] else bits[base + (8 * i + k)];
    }
  }

  /** Byte `i` of a word, which is the word itself or, for filter 0, its complement. */
  method VisitByte(v: seq<Visit>, w: bv64, i: nat, base: nat, filter: int, ghost bits: seq<bool>)
    returns (v': seq<Visit>)
    requires i < 8 && base + 64 <= |bits| && Visits(v, bits, filter, base, base + 8 * i)
    requires forall k :: 0 <= k < 64 ==> (Bit(w, k) <==> if filter == 0 then !bits[base + k] else bits[base + k])
    ensures Visits(v', bits, filter, base, base + 8 * i + 8)
  {
    var byte := ByteAt(w, i);
    BitsOfByte(w, i, base, filter, bits);
    var part;
    if filter == 0 || filter == 1 {
      part := EachSet(byte, base + 8 * i, filter, bits);
    } else {
      part := EachBit(byte, base + 8 * i, filter, bits);
    }
    VisitsJoin(v, part, bits, filter, base, base + 8 * i, base + 8 * i + 8);
    v' := v + part;
  }

  /** The eight bytes of a word, lowest first. */
  method VisitBytes(w: bv64, base: nat, filter: int, ghost bits: seq<bool>) returns (v: seq<Visit>)
    requires base + 64 <= |bits|
    requires forall k :: 0 <= k < 64 ==> (Bit(w, k) <==> if filter == 0 then !bits[base + k] else bits[base + k])
    ensures Visits(v, bits, filter, base, base + 64)
  {
    v := VisitByte([], w, 0, base, filter, bits);
    v := VisitByte(v, w, 1, base, filter, bits);
    v := VisitByte(v, w, 2, base, filter, bits);
    v := VisitByte(v, w, 3, base, filter, bits);
    v := VisitByte(v, w, 4, base, filter, bits);
    v := VisitByte(v, w, 5, base, filter, bits);
    v := VisitByte(v, w, 6, base, filter, bits);
    v := VisitByte(v, w, 7, base, filter, bits);
  }

  /** `bits` reads the word `w` from `base` on. */
  ghost predicate WordHolds(w: bv64, bits: seq<bool>, base: nat) {
    base + 64 <= |bits| && forall k :: 0 <= k < 64 ==> (Bit(w, k) <==> bits[base + k])
  }

  /** One word, with the shortcuts that `dense` selects. */
  method VisitWord(w: bv64, base: nat, filter: int, dense: bool, ghost bits: seq<bool>) returns (v: seq<Visit>)
    requires WordHolds(w, bits, base)
    ensures Visits(v, bits, filter, base, base + 64)
  {
    if filter == 0 {
      if dense && w == ALL_SET {
        forall k | base <= k < base + 64
          ensures bits[k]
        {
          LowSetConstants();
          BitOfLowSet(w, 64, k - base);
          assert Bit(w, k - base) <==> bits[base + (k - base)];
        }
        return [];
      }
      forall k | 0 <= k < 64
        ensures Bit(Not(w), k) <==> !bits[base + k]
      {
        BitOfNot(w, k);
      }
      v := VisitBytes(Not(w), base, filter, bits);
    } else if filter == 1 {
      if !dense && w == 0 {
        forall k | base <= k < base + 64
          ensures !bits[k]
        {
          BitOfZero(k - base);
          assert Bit(w, k - base) <==> bits[base + (k - base)];
        }
        return [];
      }
      v := VisitBytes(w, base, filter, bits);
    } else {
      v := VisitBytes(w, base, filter, bits);
    }
  }

  // The object ----------------------------------------------------------------------------

  predicate BitOf(words: seq<bv64>, k: nat)
    requires k < 64 * |words|
  {
    Bit(words[k / 64], k % 64)
  }

  ghost function AllBits(words: seq<bv64>): (bits: seq<bool>)
    ensures |bits| == 64 * |words| && forall k :: 0 <= k < |bits| ==> (bits[k] <==> BitOf(words, k))
  {
    seq(64 * |words|, k requires 0 <= k < 64 * |words| => BitOf(words, k))
  }

  lemma BitsOfWord(words: seq<bv64>, i: nat)
    requires i < |words|
    ensures WordHolds(words[i], AllBits(words), 64 * i)
  {
    forall k | 0 <= k < 64
      ensures Bit(words[i], k) <==> AllBits(words)[64 * i + k]
    {
      assert (64 * i + k) / 64 == i && (64 * i + k) % 64 == k;
    }
  }

  class Bitfield {
    const data: array<bv64>

    /** The set of indices whose bit is set. */
    ghost function Members(): set<nat>
      reads data
    {
      set k | 0 <= k < 64 * data.Length && BitOf(data[..], k)
    }

    constructor (data: array<bv64>)
      ensures this.data == data
    {
      this.data := data;
    }

    method ClearAll()
      modifies data
      ensures Members() == {}
    {
      for i := 0 to data.Length
        invariant forall j :: 0 <= j < i ==> data[j] == 0
      {
        data[i] := 0;
      }
      forall k | 0 <= k < 64 * data.Length
        ensures !BitOf(data[..], k)
      {
        BitOfZero(k % 64);
      }
    }

    method SetAll()
      modifies data
      ensures forall k: nat :: k in Members() <==> k < 64 * data.Length
    {
      for i := 0 to data.Length
        invariant forall j :: 0 <= j < i ==> data[j] == ALL_SET
      {
        data[i] := ALL_SET;
      }
      LowSetConstants();
      forall k | 0 <= k < 64 * data.Length
        ensures BitOf(data[..], k)
      {
        BitOfLowSet(ALL_SET, 64, k % 64);
      }
    }

    /** Stores a word that differs from the old one in bit `index % 64` only. */
    method Store(index: nat, word: bv64, ghost bit: bool)
      requires index < 64 * data.Length
      requires forall k :: 0 <= k < 64 ==> (Bit(word, k) <==> if k == index % 64 then bit else Bit(data[index / 64], k))
      modifies data
      ensures Members() == if bit then old(Members()) + {index} else old(Members()) - {index}
    {
      ghost var before := data[..];
      data[index / 64] := word;
      forall k | 0 <= k < 64 * data.Length
        ensures BitOf(data[..], k) <==> if k == index then bit else BitOf(before, k)
      {
        if k / 64 == index / 64 {
          assert Bit(word, k % 64) <==> if k % 64 == index % 64 then bit else Bit(before[index / 64], k % 64);
        }
      }
    }

    method Set(index: nat)
      requires index < 64 * data.Length
      modifies data
      ensures Members() == old(Members()) + {index}
    {
      var word, bit := index / 64, index % 64;
      forall k | 0 <= k < 64
        ensures Bit(Or(data[word], Mask(bit)), k) <==> if k == bit then true else Bit(data[word], k)
      {
        BitOfOr(data[word], Mask(bit), k);
        BitOfMask(bit, k);
      }
      Store(index, Or(data[word], Mask(bit)), true);
    }

    method Clear(index: nat)
      requires index < 64 * data.Length
      modifies data
      ensures Members() == old(Members()) - {index}
    {
      var word, bit := index / 64, index % 64;
      forall k | 0 <= k < 64
        ensures Bit(AndNot(Mask(bit), data[word]), k) <==> if k == bit then false else Bit(data[word], k)
      {
        BitOfAndNot(Mask(bit), data[word], k);
        BitOfMask(bit, k);
      }
      Store(index, AndNot(Mask(bit), data[word]), false);
    }

    method Toggle(index: nat)
      requires index < 64 * data.Length
      modifies data
      ensures Members() == if index in old(Members()) then old(Members()) - {index} else old(Members()) + {index}
    {
      var word, bit := index / 64, index % 64;
      ghost var flipped := !Bit(data[word], bit);
      forall k | 0 <= k < 64
        ensures Bit(Xor(data[word], Mask(bit)), k) <==> if k == bit then flipped else Bit(data[word], k)
      {
        BitOfXor(data[word], Mask(bit), k);
        BitOfMask(bit, k);
      }
      Store(index, Xor(data[word], Mask(bit)), flipped);
    }

    method Assign(index: nat, value: int)
      requires index < 64 * data.Length
      modifies data
      ensures Members() == if value != 0 then old(Members()) + {index} else old(Members()) - {index}
    {
      if value != 0 {
        Set(index);
      } else {
        Clear(index);
      }
    }

    method Get(index: nat) returns (value: int)
      requires index < 64 * data.Length
      ensures value == if index in Members() then 1 else 0
    {
      var word, bit := index / 64, index % 64;
      MaskIsolates(data[word], bit);
      value := if And(data[word], Mask(bit)) != 0 then 1 else 0;
    }

    /** bitfield_for_each, with the runs of the code block as the result. */
    method ForEach(filter: int, dense: bool) returns (v: seq<Visit>)
      ensures forall i, j :: 0 <= i < j < |v| ==> v[i].index < v[j].index
      ensures forall i :: 0 <= i < |v| ==> v[i].value == if v[i].index in Members() then 1 else 0
      ensures forall k :: 0 <= k < 64 * data.Length ==>
                (Seen(v, k) <==> if filter == 0 then k !in Members() else if filter == 1 then k in Members() else true)
      ensures forall i :: 0 <= i < |v| ==> v[i].index < 64 * data.Length
    {
      ghost var bits := AllBits(data[..]);
      forall i | 0 <= i < data.Length
        ensures WordHolds(data[i], bits, 64 * i)
      {
        BitsOfWord(data[..], i);
      }
      v := VisitWords(filter, dense, bits);
      assert forall k :: 0 <= k < |bits| ==> (bits[k] <==> k in Members());
    }

    method VisitWords(filter: int, dense: bool, ghost bits: seq<bool>) returns (v: seq<Visit>)
      requires |bits| == 64 * data.Length
      requires forall i :: 0 <= i < data.Length ==> WordHolds(data[i], bits, 64 * i)
      ensures Visits(v, bits, filter, 0, 64 * data.Length)
    {
      v := [];
      for i := 0 to data.Length
        invariant Visits(v, bits, filter, 0, 64 * i)
      {
        var part := VisitWord(data[i], 64 * i, filter, dense, bits);
        VisitsJoin(v, part, bits, filter, 0, 64 * i, 64 * i + 64);
        v := v + part;
      }
    }
  }
}

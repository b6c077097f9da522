/** Division, powers of two, and the bit operators of C on unsigned values. */
module Arithmetic {
  import opened DataType

  // Division ---------------------------------------------------------------------------

  lemma {:induction false} ProductGrows(a: nat, q: nat, q': nat)
    requires q < q'
    ensures a * q + a <= a * q'
  {
    assert a * q' == a * (q' - 1) + a;
    if q < q' - 1 {
      ProductGrows(a, q, q' - 1);
    }
  }

  lemma RemainderUnique(x: nat, a: nat, q: nat, r: nat)
    requires x == a * q + r && r < a
    ensures x / a == q && x % a == r
  {
    var q', r' := x / a, x % a;
    assert x == a * q' + r';
    if q < q' {
      ProductGrows(a, q, q');
    } else if q' < q {
      ProductGrows(a, q', q);
    }
  }

  lemma RemainderOfHalf(x: nat, m: nat, n: nat)
    requires m > 0 && n == 2 * m
    ensures x % n == x % 2 + 2 * (x / 2 % m)
  {
    var q, r := x / 2 / m, x / 2 % m;
    assert x / 2 == m * q + r;
    assert x == n * q + (x % 2 + 2 * r) by {
      assert x == 2 * (x / 2) + x % 2;
      assert 2 * (m * q) == (2 * m) * q;
    }
    RemainderUnique(x, n, q, x % 2 + 2 * r);
  }

  lemma {:induction false} PowerSum(j: nat, k: nat)
    ensures Pow2(j + k) == Pow2(j) * Pow2(k)
  {
    if j > 0 {
      PowerSum(j - 1, k);
      assert Pow2(j + k) == 2 * Pow2(j - 1 + k);
      assert 2 * (Pow2(j - 1) * Pow2(k)) == (2 * Pow2(j - 1)) * Pow2(k);
    }
  }

  lemma EightMore(k: nat)
    ensures Pow2(k + 8) == 0x100 * Pow2(k)
  {
    assert Pow2(k + 8) == 2 * Pow2(k + 7) == 4 * Pow2(k + 6) == 8 * Pow2(k + 5);
    assert Pow2(k + 4) == 2 * Pow2(k + 3) == 4 * Pow2(k + 2) == 8 * Pow2(k + 1);
  }

  lemma WordIsPower32()
    ensures Pow2(32) == 0x1_0000_0000
  {
    EightMore(0);
    EightMore(8);
    EightMore(16);
    EightMore(24);
  }

  // Bits -------------------------------------------------------------------------------

  /** Bit `k` of a number. */
  predicate BitAt(x: nat, k: nat) {
    x / Pow2(k) % 2 == 1
  }

  /** The & operator of C on unsigned values, bit by bit. */
  function BitAnd(x: nat, y: nat): nat
    decreases y
  {
    if y == 0 then 0 else (if x % 2 == 1 && y % 2 == 1 then 1 else 0) + 2 * BitAnd(x / 2, y / 2)
  }

  /** The | operator. */
  function BitOr(x: nat, y: nat): nat
    decreases x + y
  {
    if x == 0 && y == 0 then 0 else (if x % 2 == 1 || y % 2 == 1 then 1 else 0) + 2 * BitOr(x / 2, y / 2)
  }

  /** The ^ operator. */
  function BitXor(x: nat, y: nat): nat
    decreases x + y
  {
    if x == 0 && y == 0 then 0 else (if x % 2 != y % 2 then 1 else 0) + 2 * BitXor(x / 2, y / 2)
  }

  /** The >> operator. */
  function Shr(x: nat, k: nat): nat {
    if k == 0 then x else Shr(x / 2, k - 1)
  }

  /** The << operator, on numbers without a bound. */
  function Shl(x: nat, k: nat): nat {
    if k == 0 then x else 2 * Shl(x, k - 1)
  }

  lemma {:induction false} ShlIsProduct(x: nat, k: nat)
    ensures Shl(x, k) == x * Pow2(k)
  {
    if k > 0 {
      ShlIsProduct(x, k - 1);
      assert x * (2 * Pow2(k - 1)) == 2 * (x * Pow2(k - 1));
    }
  }

  lemma HalfQuotient(x: nat, m: nat)
    requires m > 0
    ensures x / (2 * m) == x / 2 / m
  {
    var q, r := x / 2 / m, x / 2 % m;
    assert x / 2 == m * q + r;
    assert 2 * (m * q) == (2 * m) * q;
    RemainderUnique(x, 2 * m, q, x % 2 + 2 * r);
  }

  lemma {:induction false} ShrIsQuotient(x: nat, k: nat)
    ensures Shr(x, k) == x / Pow2(k)
  {
    if k > 0 {
      ShrIsQuotient(x / 2, k - 1);
      HalfQuotient(x, Pow2(k - 1));
    }
  }

  lemma {:induction false} ShrAtMost(x: nat, k: nat)
    ensures Shr(x, k) <= x
  {
    if k > 0 {
      ShrAtMost(x / 2, k - 1);
    }
  }

  /** Bit `k` is bit `k - 1` of the half. */
  lemma BitOfHalf(x: nat, k: nat)
    ensures k == 0 ==> (BitAt(x, k) <==> x % 2 == 1)
    ensures k > 0 ==> (BitAt(x, k) <==> BitAt(x / 2, k - 1))
  {
    if k > 0 {
      HalfQuotient(x, Pow2(k - 1));
    }
  }

  /** The operators act on each bit. */
  lemma {:induction false} BitOperators(x: nat, y: nat, k: nat)
    ensures BitAt(BitAnd(x, y), k) <==> BitAt(x, k) && BitAt(y, k)
    ensures BitAt(BitOr(x, y), k) <==> BitAt(x, k) || BitAt(y, k)
    ensures BitAt(BitXor(x, y), k) <==> BitAt(x, k) != BitAt(y, k)
    decreases k
  {
    BitOfHalf(x, k);
    BitOfHalf(y, k);
    HalfOfAnd(x, y);
    HalfOfOr(x, y);
    HalfOfXor(x, y);
    BitOfHalf(BitAnd(x, y), k);
    BitOfHalf(BitOr(x, y), k);
    BitOfHalf(BitXor(x, y), k);
    if k > 0 {
      BitOperators(x / 2, y / 2, k - 1);
    }
  }

  lemma HalfOfAnd(x: nat, y: nat)
    ensures BitAnd(x, y) / 2 == BitAnd(x / 2, y / 2)
    ensures BitAnd(x, y) % 2 == 1 <==> x % 2 == 1 && y % 2 == 1
  {
    assert BitAnd(x / 2, 0) == 0;
  }

  lemma HalfOfOr(x: nat, y: nat)
    ensures BitOr(x, y) / 2 == BitOr(x / 2, y / 2)
    ensures BitOr(x, y) % 2 == 1 <==> x % 2 == 1 || y % 2 == 1
  {
    assert BitOr(0, 0) == 0;
  }

  lemma HalfOfXor(x: nat, y: nat)
    ensures BitXor(x, y) / 2 == BitXor(x / 2, y / 2)
    ensures BitXor(x, y) % 2 == 1 <==> x % 2 != y % 2
  {
    assert BitXor(0, 0) == 0;
  }

  lemma {:induction false} OperatorBounds(x: nat, y: nat, n: nat)
    requires x < Pow2(n) && y < Pow2(n)
    ensures BitOr(x, y) < Pow2(n) && BitXor(x, y) < Pow2(n)
  {
    if n > 0 {
      OperatorBounds(x / 2, y / 2, n - 1);
      HalfOfOr(x, y);
      HalfOfXor(x, y);
    }
  }

  lemma OrOfEven(e: nat, l: nat)
    ensures BitOr(2 * e, l) == 2 * BitOr(e, l / 2) + l % 2
  {
    HalfOfOr(2 * e, l);
  }

  /** A number that ends in `n` zeros takes up another of `n` bits by |. */
  lemma {:induction false} OrIsSum(h: nat, l: nat, n: nat)
    requires l < Pow2(n)
    ensures BitOr(Shl(h, n), l) == Shl(h, n) + l
  {
    if n == 0 {
      OrWithZero(h);
    } else {
      OrIsSum(h, l / 2, n - 1);
      OrOfEven(Shl(h, n - 1), l);
    }
  }

  lemma {:induction false} OrWithZero(x: nat)
    ensures BitOr(x, 0) == x
  {
    if x > 0 {
      OrWithZero(x / 2);
    }
  }

  lemma {:induction false} XorWithZero(x: nat)
    ensures BitXor(x, 0) == x
  {
    if x > 0 {
      XorWithZero(x / 2);
    }
  }

  lemma XorOfBits(a: nat, b: nat, p: nat, q: nat)
    requires p < 2 && q < 2
    ensures BitXor(2 * a + p, 2 * b + q) == 2 * BitXor(a, b) + if p != q then 1 else 0
  {
    var x, y := 2 * a + p, 2 * b + q;
    assert x / 2 == a && y / 2 == b;
    HalfOfXor(x, y);
  }

  lemma XorOfBitPairs(a: nat, b: nat, p1: nat, p0: nat, q1: nat, q0: nat)
    requires p1 < 2 && p0 < 2 && q1 < 2 && q0 < 2
    ensures BitXor(4 * a + 2 * p1 + p0, 4 * b + 2 * q1 + q0)
         == 4 * BitXor(a, b) + 2 * (if p1 != q1 then 1 else 0) + (if p0 != q0 then 1 else 0)
  {
    var x, y := 2 * a + p1, 2 * b + q1;
    XorOfBits(x, y, p0, q0);
    XorOfBits(a, b, p1, q1);
  }

  /** ^ of two hexadecimal digits. */
  function DigitXor(p: nat, q: nat): nat {
    (if p / 8 % 2 != q / 8 % 2 then 8 else 0) + (if p / 4 % 2 != q / 4 % 2 then 4 else 0)
    + (if p / 2 % 2 != q / 2 % 2 then 2 else 0) + (if p % 2 != q % 2 then 1 else 0)
  }

  lemma DigitBits(p: nat) returns (b3: nat, b2: nat, b1: nat, b0: nat)
    requires p < 16
    ensures b3 < 2 && b2 < 2 && b1 < 2 && b0 < 2 && p == 8 * b3 + 4 * b2 + 2 * b1 + b0
    ensures b3 == p / 8 % 2 && b2 == p / 4 % 2 && b1 == p / 2 % 2 && b0 == p % 2
  {
    b3, b2, b1, b0 := p / 8 % 2, p / 4 % 2, p / 2 % 2, p % 2;
  }

  /** ^ works on each hexadecimal digit. */
  lemma XorOfDigit(a: nat, b: nat, p: nat, q: nat)
    requires p < 16 && q < 16
    ensures BitXor(0x10 * a + p, 0x10 * b + q) == 0x10 * BitXor(a, b) + DigitXor(p, q)
  {
    var p3, p2, p1, p0 := DigitBits(p);
    var q3, q2, q1, q0 := DigitBits(q);
    var x, y := 4 * a + 2 * p3 + p2, 4 * b + 2 * q3 + q2;
    XorOfBitPairs(x, y, p1, p0, q1, q0);
    XorOfBitPairs(a, b, p3, p2, q3, q2);
  }

  lemma XorOfLastDigit(a: nat, p: nat, q: nat)
    requires p < 16 && q < 16
    ensures BitXor(0x10 * a + p, q) == 0x10 * a + DigitXor(p, q)
  {
    XorOfDigit(a, 0, p, q);
    XorWithZero(a);
  }

  /** Two digits that give `d` behind digits that give `e`. */
  lemma XorOfTwoDigits(x: nat, y: nat, a: nat, b: nat, p1: nat, p0: nat, q1: nat, q0: nat, e: nat, d: nat)
    requires p1 < 16 && p0 < 16 && q1 < 16 && q0 < 16
    requires x == 0x100 * a + 0x10 * p1 + p0 && y == 0x100 * b + 0x10 * q1 + q0
    requires e == BitXor(a, b) && d == 0x10 * DigitXor(p1, q1) + DigitXor(p0, q0)
    ensures BitXor(x, y) == 0x100 * e + d
  {
    XorOfDigit(a, b, p1, q1);
    XorOfDigit(0x10 * a + p1, 0x10 * b + q1, p0, q0);
  }

  /** ^ with a number of at most five hexadecimal digits. */
  lemma XorOfFiveDigits(x: nat, y: nat, rest: nat, p4: nat, p3: nat, p2: nat, p1: nat, p0: nat,
                        q4: nat, q3: nat, q2: nat, q1: nat, q0: nat, e: nat, d32: nat, d10: nat)
    requires p4 < 16 && p3 < 16 && p2 < 16 && p1 < 16 && p0 < 16
    requires q4 < 16 && q3 < 16 && q2 < 16 && q1 < 16 && q0 < 16
    requires x == 0x10_0000 * rest + 0x1_0000 * p4 + 0x1000 * p3 + 0x100 * p2 + 0x10 * p1 + p0
    requires y == 0x1_0000 * q4 + 0x1000 * q3 + 0x100 * q2 + 0x10 * q1 + q0
    requires e == 0x10 * rest + DigitXor(p4, q4)
    requires d32 == 0x10 * DigitXor(p3, q3) + DigitXor(p2, q2)
    requires d10 == 0x10 * DigitXor(p1, q1) + DigitXor(p0, q0)
    ensures BitXor(x, y) == 0x1_0000 * e + 0x100 * d32 + d10
  {
    XorOfLastDigit(rest, p4, q4);
    var x', y' := 0x1000 * rest + 0x100 * p4 + 0x10 * p3 + p2, 0x100 * q4 + 0x10 * q3 + q2;
    XorOfTwoDigits(x', y', 0x10 * rest + p4, q4, p3, p2, q3, q2, e, d32);
    XorOfTwoDigits(x, y, x', y', p1, p0, q1, q0, 0x100 * e + d32, d10);
  }

  /** x ^ (x >> k) loses nothing. */
  lemma {:induction false} XorShrInjective(x: nat, y: nat, k: nat)
    requires k > 0 && BitXor(x, Shr(x, k)) == BitXor(y, Shr(y, k))
    ensures x == y
    decreases x + y
  {
    if x > 0 || y > 0 {
      HalfOfXor(x, Shr(x, k));
      HalfOfXor(y, Shr(y, k));
      HalfOfShr(x, k);
      HalfOfShr(y, k);
      XorShrInjective(x / 2, y / 2, k);
    }
  }

  lemma {:induction false} HalfOfShr(x: nat, k: nat)
    ensures Shr(x, k) / 2 == Shr(x / 2, k)
  {
    if k > 0 {
      HalfOfShr(x / 2, k - 1);
    }
  }

  lemma XorQuotientInWord(x: nat, k: nat, down: nat)
    requires x < 0x1_0000_0000 && down == Pow2(k)
    ensures BitXor(x, Shr(x, k)) < 0x1_0000_0000 && Shr(x, k) == x / down
  {
    WordIsPower32();
    ShrAtMost(x, k);
    OperatorBounds(x, Shr(x, k), 32);
    ShrIsQuotient(x, k);
  }

  // 32-bit words ----------------------------------------------------------------------

  type Word32 = x: int | 0 <= x < 0x1_0000_0000

  type Byte = x: int | 0 <= x < 0x100

  /** The powers of two that the hashes shift and rotate by. */
  lemma Powers()
    ensures Pow2(1) == 0x2 && Pow2(7) == 0x80 && Pow2(11) == 0x800 && Pow2(12) == 0x1000 && Pow2(13) == 0x2000
    ensures Pow2(14) == 0x4000 && Pow2(15) == 0x8000 && Pow2(16) == 0x1_0000 && Pow2(17) == 0x2_0000
    ensures Pow2(18) == 0x4_0000 && Pow2(19) == 0x8_0000 && Pow2(20) == 0x10_0000 && Pow2(21) == 0x20_0000
    ensures Pow2(25) == 0x200_0000 && Pow2(31) == 0x8000_0000
  {
    EightMore(7);
    EightMore(9);
    EightMore(17);
    EightMore(23);
  }

  // Rotations of 32-bit words ------------------------------------------------------------

  /** (x << r) | (x >> (32 - r)) on uint32_t. */
  function Rotl32(x: nat, r: nat): nat
    requires r <= 32
  {
    BitOr(Shl(x, r) % 0x1_0000_0000, Shr(x, 32 - r))
  }

  lemma ProductOfParts(h: nat, l: nat, up: nat, down: nat)
    ensures (down * h + l) * up == (up * down) * h + l * up
  {
    assert (down * h) * up == (up * down) * h;
  }

  lemma QuotientBelow(x: nat, up: nat, down: nat)
    requires down > 0 && x < up * down
    ensures x / down < up
  {
    var h := x / down;
    assert x == down * h + x % down;
    if h > up {
      ProductGrows(down, up, h);
    }
  }

  /** The two parts of a word that a rotation exchanges. */
  lemma WordParts(x: nat, up: nat, down: nat) returns (h: nat, l: nat)
    requires up > 0 && down > 0 && up * down == 0x1_0000_0000 && x < 0x1_0000_0000
    ensures x == down * h + l && h == x / down < up && l == x % down < down
    ensures x * up % 0x1_0000_0000 == l * up && l * up + up <= 0x1_0000_0000
  {
    h, l := x / down, x % down;
    assert x == down * h + l;
    QuotientBelow(x, up, down);
    ProductOfParts(h, l, up, down);
    ProductGrows(up, l, down);
    RemainderUnique(x * up, 0x1_0000_0000, h, l * up);
  }

  lemma WordIsSplit(r: nat)
    requires r <= 32
    ensures Pow2(r) * Pow2(32 - r) == 0x1_0000_0000
  {
    WordIsPower32();
    PowerSum(r, 32 - r);
  }

  lemma RotlParts(x: nat, r: nat, up: nat, down: nat) returns (h: nat, l: nat)
    requires x < 0x1_0000_0000 && r <= 32 && up == Pow2(r) && down == Pow2(32 - r)
    ensures x == down * h + l && h < up && Rotl32(x, r) == l * up + h
    ensures Rotl32(x, r) == x * up % 0x1_0000_0000 + x / down < 0x1_0000_0000
  {
    WordIsSplit(r);
    h, l := WordParts(x, up, down);
    ShlIsProduct(x, r);
    ShlIsProduct(l, r);
    ShrIsQuotient(x, 32 - r);
    OrIsSum(l, h, r);
  }

  /** A rotation in plain arithmetic. */
  lemma RotlIsSum(x: nat, r: nat, up: nat, down: nat)
    requires x < 0x1_0000_0000 && r <= 32 && up == Pow2(r) && down == Pow2(32 - r)
    ensures Rotl32(x, r) == x * up % 0x1_0000_0000 + x / down < 0x1_0000_0000
  {
    var _, _ := RotlParts(x, r, up, down);
  }

  lemma PartsUnique(up: nat, l: nat, h: nat, l': nat, h': nat)
    requires h < up && h' < up && l * up + h == l' * up + h'
    ensures l == l' && h == h'
  {
    assert l * up == up * l && l' * up == up * l';
    RemainderUnique(l * up + h, up, l, h);
    RemainderUnique(l * up + h, up, l', h');
  }

  lemma RotlInjective(x: nat, y: nat, r: nat)
    requires x < 0x1_0000_0000 && y < 0x1_0000_0000 && r <= 32 && Rotl32(x, r) == Rotl32(y, r)
    ensures x == y
  {
    var h, l := RotlParts(x, r, Pow2(r), Pow2(32 - r));
    var h', l' := RotlParts(y, r, Pow2(r), Pow2(32 - r));
    PartsUnique(Pow2(r), l, h, l', h');
  }
}

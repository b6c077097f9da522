/** Which changes a hash of the shape of xxHash must notice, whatever its pieces are, as long as they
    lose nothing. */
module HashDetection {
  import opened Arithmetic
  import opened XxHashSpec

  datatype Lanes<W> = Lanes(v1: W, v2: W, v3: W, v4: W)

  /** The steps of a hash: a word from four bytes, one round of a lane, the convergence of the lanes,
      the length, the rounds of the tail, and the final mix. */
  datatype Pieces<!W> = Pieces(read: (Byte, Byte, Byte, Byte) -> W, round: (W, W) -> W,
                               converge: (W, W, W, W) -> W, length: (W, nat) -> W,
                               word: (W, W) -> W, byte: (W, Byte) -> W, mix: W -> W)

  function ReadBytes<W>(h: Pieces<W>, b0: Byte, b1: Byte, b2: Byte, b3: Byte): W {
    h.read(b0, b1, b2, b3)
  }

  ghost predicate ReadLossless<W(!new)>(h: Pieces<W>) {
    forall b0, b1, b2, b3, c0, c1, c2, c3 :: ReadBytes(h, b0, b1, b2, b3) == ReadBytes(h, c0, c1, c2, c3) ==>
      b0 == c0 && b1 == c1 && b2 == c2 && b3 == c3
  }

  ghost predicate RoundLossless<W(!new), V(!new)>(round: (W, V) -> W) {
    && (forall a, a', w :: a != a' ==> round(a, w) != round(a', w))
    && (forall a, w, w' :: w != w' ==> round(a, w) != round(a, w'))
  }

  ghost predicate ConvergeLossless<W(!new)>(h: Pieces<W>) {
    && (forall a, a', b, c, d :: a != a' ==> h.converge(a, b, c, d) != h.converge(a', b, c, d))
    && (forall a, b, b', c, d :: b != b' ==> h.converge(a, b, c, d) != h.converge(a, b', c, d))
    && (forall a, b, c, c', d :: c != c' ==> h.converge(a, b, c, d) != h.converge(a, b, c', d))
    && (forall a, b, c, d, d' :: d != d' ==> h.converge(a, b, c, d) != h.converge(a, b, c, d'))
  }

  ghost predicate EndLossless<W(!new)>(h: Pieces<W>) {
    && (forall a, a', n :: a != a' ==> h.length(a, n) != h.length(a', n))
    && (forall a, a' :: a != a' ==> h.mix(a) != h.mix(a'))
  }

  /** Every piece is injective in each of its arguments. */
  ghost predicate Lossless<W(!new)>(h: Pieces<W>) {
    && ReadLossless(h) && RoundLossless(h.round) && ConvergeLossless(h)
    && RoundLossless(h.word) && RoundLossless(h.byte) && EndLossless(h)
  }

  function Lane<W>(h: Pieces<W>, m: Message, p: nat): W
    requires p + 4 <= |m|
  {
    h.read(m[p], m[p + 1], m[p + 2], m[p + 3])
  }

  function StripeOf<W>(h: Pieces<W>, l: Lanes<W>, m: Message, p: nat): Lanes<W>
    requires p + 16 <= |m|
  {
    Lanes(h.round(l.v1, Lane(h, m, p)), h.round(l.v2, Lane(h, m, p + 4)),
          h.round(l.v3, Lane(h, m, p + 8)), h.round(l.v4, Lane(h, m, p + 12)))
  }

  /** The lanes after `n` stripes. */
  function AfterStripes<W>(h: Pieces<W>, l: Lanes<W>, m: Message, n: nat): Lanes<W>
    requires 16 * n <= |m|
  {
    if n == 0 then l else StripeOf(h, AfterStripes(h, l, m, n - 1), m, 16 * (n - 1))
  }

  /** What is left is taken by words, then by bytes. */
  function Tail<W>(h: Pieces<W>, a: W, rest: Message): W
    decreases |rest|
  {
    if |rest| >= 4 then Tail(h, h.word(a, Lane(h, rest, 0)), rest[4..])
    else if |rest| >= 1 then Tail(h, h.byte(a, rest[0]), rest[1..])
    else a
  }

  function Gather<W>(h: Pieces<W>, l: Lanes<W>, short: W, m: Message): W {
    if |m| >= 16 then
      var l' := AfterStripes(h, l, m, |m| / 16);
      h.converge(l'.v1, l'.v2, l'.v3, l'.v4)
    else short
  }

  function HashOf<W>(h: Pieces<W>, l: Lanes<W>, short: W, m: Message): W {
    h.mix(Tail(h, h.length(Gather(h, l, short, m), |m|), m[|m| / 16 * 16..]))
  }

  // Changes -------------------------------------------------------------------------------

  /** The messages agree outside `lo..hi`. */
  ghost predicate SameOutside(m: Message, m': Message, lo: nat, hi: nat) {
    |m| == |m'| && forall i :: 0 <= i < |m| && !(lo <= i < hi) ==> m[i] == m'[i]
  }

  lemma LanesDiffer<W(!new)>(h: Pieces<W>, m: Message, m': Message, q: nat)
    requires ReadLossless(h) && SameOutside(m, m', q, q + 4) && q + 4 <= |m| && m != m'
    ensures Lane(h, m, q) != Lane(h, m', q)
  {
    var i :| 0 <= i < |m| && m[i] != m'[i];
    assert i == q || i == q + 1 || i == q + 2 || i == q + 3;
    assert ReadBytes(h, m[q], m[q + 1], m[q + 2], m[q + 3]) != ReadBytes(h, m'[q], m'[q + 1], m'[q + 2], m'[q + 3]);
  }

  lemma LanesAgree<W>(h: Pieces<W>, m: Message, m': Message, p: nat, lo: nat, hi: nat)
    requires SameOutside(m, m', lo, hi) && p + 4 <= |m| && (p + 4 <= lo || hi <= p)
    ensures Lane(h, m, p) == Lane(h, m', p)
  {
  }

  /** Exactly one lane differs. */
  ghost predicate OneLane<W(!new)>(l: Lanes<W>, l': Lanes<W>) {
    exists c :: 1 <= c <= 4 && OnlyLane(l, l', c)
  }

  /** Lane `c` differs and no other. */
  ghost predicate OnlyLane<W(!new)>(l: Lanes<W>, l': Lanes<W>, c: nat) {
    && (l.v1 != l'.v1 <==> c == 1) && (l.v2 != l'.v2 <==> c == 2)
    && (l.v3 != l'.v3 <==> c == 3) && (l.v4 != l'.v4 <==> c == 4)
  }

  lemma StripesAgree<W>(h: Pieces<W>, l: Lanes<W>, m: Message, m': Message, n: nat, lo: nat, hi: nat)
    requires SameOutside(m, m', lo, hi) && 16 * n <= lo && 16 * n <= |m|
    ensures AfterStripes(h, l, m, n) == AfterStripes(h, l, m', n)
  {
    if n > 0 {
      var p := 16 * (n - 1);
      StripesAgree(h, l, m, m', n - 1, lo, hi);
      LanesAgree(h, m, m', p, lo, hi);
      LanesAgree(h, m, m', p + 4, lo, hi);
      LanesAgree(h, m, m', p + 8, lo, hi);
      LanesAgree(h, m, m', p + 12, lo, hi);
    }
  }

  lemma StripeHit<W(!new)>(h: Pieces<W>, l: Lanes<W>, m: Message, m': Message, p: nat, q: nat)
    requires ReadLossless(h) && RoundLossless(h.round) && SameOutside(m, m', q, q + 4) && m != m' && p + 16 <= |m|
    requires q == p || q == p + 4 || q == p + 8 || q == p + 12
    ensures OneLane(StripeOf(h, l, m, p), StripeOf(h, l, m', p))
  {
    LanesDiffer(h, m, m', q);
    if q != p {
      LanesAgree(h, m, m', p, q, q + 4);
    }
    if q != p + 4 {
      LanesAgree(h, m, m', p + 4, q, q + 4);
    }
    if q != p + 8 {
      LanesAgree(h, m, m', p + 8, q, q + 4);
    }
    if q != p + 12 {
      LanesAgree(h, m, m', p + 12, q, q + 4);
    }
    var c := if q == p then 1 else if q == p + 4 then 2 else if q == p + 8 then 3 else 4;
    assert OnlyLane(StripeOf(h, l, m, p), StripeOf(h, l, m', p), c);
  }

  lemma StripeKeepsOneLane<W(!new)>(h: Pieces<W>, l: Lanes<W>, l': Lanes<W>, m: Message, m': Message, p: nat, q: nat)
    requires RoundLossless(h.round) && OneLane(l, l') && SameOutside(m, m', q, q + 4) && q + 4 <= p && p + 16 <= |m|
    ensures OneLane(StripeOf(h, l, m, p), StripeOf(h, l', m', p))
  {
    LanesAgree(h, m, m', p, q, q + 4);
    LanesAgree(h, m, m', p + 4, q, q + 4);
    LanesAgree(h, m, m', p + 8, q, q + 4);
    LanesAgree(h, m, m', p + 12, q, q + 4);
    var c :| 1 <= c <= 4 && OnlyLane(l, l', c);
    assert OnlyLane(StripeOf(h, l, m, p), StripeOf(h, l', m', p), c);
  }

  lemma StripesJustHit<W(!new)>(h: Pieces<W>, l: Lanes<W>, m: Message, m': Message, n: nat, q: nat)
    requires ReadLossless(h) && RoundLossless(h.round) && SameOutside(m, m', q, q + 4) && m != m'
    requires q == 16 * n || q == 16 * n + 4 || q == 16 * n + 8 || q == 16 * n + 12
    requires 16 * n + 16 <= |m|
    ensures OneLane(AfterStripes(h, l, m, n + 1), AfterStripes(h, l, m', n + 1))
  {
    StripesAgree(h, l, m, m', n, q, q + 4);
    StripeHit(h, AfterStripes(h, l, m, n), m, m', 16 * n, q);
  }

  lemma OneLaneGoesOn<W(!new)>(h: Pieces<W>, l: Lanes<W>, m: Message, m': Message, n: nat, q: nat)
    requires RoundLossless(h.round) && SameOutside(m, m', q, q + 4) && q + 4 <= 16 * n && 16 * n + 16 <= |m|
    requires OneLane(AfterStripes(h, l, m, n), AfterStripes(h, l, m', n))
    ensures OneLane(AfterStripes(h, l, m, n + 1), AfterStripes(h, l, m', n + 1))
  {
    StripeKeepsOneLane(h, AfterStripes(h, l, m, n), AfterStripes(h, l, m', n), m, m', 16 * n, q);
  }

  lemma {:induction false} OneLaneStays<W(!new)>(h: Pieces<W>, l: Lanes<W>, m: Message, m': Message, i: nat, n: nat, q: nat)
    requires RoundLossless(h.round) && SameOutside(m, m', q, q + 4) && q + 4 <= 16 * i && i <= n && 16 * n <= |m|
    requires OneLane(AfterStripes(h, l, m, i), AfterStripes(h, l, m', i))
    ensures OneLane(AfterStripes(h, l, m, n), AfterStripes(h, l, m', n))
    decreases n - i
  {
    if i < n {
      OneLaneGoesOn(h, l, m, m', i, q);
      OneLaneStays(h, l, m, m', i + 1, n, q);
    }
  }

  /** A change in one word of the stripes leaves exactly one lane different. */
  lemma StripesHit<W(!new)>(h: Pieces<W>, l: Lanes<W>, m: Message, m': Message, n: nat, i: nat, q: nat)
    requires ReadLossless(h) && RoundLossless(h.round) && SameOutside(m, m', q, q + 4) && m != m'
    requires q == 16 * i || q == 16 * i + 4 || q == 16 * i + 8 || q == 16 * i + 12
    requires i < n && 16 * n <= |m|
    ensures OneLane(AfterStripes(h, l, m, n), AfterStripes(h, l, m', n))
  {
    StripesJustHit(h, l, m, m', i, q);
    OneLaneStays(h, l, m, m', i + 1, n, q);
  }

  /** Different accumulators stay different through a common tail. */
  lemma {:induction false} TailDiffers<W(!new)>(h: Pieces<W>, a: W, a': W, rest: Message)
    requires RoundLossless(h.word) && RoundLossless(h.byte) && a != a'
    ensures Tail(h, a, rest) != Tail(h, a', rest)
    decreases |rest|
  {
    if |rest| >= 4 {
      var w := Lane(h, rest, 0);
      assert h.word(a, w) != h.word(a', w);
      TailDiffers(h, h.word(a, w), h.word(a', w), rest[4..]);
    } else if |rest| >= 1 {
      assert h.byte(a, rest[0]) != h.byte(a', rest[0]);
      TailDiffers(h, h.byte(a, rest[0]), h.byte(a', rest[0]), rest[1..]);
    }
  }

  lemma {:induction false} TailWordHit<W(!new)>(h: Pieces<W>, a: W, rest: Message, rest': Message, j: nat)
    requires ReadLossless(h) && RoundLossless(h.word) && RoundLossless(h.byte)
    requires SameOutside(rest, rest', 4 * j, 4 * j + 4) && rest != rest' && 4 * j + 4 <= |rest|
    ensures Tail(h, a, rest) != Tail(h, a, rest')
    decreases j
  {
    var w, w' := Lane(h, rest, 0), Lane(h, rest', 0);
    if j == 0 {
      LanesDiffer(h, rest, rest', 0);
      assert h.word(a, w) != h.word(a, w');
      assert rest[4..] == rest'[4..];
      TailDiffers(h, h.word(a, w), h.word(a, w'), rest[4..]);
    } else {
      LanesAgree(h, rest, rest', 0, 4 * j, 4 * j + 4);
      SuffixChanged(rest, rest', 4, 4 * j, 4 * j + 4);
      TailWordHit(h, h.word(a, w), rest[4..], rest'[4..], j - 1);
    }
  }

  lemma SuffixChanged(m: Message, m': Message, k: nat, lo: nat, hi: nat)
    requires SameOutside(m, m', lo, hi) && m != m' && k <= lo && k <= |m|
    ensures SameOutside(m[k..], m'[k..], lo - k, if hi < k then 0 else hi - k) && m[k..] != m'[k..]
  {
    var i :| 0 <= i < |m| && m[i] != m'[i];
    assert m[k..][i - k] != m'[k..][i - k];
  }

  /** A changed byte behind the last whole word. */
  lemma {:induction false} TailByteHit<W(!new)>(h: Pieces<W>, a: W, rest: Message, rest': Message, i: nat, words: nat)
    requires RoundLossless(h.word) && RoundLossless(h.byte) && SameOutside(rest, rest', i, i + 1) && rest != rest'
    requires 4 * words <= i < |rest| < 4 * words + 4
    ensures Tail(h, a, rest) != Tail(h, a, rest')
    decreases |rest|
  {
    if words > 0 {
      LanesAgree(h, rest, rest', 0, i, i + 1);
      SuffixChanged(rest, rest', 4, i, i + 1);
      TailByteHit(h, h.word(a, Lane(h, rest, 0)), rest[4..], rest'[4..], i - 4, words - 1);
    } else if i == 0 {
      var k :| 0 <= k < |rest| && rest[k] != rest'[k];
      assert h.byte(a, rest[0]) != h.byte(a, rest'[0]);
      assert rest[1..] == rest'[1..];
      TailDiffers(h, h.byte(a, rest[0]), h.byte(a, rest'[0]), rest[1..]);
    } else {
      SuffixChanged(rest, rest', 1, i, i + 1);
      TailByteHit(h, h.byte(a, rest[0]), rest[1..], rest'[1..], i - 1, 0);
    }
  }

  lemma GatherDiffers<W(!new)>(h: Pieces<W>, l: Lanes<W>, short: W, m: Message, m': Message, j: nat)
    requires Lossless(h) && SameOutside(m, m', 4 * j, 4 * j + 4) && m != m' && j < 4 * (|m| / 16)
    ensures Gather(h, l, short, m) != Gather(h, l, short, m')
  {
    StripesHit(h, l, m, m', |m| / 16, j / 4, 4 * j);
  }

  lemma GatherAgrees<W>(h: Pieces<W>, l: Lanes<W>, short: W, m: Message, m': Message, lo: nat, hi: nat)
    requires SameOutside(m, m', lo, hi) && |m| / 16 * 16 <= lo
    ensures Gather(h, l, short, m) == Gather(h, l, short, m')
  {
    StripesAgree(h, l, m, m', |m| / 16, lo, hi);
  }

  lemma HashDiffers<W(!new)>(h: Pieces<W>, l: Lanes<W>, short: W, l': Lanes<W>, short': W, m: Message, m': Message)
    requires Lossless(h) && |m| == |m'| && m[|m| / 16 * 16..] == m'[|m| / 16 * 16..]
    requires Gather(h, l, short, m) != Gather(h, l', short', m')
    ensures HashOf(h, l, short, m) != HashOf(h, l', short', m')
  {
    var a, a' := h.length(Gather(h, l, short, m), |m|), h.length(Gather(h, l', short', m'), |m|);
    TailDiffers(h, a, a', m[|m| / 16 * 16..]);
  }

  /** A change inside one word that is read whole is noticed. */
  lemma OneWord<W(!new)>(h: Pieces<W>, l: Lanes<W>, short: W, m: Message, m': Message, j: nat)
    requires Lossless(h) && SameOutside(m, m', 4 * j, 4 * j + 4) && m != m' && 4 * j + 4 <= |m|
    ensures HashOf(h, l, short, m) != HashOf(h, l, short, m')
  {
    var n := |m| / 16;
    if j < 4 * n {
      GatherDiffers(h, l, short, m, m', j);
      assert m[16 * n..] == m'[16 * n..];
      HashDiffers(h, l, short, l, short, m, m');
    } else {
      GatherAgrees(h, l, short, m, m', 4 * j, 4 * j + 4);
      SuffixChanged(m, m', 16 * n, 4 * j, 4 * j + 4);
      TailWordHit(h, h.length(Gather(h, l, short, m), |m|), m[16 * n..], m'[16 * n..], j - 4 * n);
    }
  }

  lemma LastByte<W(!new)>(h: Pieces<W>, l: Lanes<W>, short: W, m: Message, m': Message, i: nat, n: nat, words: nat)
    requires Lossless(h) && SameOutside(m, m', i, i + 1) && m != m'
    requires n == |m| / 16 && 16 * n + 4 * words <= i < |m| < 16 * n + 4 * words + 4
    ensures HashOf(h, l, short, m) != HashOf(h, l, short, m')
  {
    GatherAgrees(h, l, short, m, m', i, i + 1);
    SuffixChanged(m, m', 16 * n, i, i + 1);
    TailByteHit(h, h.length(Gather(h, l, short, m), |m|), m[16 * n..], m'[16 * n..], i - 16 * n, words);
  }

  /** So is a change of one byte, wherever it is. */
  lemma OneByte<W(!new)>(h: Pieces<W>, l: Lanes<W>, short: W, m: Message, m': Message, i: nat)
    requires Lossless(h) && SameOutside(m, m', i, i + 1) && m != m' && i < |m|
    ensures HashOf(h, l, short, m) != HashOf(h, l, short, m')
  {
    if i / 4 * 4 + 4 <= |m| {
      OneWord(h, l, short, m, m', i / 4);
    } else {
      LastByte(h, l, short, m, m', i, |m| / 16, |m| % 16 / 4);
    }
  }
}

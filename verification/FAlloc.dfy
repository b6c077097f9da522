/** The per-thread stack allocator of src/memory/FAlloc.c (the unix branch). */
module FAlloc {
  import opened Arithmetic
  import opened DataType

  const STACK_SIZE: nat := 8 * 1024 * 1024

  // Alignment arithmetic ------------------------------------------------------------

  lemma BitAndOdd(x: nat, h: nat)
    ensures BitAnd(x, 2 * h + 1) == x % 2 + 2 * BitAnd(x / 2, h)
  {
    var y := 2 * h + 1;
    assert y % 2 == 1 && y / 2 == h;
  }

  lemma MaskStep(x: nat, h: nat, m: nat, n: nat)
    requires m == h + 1 && n == 2 * m && BitAnd(x / 2, h) == x / 2 % m
    ensures BitAnd(x, n - 1) == x % n
  {
    BitAndOdd(x, h);
    RemainderOfHalf(x, m, n);
  }

  /** Masking with align - 1 is the remainder, for every power of two. */
  lemma {:induction false} MaskIsRemainder(x: nat, k: nat)
    ensures BitAnd(x, Pow2(k) - 1) == x % Pow2(k)
  {
    if k > 0 {
      MaskIsRemainder(x / 2, k - 1);
      MaskStep(x, Pow2(k - 1) - 1, Pow2(k - 1), Pow2(k));
    }
  }

  /** The least multiple of `a` from `e` on (AlignUpLeast). */
  function AlignUp(e: nat, a: nat): (aligned: nat)
    requires a > 0
    ensures e <= aligned < e + a
    decreases e
  {
    if e == 0 then 0 else if e <= a then a else a + AlignUp(e - a, a)
  }

  lemma RemainderOfLess(e: nat, a: nat)
    requires a > 0 && e >= a
    ensures e % a == (e - a) % a
  {
    var q := (e - a) / a;
    assert e == a * (q + 1) + (e - a) % a;
    RemainderUnique(e, a, q + 1, (e - a) % a);
  }

  lemma {:induction false} AlignUpSkips(e: nat, a: nat)
    requires a > 0
    ensures AlignUp(e, a) == if e % a == 0 then e else e + (a - e % a)
    decreases e
  {
    if e > a {
      AlignUpSkips(e - a, a);
      RemainderOfLess(e, a);
    } else if 0 < e < a {
      RemainderUnique(e, a, 0, e);
    } else if e == a {
      RemainderUnique(e, a, 1, 0);
    }
  }

  lemma {:induction false} AlignUpLeast(e: nat, a: nat, t: nat)
    requires a > 0
    ensures AlignUp(e, a) % a == 0 && e <= AlignUp(e, a) < e + a
    ensures t >= e && t % a == 0 ==> AlignUp(e, a) <= t
    decreases e
  {
    if e > a {
      AlignUpLeast(e - a, a, if t >= a then t - a else 0);
      RemainderOfLess(AlignUp(e, a), a);
      if t >= e {
        RemainderOfLess(t, a);
      }
    } else if 0 < e {
      RemainderUnique(a, a, 1, 0);
      if e <= t < a {
        RemainderUnique(t, a, 0, t);
      }
    }
  }

  lemma MultipleOfMultiple(t: nat, big: nat, a: nat)
    requires big > 0 && a > 0 && t % big == 0 && big % a == 0
    ensures t % a == 0
  {
    var s, c := t / big, big / a;
    assert t == big * s && big == a * c;
    assert t == a * (c * s) + 0 by {
      assert (a * c) * s == a * (c * s);
    }
    RemainderUnique(t, a, c * s, 0);
  }

  /** Aligning for a divisor never goes beyond aligning for the multiple. */
  lemma FinerAlignment(e: nat, big: nat, a: nat)
    requires big > 0 && a > 0 && big % a == 0
    ensures e <= AlignUp(e, a) <= AlignUp(e, big) && AlignUp(e, a) < e + a
  {
    AlignUpLeast(e, big, e);
    MultipleOfMultiple(AlignUp(e, big), big, a);
    AlignUpLeast(e, a, AlignUp(e, big));
  }

  lemma DivisorAtMost(a: nat, d: nat)
    requires a > 0 && d > 0 && a % d == 0
    ensures d <= a
  {
    if a < d {
      RemainderUnique(a, d, 0, a);
    }
  }

  // Blocks ----------------------------------------------------------------------------

  datatype Block = Block(ptr: nat, len: nat)

  /** Oldest first, each behind the one before, none empty. */
  ghost predicate Stacked(live: seq<Block>, low: nat, high: nat) {
    && (forall i :: 0 <= i < |live| ==> low <= live[i].ptr && live[i].len > 0 && live[i].ptr + live[i].len <= high)
    && (forall i, j :: 0 <= i < j < |live| ==> live[i].ptr + live[i].len <= live[j].ptr)
  }

  lemma BlocksDisjoint(live: seq<Block>, low: nat, high: nat, i: nat, j: nat, byte: nat)
    requires Stacked(live, low, high) && i < |live| && j < |live|
    requires live[i].ptr <= byte < live[i].ptr + live[i].len
    requires live[j].ptr <= byte < live[j].ptr + live[j].len
    ensures i == j
  {
  }

  /** The blocks that lie below `ptr`. */
  ghost function Below(live: seq<Block>, ptr: nat): seq<Block> {
    if live == [] then []
    else if live[|live| - 1].ptr + live[|live| - 1].len <= ptr then live
    else Below(live[..|live| - 1], ptr)
  }

  lemma {:induction false} BelowStacked(live: seq<Block>, low: nat, high: nat, ptr: nat)
    requires Stacked(live, low, high)
    ensures Stacked(Below(live, ptr), low, ptr)
  {
    if live != [] && live[|live| - 1].ptr + live[|live| - 1].len > ptr {
      BelowStacked(live[..|live| - 1], low, high, ptr);
    }
  }

  /** Freeing block `i` leaves exactly the older ones. */
  lemma {:induction false} BelowBlock(live: seq<Block>, low: nat, high: nat, i: nat)
    requires Stacked(live, low, high) && i < |live|
    ensures Below(live, live[i].ptr) == live[..i]
  {
    if |live| - 1 == i {
      var older := live[..i];
      if older != [] {
        assert older[|older| - 1] == live[i - 1];
      }
      assert Below(live, live[i].ptr) == Below(older, live[i].ptr) == older;
    } else {
      var front := live[..|live| - 1];
      assert front[i] == live[i] && front[..i] == live[..i];
      BelowBlock(front, low, high, i);
    }
  }

  /** Balanced use: take a block, run the body, free the block, go on. */
  datatype Program = Done | Scope(len: nat, exponent: nat, body: Program, next: Program)

  /** Every alignment in the program divides `a`. */
  ghost predicate AlignedWithin(prog: Program, a: nat) {
    match prog
    case Done => true
    case Scope(_, k, body, next) => a % Pow2(k) == 0 && AlignedWithin(body, a) && AlignedWithin(next, a)
  }

  /** The most room that the program takes at any moment, above an end aligned to `a`. Scopes that
      follow each other use the same bytes. */
  ghost function Peak(prog: Program, a: nat): nat {
    match prog
    case Done => 0
    case Scope(len, _, body, next) =>
      var inside, after := len + a + Peak(body, a), Peak(next, a);
      if inside < after then after else inside
  }

  lemma PeakOfParts(len: nat, k: nat, body: Program, next: Program, a: nat)
    ensures Peak(Scope(len, k, body, Done), a) <= Peak(Scope(len, k, body, next), a)
    ensures Peak(next, a) <= Peak(Scope(len, k, body, next), a)
  {
  }

  /** The same scope `n` times over. */
  ghost function Repeated(len: nat, k: nat, body: Program, n: nat): Program {
    if n == 0 then Done else Scope(len, k, body, Repeated(len, k, body, n - 1))
  }

  /** A scope that runs many times takes no more room than once. */
  lemma {:induction false} PeakOfRepeated(len: nat, k: nat, body: Program, n: nat, a: nat)
    requires n > 0
    ensures Peak(Repeated(len, k, body, n), a) == len + a + Peak(body, a)
  {
    if n > 1 {
      PeakOfRepeated(len, k, body, n - 1, a);
    }
  }

  // Powers of two within a word ---------------------------------------------------------

  lemma WordIsPower()
    ensures Pow2(64) == WORD
  {
    EightMore(0);
    EightMore(8);
    EightMore(16);
    EightMore(24);
    EightMore(32);
    EightMore(40);
    EightMore(48);
    EightMore(56);
  }

  lemma PowerDividesWord(k: nat)
    requires k < 64
    ensures WORD % Pow2(k) == 0 && Pow2(k) < WORD
  {
    WordIsPower();
    PowerSum(k, 64 - k);
    RemainderUnique(WORD, Pow2(k), Pow2(64 - k), 0);
    ProductGrows(Pow2(k), 1, Pow2(64 - k));
  }

  lemma LargePower(k: nat)
    requires k >= 64
    ensures Pow2(k) >= WORD
  {
    WordIsPower();
    PowerSum(64, k - 64);
    assert WORD * Pow2(k - 64) >= WORD;
  }

  lemma {:induction false} SmallPower(k: nat)
    requires Pow2(k) < WORD
    ensures k < 64
  {
    if k >= 64 {
      LargePower(k);
    }
  }

  lemma AlignedInWord(e: nat, k: nat)
    requires e < WORD && k < 64
    ensures e <= AlignUp(e, Pow2(k)) <= WORD && AlignUp(e, Pow2(k)) % Pow2(k) == 0
  {
    PowerDividesWord(k);
    AlignUpLeast(e, Pow2(k), WORD);
  }

  /** A block of `l` bytes at `aligned` ends inside the mapping exactly when its request does not
      wrap. */
  lemma InsideUnlessWrapped(start: nat, mapped: nat, aligned: nat, l: nat)
    requires 0 < start <= aligned <= WORD && start + mapped < WORD && l < WORD
    requires Wrap(aligned - start + l) <= mapped
    ensures start <= Wrap(aligned) && Wrap(aligned) + l <= start + mapped <==> aligned - start + l < WORD
    ensures aligned - start + l < WORD ==> Wrap(aligned) == aligned
  {
  }

  /** Up to the next aligned end, that end stays the next one. */
  lemma AlignedWithinStep(end: nat, end': nat, a: nat)
    requires a > 0 && end <= end' <= AlignUp(end, a)
    ensures AlignUp(end', a) <= AlignUp(end, a)
  {
    AlignUpLeast(end, a, end);
    AlignUpLeast(end', a, AlignUp(end, a));
  }

  lemma StackedMore(live: seq<Block>, low: nat, end: nat, ptr: nat, l: nat)
    requires Stacked(live, low, end) && low <= end <= ptr
    ensures Stacked(if l > 0 then live + [Block(ptr, l)] else live, low, ptr + l)
  {
  }

  /** The next aligned end behind a block that starts at the next aligned end. */
  lemma NextAligned(end: nat, end': nat, len: nat, a: nat)
    requires a > 0 && (end' == end || end' <= AlignUp(end, a) + len)
    ensures AlignUp(end', a) <= AlignUp(end, a) + len + a
  {
  }

  /** The request of a scope with room for its peak does not wrap. */
  lemma ScopeFits(start: nat, end: nat, len: nat, k: nat, inside: nat, a: nat)
    requires a > 0 && a % Pow2(k) == 0 && start <= end
    requires 3 * (AlignUp(end, a) - start + len + a + inside) <= 2 * WORD
    ensures k < 64 && end <= AlignUp(end, Pow2(k)) <= AlignUp(end, a)
    ensures 3 * (AlignUp(end, Pow2(k)) - start + len) <= 2 * WORD
  {
    FinerAlignment(end, a, Pow2(k));
    DivisorAtMost(a, Pow2(k));
    SmallPower(k);
  }

  /** The growth loop's variable after some rounds. */
  ghost function Grown(n: nat, rounds: nat): nat {
    if rounds == 0 then n else Wrap(Grown(n, rounds - 1) + Grown(n, rounds - 1) / 2)
  }

  /** One round adds half, as long as nothing wraps. */
  lemma GrowthRound(n: nat, rounds: nat)
    requires Grown(n, rounds) + Grown(n, rounds) / 2 < WORD
    ensures Grown(n, 0) == n && Grown(n, rounds + 1) == Grown(n, rounds) + Grown(n, rounds) / 2
  {
  }

  /** `size` is the first size, from one round on, that has room for `total`. */
  ghost predicate GrowsTo(n: nat, total: nat, size: nat) {
    exists rounds: nat :: rounds > 0 && FirstRound(n, total, rounds) && size == Grown(n, rounds)
  }

  ghost predicate FirstRound(n: nat, total: nat, rounds: nat) {
    Grown(n, rounds) >= total && forall i: nat :: 0 < i < rounds ==> Grown(n, i) < total
  }

  /** The growth decides on one size. */
  lemma GrowsToOne(n: nat, total: nat, size: nat, size': nat)
    requires GrowsTo(n, total, size) && GrowsTo(n, total, size')
    ensures size == size'
  {
    var i: nat :| i > 0 && FirstRound(n, total, i) && size == Grown(n, i);
    var j: nat :| j > 0 && FirstRound(n, total, j) && size' == Grown(n, j);
    assert i == j;
  }

  /** The growth loop comes to an end. */
  ghost predicate GrowthEnds(n: nat, newSize: nat) {
    exists rounds: nat :: Grown(n, rounds) >= newSize
  }

  /** It does whenever the total is at most two thirds of the address space. */
  lemma GrowthEndsBelow(n: nat, newSize: nat)
    requires n >= 2 && 3 * newSize <= 2 * WORD
    ensures GrowthEnds(n, newSize)
  {
    GrowsOn(n, newSize, 0);
  }

  lemma {:induction false} GrowsOn(n: nat, newSize: nat, rounds: nat)
    requires Grown(n, rounds) >= 2 && 3 * newSize <= 2 * WORD
    ensures GrowthEnds(n, newSize)
    decreases newSize - Grown(n, rounds)
  {
    var g := Grown(n, rounds);
    if g < newSize {
      assert Grown(n, rounds + 1) == g + g / 2;
      GrowsOn(n, newSize, rounds + 1);
    }
  }

  class ThreadLocalStack {
    const start: nat
    var usage: nat
    var mapped: nat
    ghost var live: seq<Block>

    /** What every request keeps, even one whose size wraps. */
    ghost predicate Mapped()
      reads this
    {
      0 < start && usage <= mapped && mapped >= 2 && start + mapped < WORD
    }

    ghost predicate Valid()
      reads this
    {
      Mapped() && Stacked(live, start, start + usage)
    }

    /** The usage that a request asks for, before it is cut down to a size_t. */
    ghost function Total(l: nat, align: nat): nat
      requires align > 0
      reads this
    {
      AlignUp(start + usage, align) - start + l
    }

    constructor (start: nat)
      requires start > 0 && start + STACK_SIZE < WORD
      ensures Valid() && live == [] && usage == 0 && mapped == 8_388_608 && this.start == start
    {
      this.start, usage, mapped, live := start, 0, STACK_SIZE, [];
    }

    /** A mapping grown for `total` bytes of use still ends inside the address space. */
    ghost predicate Growable(total: nat)
      reads this
    {
      2 * start + 3 * total <= 2 * WORD
    }

    /** What a request for `total` bytes of use does to a mapping of `before` bytes: nothing when there
        is room, and otherwise it asks for the grown size, which mremap gives or refuses. */
    ghost predicate Remapped(before: nat, total: nat, granted: bool, failed: bool)
      reads this
    {
      if total <= before then !failed && mapped == before
      else exists size :: GrowsTo(before, total, size) && (failed <==> !granted || start + size >= WORD)
                       && mapped == if failed then before else size
    }

    /** falloc_ensure_space; `granted` is the answer of mremap. */
    method EnsureSpace(l: nat, granted: bool) returns (failed: bool)
      requires Mapped() && l < WORD && GrowthEnds(mapped, Wrap(usage + l))
      modifies this`mapped
      ensures Mapped()
      ensures !failed ==> Wrap(usage + l) <= mapped
      ensures Wrap(usage + l) <= old(mapped) || (granted && Growable(Wrap(usage + l))) ==> !failed
      ensures Wrap(usage + l) > old(mapped) && !granted ==> failed
      ensures failed || Wrap(usage + l) <= old(mapped) ==> mapped == old(mapped)
      ensures mapped != old(mapped) ==> mapped > old(mapped) && 2 * mapped < 3 * Wrap(usage + l)
      ensures Remapped(old(mapped), Wrap(usage + l), granted, failed)
    {
      var newSize := Wrap(usage + l);
      if newSize > mapped {
        var newAllocated := Grow(newSize);
        if !granted || start + newAllocated >= WORD {
          return true;
        }
        mapped := newAllocated;
      }
      return false;
    }

    /** The size to ask for, by the growth loop. */
    method Grow(newSize: nat) returns (newAllocated: nat)
      requires 2 <= mapped < newSize && mapped < WORD && GrowthEnds(mapped, newSize)
      ensures GrowsTo(mapped, newSize, newAllocated) && newSize <= newAllocated < WORD
      ensures 2 * newAllocated < 3 * newSize
    {
      newAllocated := Wrap(mapped + mapped / 2);
      ghost var rounds: nat :| Grown(mapped, rounds) >= newSize;
      ghost var i := 1;
      while newAllocated < newSize
        invariant newAllocated == Grown(mapped, i) && 0 < i <= rounds && 2 * newAllocated < 3 * newSize
        invariant newAllocated < WORD && forall j: nat :: 0 < j < i ==> Grown(mapped, j) < newSize
        decreases rounds - i
      {
        newAllocated := Wrap(newAllocated + newAllocated / 2);
        i := i + 1;
      }
      assert FirstRound(mapped, newSize, i);
    }

    /** The bytes to skip, found by masking. */
    static method AlignOffset(end: nat, align: nat, ghost k: nat) returns (offset: nat)
      requires align == Pow2(k)
      ensures offset < align && end + offset == AlignUp(end, align)
    {
      offset := BitAnd(end, align - 1);
      MaskIsRemainder(end, k);
      AlignUpSkips(end, align);
      if offset != 0 {
        offset := align - offset;
      }
    }

    /** Makes room behind the skipped bytes and moves the end; `aligned` is where the block goes. */
    method MoveEnd(l: nat, alignOffset: nat, ghost aligned: nat, granted: bool)
      returns (ptr: nat, failed: bool)
      requires Mapped() && l < WORD && aligned == start + usage + alignOffset <= WORD
      requires GrowthEnds(mapped, Wrap(aligned - start + l))
      modifies this`usage, this`mapped
      ensures Mapped()
      ensures failed ==> ptr == 0 && usage == old(usage) && mapped == old(mapped)
      ensures Wrap(aligned - start + l) <= old(mapped) ==> !failed && mapped == old(mapped)
      ensures granted && Growable(Wrap(aligned - start + l)) ==> !failed
      ensures Remapped(old(mapped), Wrap(aligned - start + l), granted, failed)
      ensures !failed ==> ptr == Wrap(aligned) && usage == Wrap(aligned - start + l)
    {
      var end := start + usage;
      var actualLen := Wrap(alignOffset + l);
      WrapPlus(usage, alignOffset + l);
      failed := EnsureSpace(actualLen, granted);
      if failed {
        return 0, true;
      }
      ptr := Wrap(end + alignOffset);
      usage := Wrap(usage + actualLen);
    }

    /** Takes a block at `aligned`. */
    method TakeBytes(l: nat, alignOffset: nat, ghost aligned: nat, granted: bool)
      returns (ptr: nat, failed: bool)
      requires Mapped() && l < WORD && aligned == start + usage + alignOffset <= WORD
      requires GrowthEnds(mapped, Wrap(aligned - start + l))
      modifies this`usage, this`mapped, this`live
      ensures Mapped() && (old(Valid()) && (failed || aligned - start + l < WORD) ==> Valid())
      ensures failed ==> ptr == 0 && usage == old(usage) && live == old(live) && mapped == old(mapped)
      ensures Wrap(aligned - start + l) <= old(mapped) ==> !failed && mapped == old(mapped)
      ensures granted && Growable(Wrap(aligned - start + l)) ==> !failed
      ensures Remapped(old(mapped), Wrap(aligned - start + l), granted, failed)
      ensures !failed ==> ptr == Wrap(aligned) && usage == Wrap(aligned - start + l)
      ensures !failed ==> live == if l > 0 then old(live) + [Block(ptr, l)] else old(live)
      ensures !failed ==> (start <= ptr && ptr + l <= start + mapped <==> aligned - start + l < WORD)
      ensures !failed && aligned - start + l < WORD ==> ptr == aligned && start + usage == ptr + l
    {
      if Valid() {
        StackedMore(live, start, start + usage, aligned, l);
      }
      ptr, failed := MoveEnd(l, alignOffset, aligned, granted);
      if !failed {
        InsideUnlessWrapped(start, mapped, aligned, l);
        live := if l > 0 then live + [Block(ptr, l)] else live;
      }
    }

    /** falloc_malloc_aligned; 0 is NULL. A block that is given lies inside the mapping exactly when
        the request did not wrap. */
    method MallocAligned(l: nat, align: nat, ghost k: nat, granted: bool) returns (ptr: nat, failed: bool)
      requires Mapped() && k < 64 && align == Pow2(k) && l < WORD && GrowthEnds(mapped, Wrap(Total(l, align)))
      modifies this`usage, this`mapped, this`live
      ensures Mapped() && (old(Valid()) && (failed || old(Total(l, align)) < WORD) ==> Valid())
      ensures failed ==> ptr == 0 && usage == old(usage) && live == old(live) && mapped == old(mapped)
      ensures old(Wrap(Total(l, align))) <= old(mapped) ==> !failed && mapped == old(mapped)
      ensures granted && Growable(old(Wrap(Total(l, align)))) ==> !failed
      ensures Remapped(old(mapped), old(Wrap(Total(l, align))), granted, failed)
      ensures !failed ==> ptr == Wrap(AlignUp(start + old(usage), align)) && usage == old(Wrap(Total(l, align)))
      ensures !failed ==> live == if l > 0 then old(live) + [Block(ptr, l)] else old(live)
      ensures !failed ==> (start <= ptr && ptr + l <= start + mapped <==> old(Total(l, align)) < WORD)
      ensures !failed && old(Total(l, align)) < WORD ==>
                ptr != 0 && ptr == AlignUp(start + old(usage), align) && ptr % align == 0 && start + usage == ptr + l
    {
      var alignOffset := AlignOffset(start + usage, align, k);
      AlignedInWord(start + usage, k);
      ptr, failed := TakeBytes(l, alignOffset, AlignUp(start + usage, align), granted);
    }

    /** falloc_malloc aligns for an int. */
    method Malloc(l: nat, granted: bool) returns (ptr: nat, failed: bool)
      requires Mapped() && l < WORD && GrowthEnds(mapped, Wrap(Total(l, 4)))
      modifies this`usage, this`mapped, this`live
      ensures Mapped() && (old(Valid()) && (failed || old(Total(l, 4)) < WORD) ==> Valid())
      ensures failed ==> ptr == 0 && usage == old(usage) && live == old(live) && mapped == old(mapped)
      ensures old(Wrap(Total(l, 4))) <= old(mapped) ==> !failed && mapped == old(mapped)
      ensures granted && Growable(old(Wrap(Total(l, 4)))) ==> !failed
      ensures Remapped(old(mapped), old(Wrap(Total(l, 4))), granted, failed)
      ensures !failed ==> ptr == Wrap(AlignUp(start + old(usage), 4)) && usage == old(Wrap(Total(l, 4)))
      ensures !failed ==> live == if l > 0 then old(live) + [Block(ptr, l)] else old(live)
      ensures !failed ==> (start <= ptr && ptr + l <= start + mapped <==> old(Total(l, 4)) < WORD)
      ensures !failed && old(Total(l, 4)) < WORD ==>
                ptr != 0 && ptr == AlignUp(start + old(usage), 4) && ptr % 4 == 0 && start + usage == ptr + l
    {
      assert Pow2(2) == 4;
      ptr, failed := MallocAligned(l, 4, 2, granted);
    }

    /** falloc_free */
    method Free(ptr: nat)
      requires Mapped()
      modifies this`usage, this`live
      ensures Mapped() && (old(Valid()) ==> Valid())
      ensures ptr < start || ptr >= start + old(usage) ==> usage == old(usage) && live == old(live)
      ensures start <= ptr < start + old(usage) ==> start + usage == ptr && live == Below(old(live), ptr)
      ensures old(Valid()) ==> forall i :: 0 <= i < |old(live)| && old(live)[i].ptr == ptr ==> live == old(live)[..i]
    {
      if Valid() {
        FreesYounger(ptr);
      }
      if ptr == 0 {
        return;
      }
      var end := start + usage;
      if ptr < start || ptr >= end {
        return;
      }
      var ptrLen := end - ptr;
      usage := usage - ptrLen;
      live := Below(live, ptr);
    }

    lemma FreesYounger(ptr: nat)
      requires Valid()
      ensures Stacked(Below(live, ptr), start, ptr)
      ensures forall i :: 0 <= i < |live| && live[i].ptr == ptr ==> Below(live, ptr) == live[..i] && ptr < start + usage
    {
      BelowStacked(live, start, start + usage, ptr);
      forall i | 0 <= i < |live| && live[i].ptr == ptr
        ensures Below(live, ptr) == live[..i]
      {
        BelowBlock(live, start, start + usage, i);
      }
    }

    /** Frees the block `ptr` that was taken when the live blocks were `before`. */
    method FreeNewest(ptr: nat, ghost len: nat, ghost before: seq<Block>)
      requires Valid()
      requires ptr == 0 ==> live == before
      requires ptr != 0 ==> Stacked(before, start, ptr) && start <= ptr && ptr + len <= start + usage
      requires ptr != 0 ==> live == if len > 0 then before + [Block(ptr, len)] else before
      modifies this`usage, this`live
      ensures Valid() && live == before
      ensures start + usage == if ptr == 0 then start + old(usage) else ptr
    {
      if ptr != 0 && len > 0 {
        assert live[|before|].ptr == ptr && live[..|before|] == before;
      }
      assert ptr != 0 ==> Below(before, ptr) == before;
      Free(ptr);
    }

    /** Even at its peak the program stays within two thirds of the address space. */
    ghost predicate Room(prog: Program, a: nat)
      requires a > 0
      reads this
    {
      3 * (Total(0, a) + Peak(prog, a)) <= 2 * WORD
    }

    /** The block of a scope. */
    method TakeBlock(len: nat, k: nat, ghost body: Program, ghost a: nat) returns (ptr: nat)
      requires Valid() && a > 0 && a % Pow2(k) == 0 && Room(Scope(len, k, body, Done), a)
      modifies this`usage, this`mapped, this`live
      ensures Valid() && Room(body, a) && start + old(usage) <= start + usage
      ensures ptr == 0 ==> usage == old(usage) && live == old(live)
      ensures ptr != 0 ==> start + old(usage) <= ptr <= AlignUp(start + old(usage), a)
      ensures ptr != 0 ==> start + usage == ptr + len
      ensures ptr != 0 ==> live == if len > 0 then old(live) + [Block(ptr, len)] else old(live)
    {
      ghost var end := start + usage;
      ScopeFits(start, end, len, k, Peak(body, a), a);
      GrowthEndsBelow(mapped, Total(len, Pow2(k)));
      var granted := AllocateWhile(false);
      var failed;
      ptr, failed := MallocAligned(len, Pow2(k), k, granted);
      NextAligned(end, start + usage, len, a);
    }

    /** One block around `body`: afterwards the end is at the block's pointer, or, if the request
        failed, where the body left it. */
    method RunScope(len: nat, k: nat, body: Program, ghost a: nat)
      requires Valid() && a > 0 && a % Pow2(k) == 0 && AlignedWithin(body, a) && Room(Scope(len, k, body, Done), a)
      modifies this
      ensures Valid() && live == old(live)
      ensures start + old(usage) <= start + usage <= AlignUp(start + old(usage), a)
      decreases body, 1
    {
      ghost var before := live;
      var ptr := TakeBlock(len, k, body, a);
      Run(body, a);
      FreeNewest(ptr, len, before);
    }

    /** Any balanced program, whichever of its requests fail: the blocks are the same as before, and
        the padding left behind stays below a common multiple of the alignments. */
    method Run(prog: Program, ghost a: nat)
      requires Valid() && a > 0 && AlignedWithin(prog, a) && Room(prog, a)
      modifies this
      ensures Valid() && live == old(live)
      ensures old(usage) <= usage < old(usage) + a
      ensures start + usage <= AlignUp(start + old(usage), a)
      decreases prog, 0
    {
      ghost var end := start + usage;
      match prog
      case Done =>
      case Scope(len, k, body, next) =>
        PeakOfParts(len, k, body, next, a);
        RunScope(len, k, body, a);
        AlignedWithinStep(end, start + usage, a);
        assert Room(next, a);
        Run(next, a);
    }
  }

  /** falloc_malloc(SIZE_MAX) on a stack with four bytes in use gives a pointer and takes back one of
      those bytes. */
  method OversizedRequest(start: nat) returns (first: nat, second: nat, usage: nat)
    requires start > 0 && start % 4 == 0 && start + STACK_SIZE < WORD
    ensures first == start && second == start + 4 && usage == 3
  {
    var tls := new ThreadLocalStack(start);
    ghost var failed;
    AlignUpLeast(start, 4, start);
    GrowthEndsBelow(tls.mapped, 4);
    first, failed := tls.Malloc(4, false);
    AlignUpLeast(start + 4, 4, start + 4);
    GrowthEndsBelow(tls.mapped, 3);
    second, failed := tls.Malloc(WORD - 1, false);
    usage := tls.usage;
  }

  /** On a new stack of 8 MiB a request of 9 MiB maps 12 MiB. */
  method TakeNine(start: nat) returns (tls: ThreadLocalStack, ptr: nat)
    requires start > 0 && start % 4 == 0 && start + 12 * 1024 * 1024 < WORD
    ensures fresh(tls) && tls.Mapped() && tls.start == start && ptr == start
    ensures tls.usage == 9 * 1024 * 1024 && tls.mapped == 12 * 1024 * 1024
  {
    tls := new ThreadLocalStack(start);
    ghost var failed;
    AlignUpLeast(start, 4, start);
    GrowthEndsBelow(tls.mapped, 9 * 1024 * 1024);
    NineGrowsToTwelve();
    ptr, failed := tls.Malloc(9 * 1024 * 1024, true);
  }

  /** A request of 1 MiB after it fits without asking for more. */
  method NineThenOne(start: nat) returns (first: nat, second: nat)
    requires start > 0 && start % 4 == 0 && start + 12 * 1024 * 1024 < WORD
    ensures first == start && second == start + 9 * 1024 * 1024
  {
    var tls;
    tls, first := TakeNine(start);
    var end := start + tls.usage;
    ghost var failed;
    AlignUpLeast(end, 4, end);
    GrowthEndsBelow(tls.mapped, 10 * 1024 * 1024);
    second, failed := tls.Malloc(1024 * 1024, false);
  }

  lemma NineGrowsToTwelve()
    ensures forall size :: GrowsTo(8 * 1024 * 1024, 9 * 1024 * 1024, size) ==> size == 12 * 1024 * 1024
  {
    var n, total, twelve := 8 * 1024 * 1024, 9 * 1024 * 1024, 12 * 1024 * 1024;
    GrowthRound(n, 0);
    assert FirstRound(n, total, 1);
    assert GrowsTo(n, total, twelve);
    forall size | GrowsTo(n, total, size)
      ensures size == twelve
    {
      GrowsToOne(n, total, size, twelve);
    }
  }
}

/** The in-place heapsort of src/structures/Heap.c and Sort.c, addresses included. */
module HeapSort {
  import opened DataType

  // Addresses --------------------------------------------------------------------------

  /** User addresses lie in the lower half of the address space. */
  const HALF: nat := 0x8000_0000_0000_0000

  /** dti_element, by steps of `size` so that proofs stay linear (ElementAddressIsProduct). */
  function ElementAddress(base: nat, size: nat, i: nat): (address: nat)
    ensures address >= base
  {
    if i == 0 then base else ElementAddress(base, size, i - 1) + size
  }

  lemma {:induction false} ElementAddressIsProduct(base: nat, size: nat, i: nat)
    ensures ElementAddress(base, size, i) == base + i * size
  {
    if i > 0 {
      ElementAddressIsProduct(base, size, i - 1);
    }
  }

  /** The index of the element that `address` points into. */
  function ElementIndex(base: nat, size: nat, address: nat): nat
    requires size > 0 && base <= address
    decreases address
  {
    if address < base + size then 0 else 1 + ElementIndex(base, size, address - size)
  }

  /** dti_item: the key of element `i`. */
  function ItemAddress(base: nat, size: nat, offset: nat, i: nat): nat {
    ElementAddress(base, size, i) + offset
  }

  function ChildCache(base: nat, size: nat, offset: nat): nat {
    Wrap(offset + size - base)
  }

  function LeftAddress(e: nat, cache: nat): nat {
    Wrap(2 * e + cache)
  }

  ghost predicate Placed(count: nat, base: nat, size: nat) {
    size > 0 && ElementAddress(base, size, count) <= HALF
  }

  /** So many elements fit the address space at all. */
  ghost predicate Addressable(count: nat, size: nat) {
    ElementAddress(0, size, count) <= HALF
  }

  /** Takes memory for `count` elements; what does not fit the address space is never given. */
  method AllocateElements(count: nat, size: nat, lasts: bool) returns (ok: bool, base: nat)
    requires size > 0
    ensures ok ==> Placed(count, base, size) && count < WORD
    ensures lasts && Addressable(count, size) ==> ok
  {
    base :| base >= 0;
    if ElementAddress(base, size, count) > HALF {
      base := 0;
    }
    var given := AllocateWhile(lasts);
    ok := given && ElementAddress(base, size, count) <= HALF;
    AddressGrows(base, size, count);
  }

  lemma {:induction false} AddressGrows(base: nat, size: nat, i: nat)
    requires size > 0
    ensures ElementAddress(base, size, i) >= base + i
  {
    if i > 0 {
      AddressGrows(base, size, i - 1);
    }
  }

  lemma {:induction false} AddressAscends(base: nat, size: nat, i: nat, j: nat)
    requires size > 0 && i < j
    ensures ElementAddress(base, size, i) + size <= ElementAddress(base, size, j)
  {
    if i < j - 1 {
      AddressAscends(base, size, i, j - 1);
    }
  }

  lemma AddressOrder(base: nat, size: nat, i: nat, j: nat)
    requires size > 0
    ensures ElementAddress(base, size, i) <= ElementAddress(base, size, j) <==> i <= j
  {
    if i < j {
      AddressAscends(base, size, i, j);
    } else if j < i {
      AddressAscends(base, size, j, i);
    }
  }

  lemma {:induction false} AddressIndex(base: nat, size: nat, i: nat)
    requires size > 0
    ensures ElementIndex(base, size, ElementAddress(base, size, i)) == i
  {
    if i > 0 {
      AddressIndex(base, size, i - 1);
    }
  }

  lemma {:induction false} DoubleAddress(base: nat, size: nat, i: nat)
    ensures ElementAddress(base, size, 2 * i + 1) + base == 2 * ElementAddress(base, size, i) + size
  {
    if i > 0 {
      DoubleAddress(base, size, i - 1);
      assert ElementAddress(base, size, 2 * i + 1) == ElementAddress(base, size, 2 * (i - 1) + 1) + 2 * size;
    }
  }

  /** What the cached formula computes for the item of element `i`. */
  lemma CachedAddress(base: nat, size: nat, offset: nat, i: nat)
    ensures LeftAddress(ItemAddress(base, size, offset, i), ChildCache(base, size, offset))
         == Wrap(ElementAddress(base, size, 2 * i + 1) + 3 * offset)
  {
    var e := ItemAddress(base, size, offset, i);
    WrapPlus(2 * e, offset + size - base);
    DoubleAddress(base, size, i);
    assert 2 * e + (offset + size - base) == ElementAddress(base, size, 2 * i + 1) + 3 * offset;
  }

  /** The cached form addresses the item of element 2i+1 exactly when keys sit at offset 0. */
  lemma CachedFormNeedsOffsetZero(count: nat, base: nat, size: nat, offset: nat, i: nat)
    requires Placed(count, base, size) && i < count && offset < size
    requires 2 * i + 1 < count
    ensures (LeftAddress(ItemAddress(base, size, offset, i), ChildCache(base, size, offset))
             == ItemAddress(base, size, offset, 2 * i + 1))
       <==> offset == 0
  {
    CachedAddress(base, size, offset, i);
    AddressAscends(base, size, 2 * i + 1, count);
  }

  /** At offset 0 no address wraps, so `<= end` on addresses is `<=` on indices, even for a child
      that does not exist. */
  lemma LeftChild(count: nat, base: nat, size: nat, i: nat)
    requires Placed(count, base, size) && i < count
    ensures LeftAddress(ElementAddress(base, size, i), ChildCache(base, size, 0))
         == ElementAddress(base, size, 2 * i + 1)
  {
    CachedAddress(base, size, 0, i);
    AddressAscends(base, size, i, count);
    DoubleAddress(base, size, i);
  }

  /** heap_create's first index, computed on size_t. */
  function FirstParent(count: nat): nat {
    Wrap(Wrap(count - 1) - 1) / 2
  }

  /** It is an index of the array exactly for two elements or more. */
  lemma FirstParentInBounds(count: nat)
    requires count < WORD
    ensures FirstParent(count) < count <==> count >= 2
  {
    assert Wrap(-1) == Wrap(WORD - 1) == WORD - 1;
  }

  // Heaps --------------------------------------------------------------------------------

  /** Every parent from `lo` on is at least its children up to `hi`. */
  ghost predicate HeapFrom(o: Order, s: seq<Elem>, lo: nat, hi: nat)
    requires hi < |s|
  {
    forall i, c :: lo <= i && (c == 2 * i + 1 || c == 2 * i + 2) && c <= hi ==> o.Rank(s[c]) <= o.Rank(s[i])
  }

  lemma {:induction false} RootIsGreatest(o: Order, s: seq<Elem>, hi: nat, i: nat)
    requires hi < |s| && HeapFrom(o, s, 0, hi) && i <= hi
    ensures o.Rank(s[i]) <= o.Rank(s[0])
  {
    if i > 0 {
      RootIsGreatest(o, s, hi, (i - 1) / 2);
      assert i == 2 * ((i - 1) / 2) + 1 || i == 2 * ((i - 1) / 2) + 2;
    }
  }

  /** A heap but for `root`, whose children are still at most its parent. */
  ghost predicate HeapExcept(o: Order, s: seq<Elem>, lo: nat, hi: nat, root: nat)
    requires hi < |s| && lo <= root <= hi
  {
    && (forall i, c :: lo <= i && i != root && (c == 2 * i + 1 || c == 2 * i + 2) && c <= hi ==>
          o.Rank(s[c]) <= o.Rank(s[i]))
    && (root > lo ==> (root - 1) / 2 >= lo)
    && (forall c :: root > lo && (c == 2 * root + 1 || c == 2 * root + 2) && c <= hi ==>
          o.Rank(s[c]) <= o.Rank(s[(root - 1) / 2]))
  }

  lemma SwapKeepsExcept(o: Order, s: seq<Elem>, lo: nat, hi: nat, root: nat, child: nat)
    requires hi < |s| && lo <= root <= hi && HeapExcept(o, s, lo, hi, root)
    requires (child == 2 * root + 1 || child == 2 * root + 2) && child <= hi
    requires o.Rank(s[root]) <= o.Rank(s[child])
    requires forall c :: (c == 2 * root + 1 || c == 2 * root + 2) && c <= hi ==> o.Rank(s[c]) <= o.Rank(s[child])
    ensures HeapExcept(o, s[root := s[child]][child := s[root]], lo, hi, child)
  {
    var t := s[root := s[child]][child := s[root]];
    assert (child - 1) / 2 == root;
    forall i, c | lo <= i && i != child && (c == 2 * i + 1 || c == 2 * i + 2) && c <= hi
      ensures o.Rank(t[c]) <= o.Rank(t[i])
    {
      if c == root {
        assert i == (root - 1) / 2;
        assert o.Rank(s[child]) <= o.Rank(s[i]);
      }
    }
  }

  method Swap(a: array<Elem>, i: nat, j: nat)
    requires i < a.Length && j < a.Length
    modifies a
    ensures a[..] == old(a[..])[i := old(a[j])][j := old(a[i])]
    ensures multiset(a[..]) == multiset(old(a[..]))
  {
    a[i], a[j] := a[j], a[i];
  }

  /** Ranks at `lo..hi` stay under any bound they were under. */
  ghost predicate Bounded(o: Order, s: seq<Elem>, hi: nat, bound: int)
    requires hi < |s|
  {
    forall i :: 0 <= i <= hi ==> o.Rank(s[i]) <= bound
  }

  lemma ExceptNothing(o: Order, s: seq<Elem>, lo: nat, hi: nat, root: nat)
    requires hi < |s| && lo <= root <= hi && HeapExcept(o, s, lo, hi, root)
    requires forall c :: (c == 2 * root + 1 || c == 2 * root + 2) && c <= hi ==> o.Rank(s[c]) <= o.Rank(s[root])
    ensures HeapFrom(o, s, lo, hi)
  {
  }

  /** The greatest of the element at `root` and its children up to `end`, by address. */
  method GreatestOfThree(a: array<Elem>, o: Order, base: nat, size: nat, root: nat, end: nat, childCache: nat,
                         ghost r: nat, ghost hi: nat)
    returns (swap: nat, ghost w: nat)
    requires Placed(a.Length, base, size) && 2 * r + 1 <= hi < a.Length
    requires root == ElementAddress(base, size, r) && end == ElementAddress(base, size, hi)
    requires LeftAddress(root, childCache) == ElementAddress(base, size, 2 * r + 1)
    ensures w == r || w == 2 * r + 1 || w == 2 * r + 2
    ensures w <= hi && swap == ElementAddress(base, size, w)
    ensures forall c :: (c == r || c == 2 * r + 1 || c == 2 * r + 2) && c <= hi ==> o.Rank(a[c]) <= o.Rank(a[w])
  {
    var child := LeftAddress(root, childCache);
    swap, w := root, r;
    AddressIndex(base, size, r);
    AddressIndex(base, size, 2 * r + 1);
    if o.Less(a[ElementIndex(base, size, swap)], a[ElementIndex(base, size, child)]) {
      swap, w := child, 2 * r + 1;
    }
    child := child + size;
    assert child == ElementAddress(base, size, 2 * r + 2);
    AddressOrder(base, size, 2 * r + 2, hi);
    AddressIndex(base, size, 2 * r + 2);
    if child <= end && o.Less(a[ElementIndex(base, size, swap)], a[ElementIndex(base, size, child)]) {
      swap, w := child, 2 * r + 2;
    }
  }

  ghost predicate SameOutside(s: seq<Elem>, t: seq<Elem>, lo: nat, hi: nat) {
    |s| == |t| && forall k :: 0 <= k < |s| && (k < lo || k > hi) ==> s[k] == t[k]
  }

  /** What is kept by every turn of the sift-down loop that started from `s0`. */
  ghost predicate Sifting(o: Order, s0: seq<Elem>, s: seq<Elem>, lo: nat, hi: nat, root: nat, bound: int)
    requires hi < |s| && lo <= root <= hi
  {
    && HeapExcept(o, s, lo, hi, root)
    && Bounded(o, s, hi, bound)
    && multiset(s) == multiset(s0)
    && SameOutside(s0, s, lo, hi)
  }

  lemma SwapKeepsSifting(o: Order, s0: seq<Elem>, s: seq<Elem>, t: seq<Elem>,
                         lo: nat, hi: nat, root: nat, child: nat, bound: int)
    requires hi < |s| && lo <= root <= hi && Sifting(o, s0, s, lo, hi, root, bound)
    requires (child == 2 * root + 1 || child == 2 * root + 2) && child <= hi
    requires forall c :: (c == root || c == 2 * root + 1 || c == 2 * root + 2) && c <= hi ==>
               o.Rank(s[c]) <= o.Rank(s[child])
    requires t == s[root := s[child]][child := s[root]] && multiset(t) == multiset(s)
    ensures Sifting(o, s0, t, lo, hi, child, bound)
  {
    SwapKeepsExcept(o, s, lo, hi, root, child);
  }

  /** `root` is the address of element `r`, and the loop's test is a test on indices. */
  ghost predicate CursorAt(base: nat, size: nat, root: nat, end: nat, childCache: nat, r: nat, hi: nat) {
    && root == ElementAddress(base, size, r)
    && LeftAddress(root, childCache) == ElementAddress(base, size, 2 * r + 1)
    && (LeftAddress(root, childCache) <= end <==> 2 * r + 1 <= hi)
  }

  lemma CursorMoves(count: nat, base: nat, size: nat, r: nat, hi: nat)
    requires Placed(count, base, size) && r <= hi < count
    ensures CursorAt(base, size, ElementAddress(base, size, r), ElementAddress(base, size, hi),
                     ChildCache(base, size, 0), r, hi)
  {
    LeftChild(count, base, size, r);
    AddressOrder(base, size, 2 * r + 1, hi);
  }

  /** One turn of the loop: stops with `swap == root`, or exchanges and goes on at `swap`. */
  method SiftOnce(a: array<Elem>, o: Order, base: nat, size: nat, root: nat, end: nat, childCache: nat,
                  ghost s0: seq<Elem>, ghost lo: nat, ghost r: nat, ghost hi: nat, ghost bound: int)
    returns (swap: nat, ghost w: nat)
    requires Placed(a.Length, base, size) && lo <= r && 2 * r + 1 <= hi < a.Length
    requires root == ElementAddress(base, size, r) && end == ElementAddress(base, size, hi)
    requires LeftAddress(root, childCache) == ElementAddress(base, size, 2 * r + 1)
    requires Sifting(o, s0, a[..], lo, hi, r, bound)
    modifies a
    ensures r <= w <= hi && swap == ElementAddress(base, size, w) && (swap == root <==> w == r)
    ensures Sifting(o, s0, a[..], lo, hi, w, bound)
    ensures swap == root ==> HeapFrom(o, a[..], lo, hi)
  {
    ghost var s := a[..];
    swap, w := GreatestOfThree(a, o, base, size, root, end, childCache, r, hi);
    AddressOrder(base, size, w, r);
    if swap == root {
      ExceptNothing(o, s, lo, hi, r);
    } else {
      AddressIndex(base, size, r);
      AddressIndex(base, size, w);
      Swap(a, ElementIndex(base, size, root), ElementIndex(base, size, swap));
      SwapKeepsSifting(o, s0, s, a[..], lo, hi, r, w, bound);
    }
  }

  /** `start` and `end` are addresses; `lo` and `hi` are the elements they point at. */
  method SiftDown(a: array<Elem>, o: Order, base: nat, size: nat, start: nat, end: nat,
                  ghost lo: nat, ghost hi: nat, ghost bound: int)
    requires Placed(a.Length, base, size) && lo <= hi < a.Length
    requires start == ElementAddress(base, size, lo) && end == ElementAddress(base, size, hi)
    requires HeapFrom(o, a[..], lo + 1, hi) && Bounded(o, a[..], hi, bound)
    modifies a
    ensures HeapFrom(o, a[..], lo, hi) && Bounded(o, a[..], hi, bound)
    ensures multiset(a[..]) == multiset(old(a[..])) && SameOutside(old(a[..]), a[..], lo, hi)
  {
    var root := start;
    ghost var r, s0 := lo, a[..];
    var childCache := ChildCache(base, size, 0);
    CursorMoves(a.Length, base, size, r, hi);
    while LeftAddress(root, childCache) <= end
      invariant lo <= r <= hi && CursorAt(base, size, root, end, childCache, r, hi)
      invariant Sifting(o, s0, a[..], lo, hi, r, bound)
      decreases hi - r
    {
      var swap;
      ghost var w;
      swap, w := SiftOnce(a, o, base, size, root, end, childCache, s0, lo, r, hi, bound);
      if swap == root {
        return;
      }
      root, r := swap, w;
      CursorMoves(a.Length, base, size, r, hi);
    }
    ExceptNothing(o, a[..], lo, hi, r);
  }

  method HeapCreate(a: array<Elem>, o: Order, base: nat, size: nat, ghost bound: int)
    requires Placed(a.Length, base, size) && 2 <= a.Length < WORD && Bounded(o, a[..], a.Length - 1, bound)
    modifies a
    ensures HeapFrom(o, a[..], 0, a.Length - 1)
    ensures multiset(a[..]) == multiset(old(a[..]))
  {
    var start := FirstParent(a.Length) + 1;
    var more := true;
    while more
      invariant 0 <= start <= FirstParent(a.Length) + 1
      invariant more <==> start != 0
      invariant HeapFrom(o, a[..], start, a.Length - 1) && Bounded(o, a[..], a.Length - 1, bound)
      invariant multiset(a[..]) == multiset(old(a[..]))
      decreases start
    {
      start := start - 1;
      SiftDown(a, o, base, size, ElementAddress(base, size, start), ElementAddress(base, size, a.Length - 1),
               start, a.Length - 1, bound);
      more := start != 0;
    }
  }

  ghost function Highest(o: Order, s: seq<Elem>): (b: int)
    ensures forall i :: 0 <= i < |s| ==> o.Rank(s[i]) <= b
  {
    if s == [] then 0
    else
      var b := Highest(o, s[1..]);
      assert s == [s[0]] + s[1..];
      if b < o.Rank(s[0]) then o.Rank(s[0]) else b
  }

  /** Elements after `e` are in order and at least everything before them. */
  ghost predicate Settled(o: Order, s: seq<Elem>, e: nat) {
    forall i, j :: 0 <= i < j < |s| && e < j ==> o.Rank(s[i]) <= o.Rank(s[j])
  }

  lemma RootMovesToEnd(o: Order, s: seq<Elem>, e: nat)
    requires 0 < e < |s| && HeapFrom(o, s, 0, e) && Settled(o, s, e)
    ensures var t := s[e := s[0]][0 := s[e]];
      HeapFrom(o, t, 1, e - 1) && Bounded(o, t, e - 1, o.Rank(s[0])) && t[e] == s[0] && Settled(o, t, e)
  {
    forall i | 0 <= i <= e
      ensures o.Rank(s[i]) <= o.Rank(s[0])
    {
      RootIsGreatest(o, s, e, i);
    }
  }

  lemma SettleOneMore(o: Order, s: seq<Elem>, t: seq<Elem>, e: nat)
    requires 0 < e < |s| == |t| && Settled(o, s, e) && (forall k :: e <= k < |s| ==> s[k] == t[k])
    requires Bounded(o, t, e - 1, o.Rank(s[e]))
    requires forall j :: e < j < |s| ==> o.Rank(s[e]) <= o.Rank(s[j])
    ensures Settled(o, t, e - 1)
  {
  }

  /** One turn of the sorting loop: the greatest element goes to `e`, the rest is a heap again. */
  method ExtractGreatest(a: array<Elem>, o: Order, base: nat, size: nat, first: nat, end: nat, ghost e: nat)
    returns (previous: nat)
    requires Placed(a.Length, base, size) && 0 < e < a.Length
    requires first == ElementAddress(base, size, 0) && end == ElementAddress(base, size, e)
    requires HeapFrom(o, a[..], 0, e) && Settled(o, a[..], e)
    modifies a
    ensures previous == ElementAddress(base, size, e - 1)
    ensures HeapFrom(o, a[..], 0, e - 1) && Settled(o, a[..], e - 1)
    ensures multiset(a[..]) == multiset(old(a[..]))
  {
    ghost var s := a[..];
    RootMovesToEnd(o, s, e);
    AddressIndex(base, size, e);
    AddressIndex(base, size, 0);
    Swap(a, ElementIndex(base, size, end), ElementIndex(base, size, first));
    ghost var t := a[..];
    previous := end - size;
    SiftDown(a, o, base, size, first, previous, 0, e - 1, o.Rank(s[0]));
    SettleOneMore(o, t, a[..], e);
  }

  /** Sorts in place, for every array of two elements or more. */
  method SortHeap(a: array<Elem>, o: Order, base: nat, size: nat)
    requires Placed(a.Length, base, size) && 2 <= a.Length < WORD
    modifies a
    ensures Sorted(o, a[..]) && multiset(a[..]) == multiset(old(a[..]))
    ensures forall i, j :: 0 <= i < j < a.Length ==> if o.reversed then a[i].key >= a[j].key else a[i].key <= a[j].key
  {
    HeapCreate(a, o, base, size, Highest(o, a[..]));
    var first := ElementAddress(base, size, 0);
    var end := ElementAddress(base, size, a.Length - 1);
    ghost var e := a.Length - 1;
    AddressOrder(base, size, e, 0);
    while end > base
      invariant 0 <= e < a.Length && end == ElementAddress(base, size, e)
      invariant end > base <==> e > 0
      invariant HeapFrom(o, a[..], 0, e) && Settled(o, a[..], e)
      invariant multiset(a[..]) == multiset(old(a[..]))
      decreases e
    {
      end := ExtractGreatest(a, o, base, size, first, end, e);
      e := e - 1;
      AddressOrder(base, size, e, 0);
    }
    SortedByKeys(o, a[..]);
  }
}

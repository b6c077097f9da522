/** Elements, keys and key order (src/structures/Interface.h), allocation, and arithmetic on machine words. */
module DataType {

  /** A stored element. `key` is the rank of its key bytes under the interface's `cmp_l`
      (RankRepresentsOrder shows that ranks lose nothing); `data` is every other byte. */
  datatype Elem = Elem(key: int, data: seq<bv8>)

  /** The part of IDataType that orders elements. `reversed` is the interface that
      best-first search builds around the problem's own one. */
  datatype Order = Order(reversed: bool) {
    function Rank(e: Elem): int {
      if reversed then -e.key else e.key
    }

    predicate Less(a: Elem, b: Elem) {
      Rank(a) < Rank(b)
    }
  }

  ghost predicate Sorted(o: Order, s: seq<Elem>) {
    forall i, j :: 0 <= i < j < |s| ==> o.Rank(s[i]) <= o.Rank(s[j])
  }

  lemma SortedByKeys(o: Order, s: seq<Elem>)
    requires Sorted(o, s)
    ensures forall i, j :: 0 <= i < j < |s| ==> if o.reversed then s[i].key >= s[j].key else s[i].key <= s[j].key
  {
  }

  ghost predicate StrictlySorted(s: seq<Elem>) {
    forall i, j :: 0 <= i < j < |s| ==> s[i].key < s[j].key
  }

  ghost function KeySet(s: seq<Elem>): set<int> {
    set e | e in s :: e.key
  }

  function InsertAt<T>(s: seq<T>, i: nat, v: T): seq<T>
    requires i <= |s|
  {
    s[..i] + [v] + s[i..]
  }

  function RemoveAt<T>(s: seq<T>, i: nat): seq<T>
    requires i < |s|
  {
    s[..i] + s[i + 1..]
  }

  function Pow2(k: nat): (r: nat)
    ensures r > 0
  {
    if k == 0 then 1 else 2 * Pow2(k - 1)
  }

  // Allocation ------------------------------------------------------------------
  // Whether memory can be had is an input of every operation: `granted` is the answer to its one
  // allocation, `lasts` says that none of its allocations fails.

  /** malloc, calloc, realloc or falloc_malloc, which may fail at any call once memory does not last. */
  method AllocateWhile(lasts: bool) returns (ok: bool)
    ensures lasts ==> ok
  {
    ok := *;
    ok := ok || lasts;
  }

  // Arithmetic on size_t and uintptr_t --------------------------------------------

  const WORD: nat := 0x1_0000_0000_0000_0000

  /** Reduction modulo 2^64 (WrapIsRemainder), by steps so that proofs stay linear. */
  function Wrap(x: int): (r: nat)
    ensures r < WORD && (x >= 0 ==> r <= x)
    decreases if x < 0 then WORD - x else x
  {
    if x < 0 then Wrap(x + WORD) else if x < WORD then x else Wrap(x - WORD)
  }

  lemma {:induction false} WrapIsRemainder(x: int)
    ensures Wrap(x) == x % WORD
    decreases if x < 0 then WORD - x else x
  {
    if x < 0 {
      WrapIsRemainder(x + WORD);
      assert (x + WORD) % WORD == x % WORD;
    } else if x >= WORD {
      WrapIsRemainder(x - WORD);
      assert (x - WORD) % WORD == x % WORD;
    }
  }

  lemma {:induction false} WrapPlus(x: int, y: int)
    ensures Wrap(x + Wrap(y)) == Wrap(x + y)
    decreases if y < 0 then WORD - y else y
  {
    if y < 0 {
      WrapPlus(x, y + WORD);
      WrapAround(x + y);
    } else if y >= WORD {
      WrapPlus(x, y - WORD);
      WrapAround(x + y - WORD);
    }
  }

  lemma WrapAround(x: int)
    ensures Wrap(x + WORD) == Wrap(x)
  {
  }

  // Ranks against comparison functions ----------------------------------------

  ghost predicate StrictWeakOrder<T(!new)>(less: (T, T) -> bool) {
    && (forall a :: !less(a, a))
    && (forall a, b, c :: less(a, b) && less(b, c) ==> less(a, c))
    && (forall a, b, c :: less(a, c) ==> less(a, b) || less(b, c))
  }

  ghost function RankIn<T(!new)>(less: (T, T) -> bool, universe: set<T>, a: T): nat {
    |set x | x in universe && less(x, a)|
  }

  lemma SmallerSet<T>(a: set<T>, b: set<T>)
    requires a < b
    ensures |a| < |b|
  {
    var x :| x in b && x !in a;
    assert a <= b - {x};
    SubsetSize(a, b - {x});
  }

  lemma SubsetSize<T>(a: set<T>, b: set<T>)
    requires a <= b
    ensures |a| <= |b|
  {
    if a != {} {
      var x :| x in a;
      SubsetSize(a - {x}, b - {x});
    }
  }

  /** Keys are byte strings of a fixed size, so there are finitely many; on a finite universe
      every strict weak order is the order of integer ranks. */
  lemma RankRepresentsOrder<T(!new)>(less: (T, T) -> bool, universe: set<T>, a: T, b: T)
    requires StrictWeakOrder(less) && a in universe && b in universe
    ensures less(a, b) <==> RankIn(less, universe, a) < RankIn(less, universe, b)
  {
    var below := (c: T) => set x | x in universe && less(x, c);
    if less(a, b) {
      assert a in below(b) && a !in below(a);
      assert below(a) < below(b);
      SmallerSet(below(a), below(b));
    } else {
      assert forall x :: x in below(b) ==> x in below(a);
      SubsetSize(below(b), below(a));
    }
  }
}

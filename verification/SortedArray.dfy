/** The self-sorting array of src/structures/SortedArray.c: an exact-fit block with a gap in front. */
module SortedArray {
  import opened DataType
  import opened BinarySearch
  import opened Merge
  import HeapSort

  const OFFSET_THRESHOLD: nat := 128

  lemma SortedInsert(o: Order, s: seq<Elem>, i: nat, v: Elem)
    requires Sorted(o, s) && i <= |s|
    requires forall j :: 0 <= j < i ==> o.Rank(s[j]) <= o.Rank(v)
    requires forall j :: i <= j < |s| ==> o.Rank(v) <= o.Rank(s[j])
    ensures Sorted(o, InsertAt(s, i, v))
  {
  }

  lemma SortedRemove(o: Order, s: seq<Elem>, i: nat)
    requires Sorted(o, s) && i < |s|
    ensures Sorted(o, RemoveAt(s, i))
  {
  }

  lemma RemoveLast(s: seq<Elem>)
    requires s != []
    ensures s == RemoveAt(s, |s| - 1) + [s[|s| - 1]]
  {
  }

  lemma InsertMultiset(s: seq<Elem>, i: nat, v: Elem)
    requires i <= |s|
    ensures multiset(InsertAt(s, i, v)) == multiset(s) + multiset{v}
  {
    assert s == s[..i] + s[i..];
  }

  lemma RemoveMultiset(s: seq<Elem>, i: nat)
    requires i < |s|
    ensures multiset(RemoveAt(s, i)) + multiset{s[i]} == multiset(s)
  {
    assert s == s[..i] + [s[i]] + s[i + 1..];
  }

  /** The forward stable search: the last element of the probe's rank. */
  method FindLast(o: Order, s: seq<Elem>, probe: Elem) returns (index: nat, found: bool)
    requires Sorted(o, s)
    ensures found ==> index < |s| && o.Rank(s[index]) == o.Rank(probe)
    ensures found ==> forall i :: index < i < |s| ==> o.Rank(probe) < o.Rank(s[i])
    ensures !found ==> index <= |s|
    ensures !found ==> forall i :: 0 <= i < index ==> o.Rank(s[i]) < o.Rank(probe)
    ensures !found ==> forall i :: index <= i < |s| ==> o.Rank(probe) < o.Rank(s[i])
  {
    index, found := FindSlot(o, s, probe);
    if found {
      if index == |s| - 1 {
        return;
      }
      var current := index + 1;
      while o.Rank(s[current]) == o.Rank(probe)
        invariant index < current < |s|
        invariant o.Rank(s[current - 1]) == o.Rank(probe)
        decreases |s| - current
      {
        if current == |s| - 1 {
          return current, true;
        }
        current := current + 1;
      }
      return current - 1, true;
    }
  }

  /** The documentation of sorted_array_insert_stable: the new element goes behind its equals. */
  ghost predicate PlacedLast(o: Order, before: seq<Elem>, after: seq<Elem>, v: Elem) {
    OfRank(o, after, o.Rank(v)) == OfRank(o, before, o.Rank(v)) + [v]
  }

  /** Inserting at the index of the last equal element, as the code does, meets the documentation
      only when that element and the new one are the same bytes. */
  lemma InsertStablePlacement(o: Order, s: seq<Elem>, last: nat, v: Elem)
    requires Sorted(o, s) && last < |s| && o.Rank(s[last]) == o.Rank(v)
    requires forall i :: last < i < |s| ==> o.Rank(v) < o.Rank(s[i])
    ensures PlacedLast(o, s, InsertAt(s, last, v), v) <==> s[last] == v
  {
    var k, h := o.Rank(v), OfRank(o, s[..last], o.Rank(v));
    OfRankInsert(o, s, last, v);
    OfRankTail(o, s[last..]);
    OfRankConcat(o, s[..last], s[last..], k);
    assert s == s[..last] + s[last..];
    var x := s[last];
    assert (h + [v] + [x])[|h|] == v && (h + [x] + [v])[|h|] == x;
  }

  lemma OfRankInsert(o: Order, s: seq<Elem>, i: nat, v: Elem)
    requires i <= |s|
    ensures var k := o.Rank(v);
      OfRank(o, InsertAt(s, i, v), k) == OfRank(o, s[..i], k) + [v] + OfRank(o, s[i..], k)
  {
    var k := o.Rank(v);
    OfRankConcat(o, s[..i] + [v], s[i..], k);
    OfRankConcat(o, s[..i], [v], k);
    OfRankOne(o, v);
  }

  lemma OfRankTail(o: Order, s: seq<Elem>)
    requires s != [] && forall i :: 0 < i < |s| ==> o.Rank(s[i]) != o.Rank(s[0])
    ensures OfRank(o, s, o.Rank(s[0])) == [s[0]]
  {
    assert s == [s[0]] + s[1..];
    OfRankConcat(o, [s[0]], s[1..], o.Rank(s[0]));
    OfRankOne(o, s[0]);
    NoneOfRank(o, s[1..], o.Rank(s[0]));
  }

  lemma OfRankOne(o: Order, v: Elem)
    ensures OfRank(o, [v], o.Rank(v)) == [v]
  {
    assert [v][..0] == [];
  }

  /** A key that is not stored yet is always placed as documented. */
  lemma InsertNewPlacement(o: Order, s: seq<Elem>, i: nat, v: Elem)
    requires i <= |s|
    requires forall j :: 0 <= j < |s| ==> o.Rank(s[j]) != o.Rank(v)
    ensures PlacedLast(o, s, InsertAt(s, i, v), v)
  {
    NoneOfRank(o, s, o.Rank(v));
    NoneOfRank(o, s[..i], o.Rank(v));
    NoneOfRank(o, s[i..], o.Rank(v));
    OfRankInsert(o, s, i, v);
  }

  ghost predicate IsLastOfRank(o: Order, s: seq<Elem>, index: nat, k: int) {
    && index < |s| && o.Rank(s[index]) == k
    && forall i :: index < i < |s| ==> o.Rank(s[i]) != k
  }

  lemma LastOfRank(o: Order, s: seq<Elem>, index: nat, k: int)
    requires IsLastOfRank(o, s, index, k)
    ensures OfRank(o, s, k) != [] && OfRank(o, s, k)[|OfRank(o, s, k)| - 1] == s[index]
  {
    OfRankTail(o, s[index..]);
    OfRankConcat(o, s[..index], s[index..], k);
    assert s == s[..index] + s[index..];
  }

  /** What the code does to the elements equal to the new one. */
  lemma InsertStableEffect(o: Order, s: seq<Elem>, index: nat, found: bool, v: Elem)
    requires Sorted(o, s) && index <= |s|
    requires found ==> index < |s| && o.Rank(s[index]) == o.Rank(v)
    requires found ==> forall i :: index < i < |s| ==> o.Rank(v) < o.Rank(s[i])
    requires !found ==> forall i :: 0 <= i < index ==> o.Rank(s[i]) < o.Rank(v)
    requires !found ==> forall i :: index <= i < |s| ==> o.Rank(v) < o.Rank(s[i])
    ensures Sorted(o, InsertAt(s, index, v))
    ensures var equals := OfRank(o, s, o.Rank(v));
      && (equals != [] ==> IsLastOfRank(o, s, index, o.Rank(v)))
      && (PlacedLast(o, s, InsertAt(s, index, v), v) <==> equals == [] || equals[|equals| - 1] == v)
  {
    SortedInsert(o, s, index, v);
    if found {
      InsertStablePlacement(o, s, index, v);
      LastOfRank(o, s, index, o.Rank(v));
    } else {
      InsertNewPlacement(o, s, index, v);
      NoneOfRank(o, s, o.Rank(v));
    }
  }

  lemma InsertStableWitness()
    ensures var s := [Elem(7, [1])];
      Sorted(Order(false), s) && !PlacedLast(Order(false), s, InsertAt(s, 0, Elem(7, [2])), Elem(7, [2]))
  {
    InsertStablePlacement(Order(false), [Elem(7, [1])], 0, Elem(7, [2]));
  }

  // Moving elements inside a block ---------------------------------------------------------

  /** The block after memmove: `count` elements from `from` on now also stand at `to`. */
  ghost function Moved(b: seq<Elem>, to: nat, from: nat, count: nat): (r: seq<Elem>)
    requires to + count <= |b| && from + count <= |b|
    ensures |r| == |b|
  {
    b[..to] + b[from..from + count] + b[to + count..]
  }

  /** memmove copies as if through a temporary. */
  method Memmove(a: array<Elem>, to: nat, from: nat, count: nat)
    requires to + count <= a.Length && from + count <= a.Length
    modifies a
    ensures a[..] == Moved(old(a[..]), to, from, count)
  {
    var temporary := a[from..from + count];
    forall k | to <= k < to + count {
      a[k] := temporary[k - to];
    }
  }

  lemma WindowOpensInFront(b: seq<Elem>, start: nat, length: nat, index: nat, v: Elem)
    requires 0 < start && start + length <= |b| && index <= length
    ensures Moved(b, start - 1, start, index)[start - 1 + index := v][start - 1..start + length]
         == InsertAt(b[start..start + length], index, v)
  {
    var m, s := Moved(b, start - 1, start, index)[start - 1 + index := v], b[start..start + length];
    assert m[start - 1..start - 1 + index] == s[..index];
    assert m[start + index..start + length] == s[index..];
    assert m[start - 1..start + length] == m[start - 1..start - 1 + index] + [v] + m[start + index..start + length];
  }

  lemma WindowOpensBehind(b: seq<Elem>, start: nat, length: nat, index: nat, v: Elem)
    requires start + length < |b| && index <= length
    ensures Moved(b, start + index + 1, start + index, length - index)[start + index := v][start..start + length + 1]
         == InsertAt(b[start..start + length], index, v)
  {
    var m := Moved(b, start + index + 1, start + index, length - index)[start + index := v];
    var s := b[start..start + length];
    assert m[start..start + index] == s[..index];
    assert m[start + index + 1..start + length + 1] == s[index..];
    assert m[start..start + length + 1] == m[start..start + index] + [v] + m[start + index + 1..start + length + 1];
  }

  lemma WindowClosesInFront(b: seq<Elem>, start: nat, length: nat, index: nat)
    requires start + length <= |b| && index < length
    ensures Moved(b, start + 1, start, index)[start + 1..start + length] == RemoveAt(b[start..start + length], index)
  {
    var m, s := Moved(b, start + 1, start, index), b[start..start + length];
    assert m[start + 1..start + 1 + index] == s[..index];
    assert m[start + 1 + index..start + length] == s[index + 1..];
    assert m[start + 1..start + length] == m[start + 1..start + 1 + index] + m[start + 1 + index..start + length];
  }

  lemma WindowClosesBehind(b: seq<Elem>, start: nat, length: nat, index: nat)
    requires start + length <= |b| && index < length
    ensures Moved(b, start + index, start + index + 1, length - index - 1)[start..start + length - 1]
         == RemoveAt(b[start..start + length], index)
  {
  }

  // The four moves of a window of `length` elements at `start`

  method OpenSlotInFront(a: array<Elem>, start: nat, length: nat, index: nat, v: Elem)
    requires 0 < start && start + length <= a.Length && index <= length
    modifies a
    ensures a[start - 1..start + length] == InsertAt(old(a[start..start + length]), index, v)
  {
    WindowOpensInFront(a[..], start, length, index, v);
    Memmove(a, start - 1, start, index);
    a[start - 1 + index] := v;
  }

  method OpenSlotBehind(a: array<Elem>, start: nat, length: nat, index: nat, v: Elem)
    requires start + length < a.Length && index <= length
    modifies a
    ensures a[start..start + length + 1] == InsertAt(old(a[start..start + length]), index, v)
  {
    WindowOpensBehind(a[..], start, length, index, v);
    Memmove(a, start + index + 1, start + index, length - index);
    a[start + index] := v;
  }

  method CloseSlotInFront(a: array<Elem>, start: nat, length: nat, index: nat)
    requires start + length <= a.Length && index < length
    modifies a
    ensures a[start + 1..start + length] == RemoveAt(old(a[start..start + length]), index)
  {
    WindowClosesInFront(a[..], start, length, index);
    Memmove(a, start + 1, start, index);
  }

  method CloseSlotBehind(a: array<Elem>, start: nat, length: nat, index: nat)
    requires start + length <= a.Length && index < length
    modifies a
    ensures a[start..start + length - 1] == RemoveAt(old(a[start..start + length]), index)
  {
    WindowClosesBehind(a[..], start, length, index);
    Memmove(a, start + index, start + index + 1, length - index - 1);
  }

  class SortedArray {
    var block: array?<Elem>
    var length: nat
    var startOffset: nat
    const order: Order
    const elementSize: nat
    /** The stored elements, in order. */
    ghost var contents: seq<Elem>
    ghost var Repr: set<object>

    ghost predicate Shaped()
      reads this
    {
      && (block == null <==> length == 0)
      && (block == null ==> startOffset == 0)
      && (block != null ==> startOffset + length <= block.Length)
      && elementSize > 0
    }

    function Contents(): seq<Elem>
      requires Shaped()
      reads this, block
    {
      if block == null then [] else block[startOffset..startOffset + length]
    }

    ghost predicate Valid()
      reads this, Repr
    {
      && this in Repr && (block != null ==> block in Repr)
      && Shaped() && contents == Contents() && Sorted(order, contents)
    }

    /** Brings the ghost fields up to date. */
    ghost method Update(stored: seq<Elem>)
      requires Shaped() && Contents() == stored && Sorted(order, stored)
      modifies this`contents, this`Repr
      ensures Valid() && contents == stored && Repr == {this} + if block == null then {} else {block}
    {
      contents, Repr := stored, {this} + if block == null then {} else {block};
    }

    /** No room behind the last element. */
    ghost predicate ExactFit()
      reads this
    {
      block != null ==> block.Length == startOffset + length
    }

    constructor (order: Order, elementSize: nat)
      requires elementSize > 0
      ensures Valid() && fresh(Repr) && contents == [] && ExactFit()
      ensures this.order == order && this.elementSize == elementSize
    {
      this.order, this.elementSize := order, elementSize;
      block, length, startOffset := null, 0, 0;
      contents, Repr := [], {this};
    }

    /** realloc(): if granted, the block gets `room` places behind its elements, and stays as it is
        otherwise. */
    method Reallocate(room: nat, granted: bool)
      requires Shaped() && length > 0
      modifies this`block
      ensures Shaped() && (if granted then fresh(block) else block == old(block))
      ensures granted ==> block.Length == startOffset + length + room
      ensures Contents() == old(Contents())
    {
      if granted {
        var from, count := block, startOffset + length;
        block := new Elem[count + room](i reads from => if 0 <= i < from.Length then from[i] else Elem(0, []));
        assert block[startOffset..count] == from[startOffset..count];
      }
    }

    /** What Valid says about keys: they ascend, or descend when the order is reversed. Every operation
        keeps it. */
    lemma KeysInOrder()
      requires Valid()
      ensures forall i, j :: 0 <= i < j < |contents| ==>
                if order.reversed then contents[i].key >= contents[j].key else contents[i].key <= contents[j].key
    {
      SortedByKeys(order, contents);
    }

    // Inserting ---------------------------------------------------------------------

    /** Moves the first `index` elements into the gap. */
    method InsertAtFront(value: Elem, index: nat)
      requires Shaped() && length > 0 && startOffset > 0 && index <= length
      modifies this`block, this`length, this`startOffset, block
      ensures Shaped() && block == old(block) && startOffset == old(startOffset) - 1
      ensures Contents() == InsertAt(old(Contents()), index, value)
      ensures old(ExactFit()) ==> ExactFit()
    {
      OpenSlotInFront(block, startOffset, length, index, value);
      startOffset := startOffset - 1;
      length := length + 1;
    }

    /** Grows the block by one and moves the elements from `index` on. */
    method InsertAtBack(value: Elem, index: nat, granted: bool)
      requires Shaped() && length > 0 && index <= length
      modifies this`block, this`length
      ensures Shaped() && (block == old(block) || fresh(block)) && startOffset == old(startOffset)
      ensures Contents() == if granted then InsertAt(old(Contents()), index, value) else old(Contents())
      ensures if granted then ExactFit() else block == old(block) && length == old(length)
    {
      Reallocate(1, granted);
      if granted {
        OpenSlotBehind(block, startOffset, length, index, value);
        length := length + 1;
      }
    }

    /** The insertion at `index` uses the gap in front and needs no memory. */
    ghost predicate FitsInGap(index: nat)
      reads this
    {
      length > 0 && startOffset > 0 && index <= length / 2
    }

    /** Makes space and copies `value` to `index`; the caller keeps the order. `granted` is the
        answer to the allocation, where one is needed. */
    method InsertRaw(value: Elem, index: nat, granted: bool) returns (ok: bool)
      requires Shaped() && index <= length
      modifies this`block, this`length, this`startOffset, block
      ensures Shaped() && (block == null || block == old(block) || fresh(block))
      ensures ok <==> granted || (old(length) > 0 && old(startOffset) > 0 && index <= old(length) / 2)
      ensures Contents() == if ok then InsertAt(old(Contents()), index, value) else old(Contents())
      ensures startOffset == if old(FitsInGap(index)) then old(startOffset) - 1 else old(startOffset)
      ensures old(ExactFit()) ==> ExactFit()
    {
      if length == 0 {
        if granted {
          block := new Elem[1](_ => value);
          length := 1;
          assert Contents() == [value];
        }
        return granted;
      } else if startOffset > 0 && index <= length / 2 {
        InsertAtFront(value, index);
        return true;
      } else {
        InsertAtBack(value, index, granted);
        return granted;
      }
    }

    /** Inserts where the order allows it. */
    method InsertHere(value: Elem, index: nat, granted: bool) returns (ok: bool)
      requires Valid() && index <= |contents| && Sorted(order, InsertAt(contents, index, value))
      modifies Repr
      ensures Valid() && fresh(Repr - old(Repr))
      ensures ok <==> granted || old(FitsInGap(index))
      ensures contents == if ok then InsertAt(old(contents), index, value) else old(contents)
      ensures startOffset == if old(FitsInGap(index)) then old(startOffset) - 1 else old(startOffset)
      ensures old(ExactFit()) ==> ExactFit()
    {
      ghost var before := contents;
      ok := InsertRaw(value, index, granted);
      Update(if ok then InsertAt(before, index, value) else before);
    }

    method Insert(value: Elem, granted: bool) returns (ok: bool, index: nat)
      requires Valid()
      modifies Repr
      ensures Valid() && fresh(Repr - old(Repr))
      ensures index <= |old(contents)| && (ok <==> granted || old(FitsInGap(index)))
      ensures contents == if ok then InsertAt(old(contents), index, value) else old(contents)
      ensures forall i, j :: 0 <= i < j < |contents| ==>
                if order.reversed then contents[i].key >= contents[j].key else contents[i].key <= contents[j].key
      ensures old(ExactFit()) ==> ExactFit()
    {
      var found;
      index, found := FindSlot(order, Contents(), value);
      SortedInsert(order, contents, index, value);
      ok := InsertHere(value, index, granted);
      SortedByKeys(order, contents);
    }

    method InsertStable(value: Elem, granted: bool) returns (ok: bool, index: nat)
      requires Valid()
      modifies Repr
      ensures Valid() && fresh(Repr - old(Repr))
      ensures index <= |old(contents)| && (ok <==> granted || old(FitsInGap(index)))
      ensures contents == if ok then InsertAt(old(contents), index, value) else old(contents)
      ensures var equals := OfRank(order, old(contents), order.Rank(value));
        && (equals != [] ==> IsLastOfRank(order, old(contents), index, order.Rank(value)))
        && (ok ==> (PlacedLast(order, old(contents), contents, value) <==>
                      equals == [] || equals[|equals| - 1] == value))
      ensures old(ExactFit()) ==> ExactFit()
    {
      var found;
      index, found := FindLast(order, Contents(), value);
      InsertStableEffect(order, contents, index, found, value);
      ok := InsertHere(value, index, granted);
    }

    /** The copy of the batch, heapsorted. The heapsort needs two elements. */
    method SortedCopy(batch: seq<Elem>, lasts: bool) returns (ok: bool, copy: array<Elem>)
      requires elementSize > 0 && |batch| >= 2
      ensures ok ==> fresh(copy) && Sorted(order, copy[..]) && multiset(copy[..]) == multiset(batch)
      ensures ok ==> copy.Length == |batch|
      ensures lasts && HeapSort.Addressable(|batch|, elementSize) ==> ok
    {
      var base;
      ok, base := HeapSort.AllocateElements(|batch|, elementSize, lasts);
      copy := new Elem[|batch|](i requires 0 <= i < |batch| => batch[i]);
      assert copy[..] == batch;
      if ok {
        HeapSort.SortHeap(copy, order, base, elementSize);
      }
    }

    method MergeIntoBlock(copy: array<Elem>, granted: bool)
      requires Shaped() && length > 0 && copy != block
      modifies this`block, this`length
      ensures Shaped() && (block == old(block) || fresh(block)) && startOffset == old(startOffset)
      ensures !granted ==> block == old(block) && length == old(length) && Contents() == old(Contents())
      ensures granted ==> Contents() == Merged(order, old(Contents()), copy[..]) && ExactFit()
    {
      Reallocate(copy.Length, granted);
      if granted {
        MergeInPlace(block, startOffset, length, copy, order);
        length := length + copy.Length;
      }
    }

    /** Sorts a copy of `batch` and merges it in. A batch that is in memory is addressable. */
    method MergeBatch(batch: seq<Elem>, lasts: bool) returns (failed: bool)
      requires Valid() && |batch| >= 2
      modifies Repr
      ensures Valid() && fresh(Repr - old(Repr))
      ensures lasts && HeapSort.Addressable(|batch|, elementSize) ==> !failed
      ensures failed ==> contents == old(contents)
      ensures !failed ==> MergedWith(old(contents), batch, contents)
      ensures startOffset == old(startOffset)
      ensures old(ExactFit()) ==> ExactFit()
    {
      var ok, copy := SortedCopy(batch, lasts);
      if !ok {
        return true;
      }
      MergedEffect(contents, batch, copy[..]);
      failed := MergeHere(copy, lasts);
    }

    /** Merges a sorted copy that the order allows. */
    method MergeHere(copy: array<Elem>, lasts: bool) returns (failed: bool)
      requires Valid() && copy !in Repr && copy.Length > 0 && Sorted(order, Merged(order, contents, copy[..]))
      modifies Repr
      ensures Valid() && fresh(Repr - old(Repr) - {copy})
      ensures lasts ==> !failed
      ensures contents == if failed then old(contents) else old(Merged(order, contents, copy[..]))
      ensures startOffset == old(startOffset)
      ensures old(ExactFit()) ==> ExactFit()
    {
      ghost var before, after := contents, Merged(order, contents, copy[..]);
      if block == null {
        Adopt(copy);
        failed := false;
      } else {
        var granted := AllocateWhile(lasts);
        MergeIntoBlock(copy, granted);
        failed := !granted;
      }
      Update(if failed then before else after);
    }

    /** The block is the copy itself. */
    method Adopt(copy: array<Elem>)
      requires Shaped() && block == null && copy.Length > 0
      modifies this`block, this`length
      ensures Shaped() && block == copy && startOffset == 0 && ExactFit()
      ensures Contents() == Merged(order, old(Contents()), copy[..])
    {
      block, length := copy, copy.Length;
      assert Contents() == copy[..];
    }

    lemma MergedEffect(before: seq<Elem>, batch: seq<Elem>, sorted: seq<Elem>)
      requires Sorted(order, before) && Sorted(order, sorted) && multiset(sorted) == multiset(batch)
      ensures Sorted(order, Merged(order, before, sorted))
      ensures MergedWith(before, batch, Merged(order, before, sorted))
    {
      MergedSorted(order, before, sorted);
    }

    /** `after` is the stable merge of `before` with some sorted arrangement of `batch`. */
    ghost predicate MergedWith(before: seq<Elem>, batch: seq<Elem>, after: seq<Elem>) {
      exists b :: Sorted(order, b) && multiset(b) == multiset(batch) && after == Merged(order, before, b)
    }

    lemma MergedWithMultiset(before: seq<Elem>, batch: seq<Elem>, after: seq<Elem>)
      requires MergedWith(before, batch, after)
      ensures multiset(after) == multiset(before) + multiset(batch)
    {
      var b :| Sorted(order, b) && multiset(b) == multiset(batch) && after == Merged(order, before, b);
      MergedMultiset(order, before, b);
    }

    // Removing ----------------------------------------------------------------------

    method RemoveAtFront(index: nat)
      requires Shaped() && index < length && length > 1
      modifies this`block, this`length, this`startOffset, block
      ensures Shaped() && block == old(block) && startOffset == old(startOffset) + 1
      ensures Contents() == RemoveAt(old(Contents()), index)
      ensures old(ExactFit()) ==> ExactFit()
    {
      CloseSlotInFront(block, startOffset, length, index);
      length := length - 1;
      startOffset := startOffset + 1;
    }

    /** Gives the place behind the last element back, and the whole block with the last element. */
    method Trim(granted: bool)
      requires block != null && startOffset + length <= block.Length && elementSize > 0
      modifies this`block, this`startOffset
      ensures Shaped() && (block == null || block == old(block) || fresh(block))
      ensures startOffset == if length == 0 then 0 else old(startOffset)
      ensures Contents() == old(block[startOffset..startOffset + length])
      ensures if granted || length == 0 then ExactFit() else block == old(block)
    {
      if length == 0 {
        block, startOffset := null, 0;
      } else {
        Reallocate(0, granted);
      }
    }

    method RemoveAtBack(index: nat, granted: bool)
      requires Shaped() && index < length
      modifies this`block, this`length, this`startOffset, block
      ensures Shaped() && (block == null || block == old(block) || fresh(block))
      ensures startOffset == if old(length) == 1 then 0 else old(startOffset)
      ensures Contents() == RemoveAt(old(Contents()), index)
      ensures if granted || old(length) == 1 then ExactFit() else block == old(block)
    {
      CloseSlotBehind(block, startOffset, length, index);
      length := length - 1;
      Trim(granted);
    }

    /** Removing the element at `index` leaves a place behind the others to give back. */
    ghost predicate NeedsTrim(index: nat)
      reads this
    {
      length > 1 && !(index < length / 2 && length > OFFSET_THRESHOLD)
    }

    /** Whether the block fits exactly after removing the element at `index`. */
    ghost predicate FitsAfterRemove(index: nat, granted: bool)
      reads this
    {
      granted || !NeedsTrim(index)
    }

    /** `granted` is the answer to the shrinking realloc. */
    method RemoveRaw(index: nat, granted: bool)
      requires Valid() && index < length
      modifies Repr
      ensures Valid() && fresh(Repr - old(Repr))
      ensures contents == RemoveAt(old(contents), index)
      ensures startOffset == if index < old(length) / 2 && old(length) > 128 then old(startOffset) + 1
                             else if old(length) == 1 then 0 else old(startOffset)
      ensures old(ExactFit()) ==> (ExactFit() <==> old(FitsAfterRemove(index, granted)))
      ensures granted && old(NeedsTrim(index)) ==> ExactFit()
    {
      ghost var after := RemoveAt(contents, index);
      SortedRemove(order, contents, index);
      if index < length / 2 && length > OFFSET_THRESHOLD {
        RemoveAtFront(index);
      } else {
        RemoveAtBack(index, granted);
      }
      Update(after);
    }

    method Erase(index: nat, granted: bool) returns (failed: bool)
      requires Valid()
      modifies Repr
      ensures Valid() && fresh(Repr - old(Repr))
      ensures failed <==> index >= |old(contents)|
      ensures contents == if failed then old(contents) else RemoveAt(old(contents), index)
      ensures old(ExactFit()) ==> (ExactFit() <==> failed || old(FitsAfterRemove(index, granted)))
      ensures granted && !failed && old(NeedsTrim(index)) ==> ExactFit()
    {
      if index >= length {
        return true;
      }
      RemoveRaw(index, granted);
      return false;
    }

    /** Removes one element with the value's key, if there is one. */
    method Delete(value: Elem, granted: bool) returns (found: bool, index: nat)
      requires Valid()
      modifies Repr
      ensures Valid() && fresh(Repr - old(Repr))
      ensures found <==> exists e :: e in old(contents) && e.key == value.key
      ensures found ==> index < |old(contents)| && old(contents)[index].key == value.key
      ensures contents == if found then RemoveAt(old(contents), index) else old(contents)
      ensures old(ExactFit()) ==> (ExactFit() <==> !found || old(FitsAfterRemove(index, granted)))
      ensures granted && found && old(NeedsTrim(index)) ==> ExactFit()
    {
      ghost var before := Contents();
      index, found := FindSlot(order, Contents(), value);
      if found {
        assert before[index] in before;
        RemoveRaw(index, granted);
      }
    }

    method Get(index: nat) returns (failed: bool, value: Elem)
      requires Valid()
      ensures failed <==> index >= |contents|
      ensures !failed ==> value == contents[index]
    {
      if index >= length {
        return true, Elem(0, []);
      }
      return false, block[startOffset + index];
    }

    /** No key in `s` is greater, or less when the order is reversed. */
    ghost predicate Outermost(value: Elem, s: seq<Elem>) {
      forall e :: e in s ==> if order.reversed then value.key <= e.key else e.key <= value.key
    }

    lemma PopEffect(before: seq<Elem>, value: Elem, after: seq<Elem>)
      requires Sorted(order, before) && before != [] && value == before[|before| - 1]
      requires after == RemoveAt(before, |before| - 1)
      ensures before == after + [value] && Outermost(value, after)
    {
      RemoveLast(before);
      SortedByKeys(order, before);
    }

    /** Takes the last element out. */
    method Pop(granted: bool) returns (failed: bool, value: Elem)
      requires Valid()
      modifies Repr
      ensures Valid() && fresh(Repr - old(Repr))
      ensures failed <==> old(contents) == []
      ensures failed ==> contents == []
      ensures !failed ==> old(contents) == contents + [value] && Outermost(value, contents)
      ensures old(ExactFit()) ==> (ExactFit() <==> granted || |old(contents)| <= 1)
      ensures granted && |old(contents)| > 1 ==> ExactFit()
    {
      if length == 0 {
        return true, Elem(0, []);
      }
      ghost var before := contents;
      var lastIndex := length - 1;
      failed, value := Get(lastIndex);
      failed := Erase(lastIndex, granted);
      PopEffect(before, value, contents);
    }

    method Clear()
      requires Valid()
      modifies Repr
      ensures Valid() && contents == [] && ExactFit() && block == null
    {
      block, length, startOffset := null, 0, 0;
      Update([]);
    }

    /** Closes the gap in front. */
    method Compact(granted: bool)
      requires Valid()
      modifies Repr
      ensures Valid() && fresh(Repr - old(Repr))
      ensures contents == old(contents) && startOffset == 0
      ensures old(ExactFit()) ==> (ExactFit() <==> granted || old(startOffset) == 0)
      ensures granted && old(startOffset) > 0 ==> ExactFit()
    {
      if startOffset > 0 {
        ghost var before := contents;
        Memmove(block, 0, startOffset, length);
        startOffset := 0;
        assert Contents() == before;
        Reallocate(0, granted);
        Update(before);
      }
    }
  }

  /** A refused realloc in an erase leaves one element in a block of two. */
  method FitLost(a: Elem, b: Elem) returns (sa: SortedArray)
    ensures sa.Valid() && |sa.contents| == 1 && !sa.ExactFit()
  {
    sa := new SortedArray(Order(false), 1);
    var _, _ := sa.Insert(a, true);
    var _, _ := sa.Insert(b, true);
    var _ := sa.Erase(0, false);
  }
}

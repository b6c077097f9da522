/** What the backward merge of src/structures/SortedArray.c computes. */
module Merge {
  import opened DataType

  /** Takes the greater last element each time, the destination's when neither is greater. */
  function Merged(o: Order, d: seq<Elem>, s: seq<Elem>): seq<Elem>
    decreases |d| + |s|
  {
    if s == [] then d
    else if d == [] then s
    else if o.Less(d[|d| - 1], s[|s| - 1]) then Merged(o, d, s[..|s| - 1]) + [s[|s| - 1]]
    else Merged(o, d[..|d| - 1], s) + [d[|d| - 1]]
  }

  /** The elements of rank `k`, in order. */
  function OfRank(o: Order, s: seq<Elem>, k: int): seq<Elem> {
    if s == [] then []
    else if o.Rank(s[|s| - 1]) == k then OfRank(o, s[..|s| - 1], k) + [s[|s| - 1]]
    else OfRank(o, s[..|s| - 1], k)
  }

  lemma {:induction false} MergedLength(o: Order, d: seq<Elem>, s: seq<Elem>)
    ensures |Merged(o, d, s)| == |d| + |s|
    decreases |d| + |s|
  {
    if s != [] && d != [] {
      if o.Less(d[|d| - 1], s[|s| - 1]) {
        MergedLength(o, d, s[..|s| - 1]);
      } else {
        MergedLength(o, d[..|d| - 1], s);
      }
    }
  }

  lemma {:induction false} MergedMultiset(o: Order, d: seq<Elem>, s: seq<Elem>)
    ensures multiset(Merged(o, d, s)) == multiset(d) + multiset(s)
    decreases |d| + |s|
  {
    if s != [] && d != [] {
      assert d == d[..|d| - 1] + [d[|d| - 1]];
      assert s == s[..|s| - 1] + [s[|s| - 1]];
      if o.Less(d[|d| - 1], s[|s| - 1]) {
        MergedMultiset(o, d, s[..|s| - 1]);
      } else {
        MergedMultiset(o, d[..|d| - 1], s);
      }
    }
  }

  lemma MergedMember(o: Order, d: seq<Elem>, s: seq<Elem>, e: Elem)
    ensures e in Merged(o, d, s) <==> e in d || e in s
  {
    MergedMultiset(o, d, s);
    assert e in Merged(o, d, s) <==> e in multiset(Merged(o, d, s));
    assert e in d <==> e in multiset(d);
    assert e in s <==> e in multiset(s);
  }

  lemma SortedAppend(o: Order, s: seq<Elem>, e: Elem)
    requires Sorted(o, s) && forall x :: x in s ==> o.Rank(x) <= o.Rank(e)
    ensures Sorted(o, s + [e])
  {
  }

  lemma {:induction false} MergedSorted(o: Order, d: seq<Elem>, s: seq<Elem>)
    requires Sorted(o, d) && Sorted(o, s)
    ensures Sorted(o, Merged(o, d, s))
    decreases |d| + |s|
  {
    if s != [] && d != [] {
      var front, last := Merged(o, d[..|d| - 1], s), d[|d| - 1];
      if o.Less(d[|d| - 1], s[|s| - 1]) {
        MergedSorted(o, d, s[..|s| - 1]);
        front, last := Merged(o, d, s[..|s| - 1]), s[|s| - 1];
        forall x | x in front
          ensures o.Rank(x) <= o.Rank(last)
        {
          MergedMember(o, d, s[..|s| - 1], x);
        }
      } else {
        MergedSorted(o, d[..|d| - 1], s);
        forall x | x in front
          ensures o.Rank(x) <= o.Rank(last)
        {
          MergedMember(o, d[..|d| - 1], s, x);
        }
      }
      SortedAppend(o, front, last);
    }
  }

  lemma {:induction false} NoneOfRank(o: Order, s: seq<Elem>, k: int)
    requires forall i :: 0 <= i < |s| ==> o.Rank(s[i]) != k
    ensures OfRank(o, s, k) == []
  {
    if s != [] {
      NoneOfRank(o, s[..|s| - 1], k);
    }
  }

  lemma {:induction false} OfRankConcat(o: Order, a: seq<Elem>, b: seq<Elem>, k: int)
    ensures OfRank(o, a + b, k) == OfRank(o, a, k) + OfRank(o, b, k)
    decreases |b|
  {
    if b == [] {
      assert a + b == a;
    } else {
      assert (a + b)[..|a + b| - 1] == a + b[..|b| - 1];
      OfRankConcat(o, a, b[..|b| - 1], k);
    }
  }

  lemma OfRankAppend(o: Order, s: seq<Elem>, e: Elem, k: int)
    ensures OfRank(o, s + [e], k) == if o.Rank(e) == k then OfRank(o, s, k) + [e] else OfRank(o, s, k)
  {
    assert (s + [e])[..|s|] == s;
  }

  /** Elements of equal key come out with the source's before the destination's, each side in its
      own order. With MergedSorted this leaves exactly one possible result (SortedUnique). */
  lemma {:induction false} MergedStable(o: Order, d: seq<Elem>, s: seq<Elem>, k: int)
    requires Sorted(o, d) && Sorted(o, s)
    ensures OfRank(o, Merged(o, d, s), k) == OfRank(o, s, k) + OfRank(o, d, k)
    decreases |d| + |s|
  {
    if s != [] && d != [] {
      var x, y := d[|d| - 1], s[|s| - 1];
      if o.Less(x, y) {
        MergedStable(o, d, s[..|s| - 1], k);
        assert s == s[..|s| - 1] + [y];
        StableSource(o, d, s[..|s| - 1], y, k);
      } else {
        MergedStable(o, d[..|d| - 1], s, k);
        OfRankAppend(o, Merged(o, d[..|d| - 1], s), x, k);
      }
    }
  }

  lemma StableSource(o: Order, d: seq<Elem>, s: seq<Elem>, y: Elem, k: int)
    requires OfRank(o, Merged(o, d, s), k) == OfRank(o, s, k) + OfRank(o, d, k)
    requires forall i :: 0 <= i < |d| ==> o.Rank(d[i]) < o.Rank(y)
    ensures OfRank(o, Merged(o, d, s) + [y], k) == OfRank(o, s + [y], k) + OfRank(o, d, k)
  {
    OfRankAppend(o, Merged(o, d, s), y, k);
    OfRankAppend(o, s, y, k);
    if o.Rank(y) == k {
      NoneOfRank(o, d, k);
      var front := OfRank(o, s, k);
      assert front + [] == front && (front + [y]) + [] == front + [y];
    }
  }

  /** A sorted sequence is determined by its elements of each rank. */
  lemma {:induction false} SortedUnique(o: Order, a: seq<Elem>, b: seq<Elem>)
    requires Sorted(o, a) && Sorted(o, b)
    requires forall k :: OfRank(o, a, k) == OfRank(o, b, k)
    ensures a == b
    decreases |a| + |b|
  {
    if a == [] {
      NoRanksIsEmpty(o, a, b);
    } else if b == [] {
      NoRanksIsEmpty(o, b, a);
    } else {
      var x, y := a[|a| - 1], b[|b| - 1];
      var a', b' := a[..|a| - 1], b[..|b| - 1];
      LastRankAtMost(o, a, b);
      LastRankAtMost(o, b, a);
      var r := o.Rank(x);
      assert OfRank(o, a', r) + [x] == OfRank(o, a, r) == OfRank(o, b, r) == OfRank(o, b', r) + [y];
      assert x == (OfRank(o, a', r) + [x])[|OfRank(o, a, r)| - 1] == y;
      forall k
        ensures OfRank(o, a', k) == OfRank(o, b', k)
      {
        assert OfRank(o, a, k) == OfRank(o, b, k);
        if r == k {
          assert OfRank(o, a', k) == OfRank(o, a, k)[..|OfRank(o, a, k)| - 1];
        }
      }
      SortedUnique(o, a', b');
      assert a == a' + [x] && b == b' + [y];
    }
  }

  lemma NoRanksIsEmpty(o: Order, a: seq<Elem>, b: seq<Elem>)
    requires a == [] && forall k :: OfRank(o, a, k) == OfRank(o, b, k)
    ensures b == []
  {
    var k := if b == [] then 0 else o.Rank(b[|b| - 1]);
    assert OfRank(o, a, k) == OfRank(o, b, k);
  }

  lemma LastRankAtMost(o: Order, a: seq<Elem>, b: seq<Elem>)
    requires a != [] && b != [] && Sorted(o, b)
    requires forall k :: OfRank(o, a, k) == OfRank(o, b, k)
    ensures o.Rank(a[|a| - 1]) <= o.Rank(b[|b| - 1])
  {
    var k := o.Rank(a[|a| - 1]);
    assert OfRank(o, a, k) == OfRank(o, b, k);
    if k > o.Rank(b[|b| - 1]) {
      NoneOfRank(o, b, k);
    }
  }

  /** The block `b` while merging: destination elements up to `d` and source elements up to `s`
      are still to come, and everything behind them is already in its final place. */
  ghost predicate Merging(o: Order, b: seq<Elem>, offset: nat, d0: seq<Elem>, s0: seq<Elem>,
                          d: int, s: int, tail: seq<Elem>) {
    && -1 <= d < |d0| && -1 <= s < |s0|
    && |tail| == |d0| + |s0| - (d + 1) - (s + 1)
    && offset + |d0| + |s0| <= |b|
    && (forall k :: offset <= k <= offset + d ==> b[k] == d0[k - offset])
    && b[offset + d + s + 2..offset + |d0| + |s0|] == tail
    && Merged(o, d0, s0) == Merged(o, d0[..d + 1], s0[..s + 1]) + tail
  }

  lemma MergingTakes(o: Order, b: seq<Elem>, offset: nat, d0: seq<Elem>, s0: seq<Elem>, d: int, s: int, tail: seq<Elem>)
    requires Merging(o, b, offset, d0, s0, d, s, tail) && d >= 0 && s >= 0
    ensures b[offset + d] == d0[d]
    ensures if o.Less(d0[d], s0[s])
            then Merging(o, b[offset + d + s + 1 := s0[s]], offset, d0, s0, d, s - 1, [s0[s]] + tail)
            else Merging(o, b[offset + d + s + 1 := d0[d]], offset, d0, s0, d - 1, s, [d0[d]] + tail)
  {
    var x := if o.Less(d0[d], s0[s]) then s0[s] else d0[d];
    assert d0[..d + 1][..d] == d0[..d] && s0[..s + 1][..s] == s0[..s];
    var b' := b[offset + d + s + 1 := x];
    assert b'[offset + d + s + 1..offset + |d0| + |s0|] == [x] + b[offset + d + s + 2..offset + |d0| + |s0|];
    var rest := if o.Less(d0[d], s0[s]) then Merged(o, d0[..d + 1], s0[..s]) else Merged(o, d0[..d], s0[..s + 1]);
    assert (rest + [x]) + tail == rest + ([x] + tail);
  }

  /** What is left when one side has run out: nothing to do, or the source's front to copy. */
  lemma FinishMerge(o: Order, b: seq<Elem>, b': seq<Elem>, offset: nat, d0: seq<Elem>, s0: seq<Elem>,
                    d: int, s: int, tail: seq<Elem>)
    requires Merging(o, b, offset, d0, s0, d, s, tail) && (d < 0 || s < 0) && |b'| == |b|
    requires forall k :: 0 <= k < |b| ==> b'[k] == if offset <= k <= offset + s then s0[k - offset] else b[k]
    ensures b'[offset..offset + |d0| + |s0|] == Merged(o, d0, s0)
  {
    var middle := offset + d + s + 2;
    assert b'[offset..middle] == Merged(o, d0[..d + 1], s0[..s + 1]);
    assert b'[middle..offset + |d0| + |s0|] == b[middle..offset + |d0| + |s0|];
    assert b'[offset..offset + |d0| + |s0|] == b'[offset..middle] + b'[middle..offset + |d0| + |s0|];
  }

  /** One turn of the loop: moves the greater of the two cursors' elements to the free place. */
  method MergeOnce(dest: array<Elem>, offset: nat, src: array<Elem>, o: Order, d: int, s: int,
                   ghost d0: seq<Elem>, ghost tail: seq<Elem>)
    returns (d': int, s': int, ghost tail': seq<Elem>)
    requires dest != src && d >= 0 && s >= 0 && Merging(o, dest[..], offset, d0, src[..], d, s, tail)
    modifies dest
    ensures Merging(o, dest[..], offset, d0, src[..], d', s', tail')
    ensures d' + s' == d + s - 1 && d' <= d && s' <= s
  {
    ghost var b := dest[..];
    MergingTakes(o, b, offset, d0, src[..], d, s, tail);
    var final, x, y := offset + d + s + 1, dest[offset + d], src[s];
    if o.Less(x, y) {
      dest[final] := y;
      assert dest[..] == b[final := y];
      d', s', tail' := d, s - 1, [y] + tail;
    } else {
      dest[final] := x;
      assert dest[..] == b[final := x];
      d', s', tail' := d - 1, s, [x] + tail;
    }
  }

  /** The destination's rest is in place already; the source's is copied. */
  method CopyRest(dest: array<Elem>, offset: nat, src: array<Elem>, o: Order, ghost d: int, s: int,
                  ghost d0: seq<Elem>, ghost s0: seq<Elem>, ghost tail: seq<Elem>)
    requires dest != src && src[..] == s0 && (d < 0 || s < 0) && Merging(o, dest[..], offset, d0, s0, d, s, tail)
    modifies dest
    ensures dest[offset..offset + |d0| + |s0|] == Merged(o, d0, s0)
  {
    ghost var b := dest[..];
    if s >= 0 {
      var rest := src[..s + 1];
      forall k | offset <= k <= offset + s {
        dest[k] := rest[k - offset];
      }
    }
    assert forall k :: 0 <= k < |b| ==> dest[..][k] == if offset <= k <= offset + s then s0[k - offset] else b[k];
    FinishMerge(o, b, dest[..], offset, d0, s0, d, s, tail);
  }

  /** Merges `src` into the block at `dest[offset..]`, from the back and in place. */
  method MergeInPlace(dest: array<Elem>, offset: nat, destLen: nat, src: array<Elem>, o: Order)
    requires dest != src && offset + destLen + src.Length <= dest.Length
    modifies dest
    ensures dest[offset..offset + destLen + src.Length] == old(Merged(o, dest[offset..offset + destLen], src[..]))
  {
    ghost var d0, s0, tail := dest[offset..offset + destLen], src[..], [];
    var d, s := destLen - 1, src.Length - 1;
    assert d0[..d + 1] == d0 && s0[..s + 1] == s0;
    while d >= 0 && s >= 0
      invariant src[..] == s0 && Merging(o, dest[..], offset, d0, s0, d, s, tail)
      decreases d + s
    {
      d, s, tail := MergeOnce(dest, offset, src, o, d, s, d0, tail);
    }
    CopyRest(dest, offset, src, o, d, s, d0, s0, tail);
  }
}

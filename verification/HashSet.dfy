/** The resizable hash table of src/structures/HashSet.c. */
module HashSet {
  import opened DataType
  import opened BinarySearch

  const INITIAL_SIZE: nat := 256
  const SHRINK_RATIO: real := 0.5
  const EXPAND_RATIO: real := 1.0
  const RESIZE_FACTOR: nat := 2
  const INVALID_SIZE_T: nat := 0xFFFF_FFFF_FFFF_FFFF

  // Tables as values -----------------------------------------------------------------

  ghost predicate BucketOk(b: seq<Elem>, i: nat, n: nat, hash: int -> nat, m: map<int, Elem>)
    requires n > 0
  {
    && StrictlySorted(b)
    && forall e :: e in b ==> hash(e.key) % n == i && e.key in m && m[e.key] == e
  }

  /** The buckets `t` hold exactly the entries of `m`, each where its hash says. */
  ghost predicate TableOk(t: seq<seq<Elem>>, hash: int -> nat, m: map<int, Elem>) {
    && |t| > 0
    && (forall i :: 0 <= i < |t| ==> BucketOk(t[i], i, |t|, hash, m))
    && (forall k :: k in m ==> m[k].key == k && m[k] in t[hash(k) % |t|])
  }

  lemma FindInBucket(t: seq<seq<Elem>>, hash: int -> nat, m: map<int, Elem>, k: int, slot: nat, found: bool)
    requires TableOk(t, hash, m)
    requires var b := t[hash(k) % |t|];
             if found then slot < |b| && b[slot].key == k
             else forall i :: 0 <= i < |b| ==> b[i].key != k
    ensures found <==> k in m
    ensures found ==> m[k] == t[hash(k) % |t|][slot]
  {
    assert BucketOk(t[hash(k) % |t|], hash(k) % |t|, |t|, hash, m);
  }

  /** One bucket is exchanged, and `m` changes only at keys that belong there. */
  lemma BucketUpdate(t: seq<seq<Elem>>, hash: int -> nat, m: map<int, Elem>, at: nat, b: seq<Elem>, m': map<int, Elem>)
    requires TableOk(t, hash, m) && at < |t|
    requires BucketOk(b, at, |t|, hash, m')
    requires forall k :: k in m && hash(k) % |t| != at ==> k in m' && m'[k] == m[k]
    requires forall k :: k in m' && hash(k) % |t| != at ==> k in m
    requires forall k :: k in m' && hash(k) % |t| == at ==> m'[k].key == k && m'[k] in b
    ensures TableOk(t[at := b], hash, m')
  {
    forall i | 0 <= i < |t| && i != at
      ensures BucketOk(t[i], i, |t|, hash, m')
    {
      assert BucketOk(t[i], i, |t|, hash, m);
    }
  }

  lemma InsertElements(b: seq<Elem>, e: Elem, slot: nat)
    requires StrictlySorted(b) && slot <= |b|
    requires forall j :: 0 <= j < slot ==> b[j].key < e.key
    requires forall j :: slot <= j < |b| ==> e.key < b[j].key
    ensures StrictlySorted(InsertAt(b, slot, e))
    ensures forall x :: x in InsertAt(b, slot, e) <==> x in b || x == e
  {
    assert b == b[..slot] + b[slot..];
  }

  lemma InsertKeepsTable(t: seq<seq<Elem>>, hash: int -> nat, m: map<int, Elem>, e: Elem, slot: nat)
    requires TableOk(t, hash, m) && e.key !in m && slot <= |t[hash(e.key) % |t|]|
    requires forall i :: 0 <= i < slot ==> t[hash(e.key) % |t|][i].key < e.key
    requires forall i :: slot <= i < |t[hash(e.key) % |t|]| ==> e.key < t[hash(e.key) % |t|][i].key
    ensures TableOk(t[hash(e.key) % |t| := InsertAt(t[hash(e.key) % |t|], slot, e)], hash, m[e.key := e])
  {
    var at := hash(e.key) % |t|;
    assert BucketOk(t[at], at, |t|, hash, m);
    InsertElements(t[at], e, slot);
    BucketUpdate(t, hash, m, at, InsertAt(t[at], slot, e), m[e.key := e]);
  }

  lemma ReplaceElements(b: seq<Elem>, e: Elem, slot: nat)
    requires StrictlySorted(b) && slot < |b| && b[slot].key == e.key
    ensures StrictlySorted(b[slot := e])
    ensures forall x :: x in b[slot := e] <==> x == e || (x in b && x.key != e.key)
  {
    assert b[slot := e][slot] == e;
    forall x | x in b && x.key != e.key
      ensures x in b[slot := e]
    {
      var j :| 0 <= j < |b| && b[j] == x;
      assert b[slot := e][j] == x;
    }
  }

  lemma ReplaceKeepsTable(t: seq<seq<Elem>>, hash: int -> nat, m: map<int, Elem>, e: Elem, slot: nat)
    requires TableOk(t, hash, m)
    requires slot < |t[hash(e.key) % |t|]| && t[hash(e.key) % |t|][slot].key == e.key
    ensures TableOk(t[hash(e.key) % |t| := t[hash(e.key) % |t|][slot := e]], hash, m[e.key := e])
  {
    var at := hash(e.key) % |t|;
    assert BucketOk(t[at], at, |t|, hash, m);
    ReplaceElements(t[at], e, slot);
    BucketUpdate(t, hash, m, at, t[at][slot := e], m[e.key := e]);
  }

  lemma RemoveElements(b: seq<Elem>, slot: nat)
    requires StrictlySorted(b) && slot < |b|
    ensures StrictlySorted(RemoveAt(b, slot))
    ensures forall x :: x in RemoveAt(b, slot) <==> x in b && x.key != b[slot].key
  {
    assert b == b[..slot] + [b[slot]] + b[slot + 1..];
  }

  lemma RemoveFromBucket(b: seq<Elem>, at: nat, n: nat, hash: int -> nat, m: map<int, Elem>, slot: nat)
    requires n > 0 && BucketOk(b, at, n, hash, m) && slot < |b|
    ensures BucketOk(RemoveAt(b, slot), at, n, hash, m - {b[slot].key})
  {
    RemoveElements(b, slot);
  }

  lemma RemoveKeepsTable(t: seq<seq<Elem>>, hash: int -> nat, m: map<int, Elem>, key: int, slot: nat)
    requires TableOk(t, hash, m)
    requires slot < |t[hash(key) % |t|]| && t[hash(key) % |t|][slot].key == key
    ensures TableOk(t[hash(key) % |t| := RemoveAt(t[hash(key) % |t|], slot)], hash, m - {key})
  {
    var at, m' := hash(key) % |t|, m - {key};
    var b := RemoveAt(t[at], slot);
    RemoveFromBucket(t[at], at, |t|, hash, m, slot);
    forall k | k in m' && hash(k) % |t| == at
      ensures m'[k].key == k && m'[k] in b
    {
      RemoveElements(t[at], slot);
    }
    BucketUpdate(t, hash, m, at, b, m');
  }

  // Relocation -----------------------------------------------------------------------

  /** `done` is the part of `m` in the buckets before `i` and the first `j` entries of bucket `i`. */
  ghost predicate Moved(t: seq<seq<Elem>>, i: nat, j: nat, m: map<int, Elem>, done: map<int, Elem>) {
    && i <= |t|
    && (i < |t| ==> j <= |t[i]|)
    && (i == |t| ==> j == 0)
    && (forall k :: k in done ==> k in m && done[k] == m[k])
    && (forall a, b :: 0 <= a < |t| && 0 <= b < |t[a]| ==>
          (t[a][b].key in done <==> a < i || (a == i && b < j)))
  }

  lemma MovedOne(t: seq<seq<Elem>>, hash: int -> nat, i: nat, j: nat, m: map<int, Elem>, done: map<int, Elem>)
    requires TableOk(t, hash, m) && Moved(t, i, j, m, done)
    requires i < |t| && j < |t[i]|
    ensures t[i][j].key !in done
    ensures Moved(t, i, j + 1, m, done[t[i][j].key := t[i][j]])
  {
    var e := t[i][j];
    assert BucketOk(t[i], i, |t|, hash, m);
    forall a, b | 0 <= a < |t| && 0 <= b < |t[a]|
      ensures t[a][b].key == e.key ==> a == i && b == j
    {
      assert BucketOk(t[a], a, |t|, hash, m);
    }
  }

  lemma MovedBucket(t: seq<seq<Elem>>, i: nat, m: map<int, Elem>, done: map<int, Elem>)
    requires i < |t| && Moved(t, i, |t[i]|, m, done)
    ensures Moved(t, i + 1, 0, m, done)
  {
  }

  lemma MovedAll(t: seq<seq<Elem>>, hash: int -> nat, m: map<int, Elem>, done: map<int, Elem>)
    requires TableOk(t, hash, m) && Moved(t, |t|, 0, m, done)
    ensures done == m
  {
    forall k | k in m
      ensures k in done
    {
      var a := hash(k) % |t|;
      var b :| 0 <= b < |t[a]| && t[a][b] == m[k];
      assert t[a][b].key in done;
    }
    forall k | k in done
      ensures k in m && done[k] == m[k]
    {
    }
    assert done.Keys == m.Keys;
  }

  /** Finds where `e` belongs in its bucket and inserts it there, if memory allows. */
  method InsertNew(table: array<seq<Elem>>, hash: int -> nat, e: Elem, granted: bool, ghost m: map<int, Elem>)
    requires table.Length > 0 && TableOk(table[..], hash, m) && e.key !in m
    modifies table
    ensures granted ==> TableOk(table[..], hash, m[e.key := e])
    ensures !granted ==> table[..] == old(table[..])
  {
    var index := hash(e.key) % table.Length;
    assert BucketOk(table[..][index], index, |table[..]|, hash, m);
    var slot, found := FindSlot(Order(false), table[index], e);
    FindInBucket(table[..], hash, m, e.key, slot, found);
    if granted {
      InsertKeepsTable(table[..], hash, m, e, slot);
      ghost var t := table[..];
      table[index] := InsertAt(table[index], slot, e);
      assert table[..] == t[index := InsertAt(t[index], slot, e)];
    }
  }

  /** Copies every element of `from` into `into`; on failure `from` still holds everything. */
  method Relocate(from: array<seq<Elem>>, into: array<seq<Elem>>, hash: int -> nat, lasts: bool,
                  ghost m: map<int, Elem>)
    returns (ok: bool)
    requires from != into && into.Length > 0
    requires TableOk(from[..], hash, m)
    requires forall i :: 0 <= i < into.Length ==> into[i] == []
    modifies into
    ensures ok ==> TableOk(into[..], hash, m)
    ensures lasts ==> ok
  {
    ghost var t := from[..];
    ghost var done: map<int, Elem> := map[];
    for i := 0 to from.Length
      invariant from[..] == t && Moved(t, i, 0, m, done) && TableOk(into[..], hash, done)
    {
      var count := |from[i]|;
      for j := 0 to count
        invariant from[..] == t && Moved(t, i, j, m, done) && TableOk(into[..], hash, done)
      {
        var e := from[i][j];
        MovedOne(t, hash, i, j, m, done);
        var granted := AllocateWhile(lasts);
        InsertNew(into, hash, e, granted, done);
        if !granted {
          return false;
        }
        done := done[e.key := e];
      }
      MovedBucket(t, i, m, done);
    }
    MovedAll(t, hash, m, done);
    return true;
  }

  // Bucket counts ----------------------------------------------------------------------

  /** The bucket counts of a table with `minSize` buckets at first. */
  function BucketCount(minSize: nat, level: nat): (n: nat)
    ensures minSize > 0 ==> n > 0
  {
    minSize * Pow2(level)
  }

  function Ratio(length: nat, size: nat): real
    requires size > 0
  {
    length as real / size as real
  }

  predicate WantsExpand(length: nat, size: nat, expand: real)
    requires size > 0
  {
    expand != 0.0 && Ratio(length, size) > expand
  }

  /** The code compares with `expand`, not with `shrink`. */
  predicate WantsShrink(length: nat, size: nat, minSize: nat, shrink: real, expand: real)
    requires size > 0
  {
    shrink != 0.0 && size > minSize && Ratio(length, size) < expand
  }

  /** Both thresholds in terms of the number of elements. */
  lemma ThresholdsByCount(length: nat, size: nat, minSize: nat, shrink: real, expand: real)
    requires size > 0
    ensures WantsExpand(length, size, expand) <==> expand != 0.0 && length as real > expand * size as real
    ensures WantsShrink(length, size, minSize, shrink, expand)
       <==> shrink != 0.0 && size > minSize && length as real < expand * size as real
  {
    var q := Ratio(length, size);
    assert q * size as real == length as real;
    if q > expand {
      ProductGrowsReal(expand, q, size as real);
    } else if q < expand {
      ProductGrowsReal(q, expand, size as real);
    }
  }

  lemma ProductGrowsReal(x: real, y: real, c: real)
    requires x < y && c > 0.0
    ensures x * c < y * c
  {
  }

  /** The documentation of hashset_create: buckets are reduced when the ratio drops below `shrink`. */
  predicate DocumentedShrink(length: nat, size: nat, minSize: nat, shrink: real)
    requires size > 0
  {
    shrink != 0.0 && size > minSize && Ratio(length, size) < shrink
  }

  lemma RatioTimes(length: nat, size: nat, c: real)
    requires size > 0
    ensures Ratio(length, size) < c <==> length as real < c * size as real
    ensures Ratio(length, size) > c <==> length as real > c * size as real
  {
    var n := size as real;
    var r := Ratio(length, size);
    assert r * n == length as real;
    assert (c - r) * n == c * n - r * n;
    if r < c {
      assert (c - r) * n > 0.0;
    } else if r > c {
      assert (r - c) * n > 0.0;
    }
  }

  lemma RatioCompares(length: nat, size: nat)
    requires size > 0
    ensures Ratio(length, size) > 1.0 <==> length > size
    ensures Ratio(length, size) < 1.0 <==> length < size
    ensures Ratio(length, size) < 0.5 <==> 2 * length < size
  {
    RatioTimes(length, size, 1.0);
    RatioTimes(length, size, 0.5);
  }

  /** With the default ratios the table of an expand is given back at the next successful remove
      exactly when it was less than doubly loaded before; the documented threshold would keep it. */
  lemma ShrinkUndoesExpand(length: nat, size: nat, minSize: nat)
    requires 0 < minSize <= size && WantsExpand(length, size, EXPAND_RATIO)
    ensures WantsShrink(length, RESIZE_FACTOR * size, minSize, SHRINK_RATIO, EXPAND_RATIO)
       <==> length < 2 * size
    ensures !DocumentedShrink(length, RESIZE_FACTOR * size, minSize, SHRINK_RATIO)
    ensures RESIZE_FACTOR * size / RESIZE_FACTOR == size
  {
    RatioCompares(length, size);
    RatioCompares(length, RESIZE_FACTOR * size);
  }

  lemma ProductAtLeast(x: real, y: real, c: real)
    requires x >= y && c >= 0.0
    ensures x * c >= y * c
  {
    assert (x - y) * c >= 0.0;
  }

  lemma {:induction false} PowerGrows(k: nat)
    ensures Pow2(k) >= k + 1
  {
    if k > 0 {
      PowerGrows(k - 1);
    }
  }

  lemma WholeElementApart(n: real, low: real, high: real)
    requires 0.0 <= low < high && n >= 1.0 / (high - low)
    ensures low * n >= 0.0 && low * n + 1.0 <= high * n
  {
    var gap := high - low;
    assert 1.0 / gap * gap == 1.0;
    ProductAtLeast(n, 1.0 / gap, gap);
    assert n * gap == high * n - low * n;
    ProductAtLeast(n, 0.0, low);
  }

  /** A bucket count on which two ratios are a whole element apart. */
  lemma WideEnough(minSize: nat, low: real, high: real) returns (level: nat)
    requires minSize > 0 && 0.0 <= low < high
    ensures var n := BucketCount(minSize, level) as real; level > 0 && low * n >= 0.0 && low * n + 1.0 <= high * n
  {
    var r := 1.0 / (high - low);
    level := r.Floor + 1;
    PowerGrows(level);
    CountAtLeastPower(minSize, level);
    WholeElementApart(BucketCount(minSize, level) as real, low, high);
  }

  lemma CountAtLeastPower(minSize: nat, level: nat)
    requires minSize > 0
    ensures BucketCount(minSize, level) >= Pow2(level)
  {
    assert minSize * Pow2(level) == (minSize - 1) * Pow2(level) + Pow2(level);
  }

  lemma LeastFrom(x: real) returns (length: nat)
    requires x >= 0.0
    ensures x <= length as real < x + 1.0
  {
    length := if x.Floor as real == x then x.Floor else x.Floor + 1;
  }

  /** A load of a grown table at which two different thresholds disagree. */
  lemma ThresholdsDisagree(minSize: nat, low: real, high: real) returns (length: nat, level: nat)
    requires minSize > 0 && 0.0 <= low < high
    ensures level > 0 && minSize * Pow2(level) > minSize
    ensures !(Ratio(length, minSize * Pow2(level)) < low) && Ratio(length, minSize * Pow2(level)) < high
  {
    level := WideEnough(minSize, low, high);
    var size := minSize * Pow2(level);
    length := LeastFrom(low * size as real);
    assert size == 2 * (minSize * Pow2(level - 1));
    RatioTimes(length, size, low);
    RatioTimes(length, size, high);
  }

  /** What a table's future resizing depends on: its size is BucketCount(minSize, level). */
  datatype Load = Load(length: nat, level: nat)

  /** One call of hashset_add or hashset_remove, whichever of its allocations fail. */
  ghost predicate LoadStep(minSize: nat, shrink: real, expand: real, l: Load, l': Load)
    requires minSize > 0
  {
    || l' == l
    || (l'.length == l.length + 1 && l'.level == l.level)
    || (l.length <= l'.length <= l.length + 1 && l'.level == l.level + 1
        && WantsExpand(l.length, BucketCount(minSize, l.level), expand))
    || (l'.length == l.length - 1 && l'.level == l.level)
    || (l'.length == l.length - 1 && l'.level == l.level - 1
        && WantsShrink(l'.length, BucketCount(minSize, l.level), minSize, shrink, expand))
  }

  ghost predicate LoadAfter(minSize: nat, shrink: real, expand: real, l: Load, calls: nat)
    requires minSize > 0
    decreases calls
  {
    if calls == 0 then l == Load(0, 0)
    else exists previous ::
           LoadAfter(minSize, shrink, expand, previous, calls - 1) && LoadStep(minSize, shrink, expand, previous, l)
  }

  ghost predicate LoadReached(minSize: nat, shrink: real, expand: real, l: Load)
    requires minSize > 0
  {
    exists calls: nat :: LoadAfter(minSize, shrink, expand, l, calls)
  }

  lemma LoadGoesOn(minSize: nat, shrink: real, expand: real, l: Load, l': Load)
    requires minSize > 0 && LoadReached(minSize, shrink, expand, l) && LoadStep(minSize, shrink, expand, l, l')
    ensures LoadReached(minSize, shrink, expand, l')
  {
    var calls: nat :| LoadAfter(minSize, shrink, expand, l, calls);
    assert LoadAfter(minSize, shrink, expand, l', calls + 1);
  }

  lemma {:induction false} LengthReached(minSize: nat, shrink: real, expand: real, l: Load, length: nat)
    requires minSize > 0 && LoadReached(minSize, shrink, expand, l)
    ensures LoadReached(minSize, shrink, expand, Load(length, l.level))
    decreases if length < l.length then l.length - length else length - l.length
  {
    if length != l.length {
      var next := Load(if length < l.length then l.length - 1 else l.length + 1, l.level);
      LoadGoesOn(minSize, shrink, expand, l, next);
      LengthReached(minSize, shrink, expand, next, length);
    }
  }

  lemma {:induction false} LevelReached(minSize: nat, shrink: real, expand: real, level: nat)
    requires minSize > 0 && expand >= 0.0 && (level == 0 || expand != 0.0)
    ensures LoadReached(minSize, shrink, expand, Load(0, level))
  {
    if level == 0 {
      assert LoadAfter(minSize, shrink, expand, Load(0, 0), 0);
    } else {
      LevelReached(minSize, shrink, expand, level - 1);
      var size := BucketCount(minSize, level - 1);
      ProductAtLeast(expand, 0.0, size as real);
      var least := LeastFrom(expand * size as real);
      var many := least + 1;
      LengthReached(minSize, shrink, expand, Load(0, level - 1), many);
      RatioTimes(many, size, expand);
      LoadGoesOn(minSize, shrink, expand, Load(many, level - 1), Load(many + 1, level));
      LengthReached(minSize, shrink, expand, Load(many + 1, level), 0);
    }
  }

  lemma {:induction false} NoLevelWithoutExpand(minSize: nat, shrink: real, l: Load, calls: nat)
    requires minSize > 0 && LoadAfter(minSize, shrink, 0.0, l, calls)
    ensures l.level == 0
    decreases calls
  {
    if calls > 0 {
      var previous :| LoadAfter(minSize, shrink, 0.0, previous, calls - 1)
                   && LoadStep(minSize, shrink, 0.0, previous, l);
      NoLevelWithoutExpand(minSize, shrink, previous, calls - 1);
    }
  }

  /** Every length comes up at every bucket count, unless expanding is disabled: then the bucket
      count never changes. */
  lemma LoadsReached(minSize: nat, shrink: real, expand: real, l: Load)
    requires minSize > 0 && expand >= 0.0
    ensures LoadReached(minSize, shrink, expand, l) <==> l.level == 0 || expand != 0.0
  {
    if l.level == 0 || expand != 0.0 {
      LevelReached(minSize, shrink, expand, l.level);
      LengthReached(minSize, shrink, expand, Load(0, l.level), l.length);
    } else if LoadReached(minSize, shrink, expand, l) {
      var calls: nat :| LoadAfter(minSize, shrink, expand, l, calls);
      NoLevelWithoutExpand(minSize, shrink, l, calls);
    }
  }

  /** When a remove takes a table away from load `l`, the code shrinks it as documented. */
  ghost predicate ShrinksAsDocumented(minSize: nat, shrink: real, expand: real, l: Load)
    requires minSize > 0 && l.length > 0
  {
    var size := BucketCount(minSize, l.level);
    WantsShrink(l.length - 1, size, minSize, shrink, expand) <==> DocumentedShrink(l.length - 1, size, minSize, shrink)
  }

  /** Shrinking follows its documentation at every load a table can reach, exactly when it is
      disabled, or expanding is, or the two ratios are the same. */
  lemma ShrinkMatchesDocumentation(minSize: nat, shrink: real, expand: real)
    requires minSize > 0 && shrink >= 0.0 && expand >= 0.0
    ensures (forall l: Load :: LoadReached(minSize, shrink, expand, l) && l.length > 0 ==>
               ShrinksAsDocumented(minSize, shrink, expand, l))
       <==> shrink == 0.0 || expand == 0.0 || shrink == expand
  {
    if shrink != 0.0 && expand != 0.0 && shrink != expand {
      var length, level := ThresholdsDisagree(minSize, if shrink < expand then shrink else expand,
                                              if shrink < expand then expand else shrink);
      var l := Load(length + 1, level);
      LoadsReached(minSize, shrink, expand, l);
      assert !ShrinksAsDocumented(minSize, shrink, expand, l);
    } else {
      forall l: Load | LoadReached(minSize, shrink, expand, l) && l.length > 0
        ensures ShrinksAsDocumented(minSize, shrink, expand, l)
      {
        LoadsReached(minSize, shrink, expand, l);
      }
    }
  }

  /** Less than two elements a bucket, or two in the only one. */
  predicate LoadBound(length: nat, size: nat) {
    length < 2 * size || (size == 1 && length == 2)
  }

  lemma AddKeepsLoad(length: nat, size: nat, size': nat)
    requires size > 0 && LoadBound(length, size)
    requires size' == if WantsExpand(length, size, EXPAND_RATIO) then size * RESIZE_FACTOR else size
    ensures LoadBound(length + 1, size')
  {
    RatioCompares(length, size);
  }

  lemma RemoveKeepsLoad(length: nat, size: nat, size': nat, minSize: nat, shrink: real)
    requires size > 0 && LoadBound(length + 1, size)
    requires size' == size
          || (WantsShrink(length, size, minSize, shrink, EXPAND_RATIO) && size == RESIZE_FACTOR * size')
    ensures LoadBound(length, size')
  {
    RatioCompares(length, size);
  }

  lemma HalfPower(minSize: nat, level: nat)
    requires minSize * Pow2(level) > minSize
    ensures level > 0 && minSize * Pow2(level) == 2 * (minSize * Pow2(level - 1))
  {
    if level > 0 {
      assert minSize * Pow2(level) == 2 * (minSize * Pow2(level - 1));
    }
  }

  /** The bucket counts of an add that expands and a remove behind it. */
  lemma CountAfterPair(length: nat, size: nat, minSize: nat, level: nat)
    requires minSize > 0 && size == BucketCount(minSize, level)
    ensures WantsExpand(length, size, EXPAND_RATIO) <==> length > size
    ensures length > size ==>
              (WantsShrink(length, size * RESIZE_FACTOR, minSize, SHRINK_RATIO, EXPAND_RATIO) <==> length < 2 * size)
    ensures size * RESIZE_FACTOR / RESIZE_FACTOR == size
  {
    CountAtLeast(minSize, level);
    RatioCompares(length, size);
    if length > size {
      ShrinkUndoesExpand(length, size, minSize);
    }
  }

  lemma DoublePower(minSize: nat, level: nat)
    ensures minSize * Pow2(level) * 2 == minSize * Pow2(level + 1)
  {
  }

  lemma CountAtLeast(minSize: nat, level: nat)
    ensures BucketCount(minSize, level) >= minSize
  {
    PowerGrows(level);
    assert minSize * Pow2(level) == minSize * (Pow2(level) - 1) + minSize;
  }

  // The object -----------------------------------------------------------------------------

  class HashSet {
    var table: array<seq<Elem>>
    var size: nat
    var length: nat
    const minSize: nat
    const shrink: real
    const expand: real
    const hash: int -> nat
    ghost var contents: map<int, Elem>
    ghost var level: nat

    ghost predicate Valid()
      reads this, table
    {
      && table.Length == size
      && length == |contents|
      && TableOk(table[..], hash, contents)
      && minSize > 0 && shrink >= 0.0 && expand >= 0.0
      && size == BucketCount(minSize, level)
      && (expand == 0.0 ==> level == 0)
    }

    ghost function Repr(): set<object>
      reads this
    {
      {this, table}
    }

    ghost predicate Loaded()
      reads this
    {
      LoadBound(length, size)
    }

    constructor (hash: int -> nat, minSize: nat, shrink: real, expand: real)
      requires minSize > 0 && shrink >= 0.0 && expand >= 0.0
      ensures Valid() && fresh(Repr()) && contents == map[] && size == minSize
      ensures this.hash == hash && this.minSize == minSize && this.shrink == shrink && this.expand == expand
    {
      this.hash, this.minSize, this.shrink, this.expand := hash, minSize, shrink, expand;
      table := new seq<Elem>[minSize](_ => []);
      size, length, contents, level := minSize, 0, map[], 0;
    }

    static method Create(hash: int -> nat, initialSize: nat, shrinkRatio: real, expandRatio: real, lasts: bool)
      returns (hs: HashSet?)
      ensures lasts ==> hs != null
      ensures hs != null ==> fresh(hs.Repr()) && hs.Valid() && hs.contents == map[] && hs.hash == hash
      ensures hs != null ==>
                && hs.minSize == (if initialSize in {0, 0xFFFF_FFFF_FFFF_FFFF} then 256 else initialSize)
                && hs.shrink == (if shrinkRatio < 0.0 then 0.5 else shrinkRatio)
                && hs.expand == (if expandRatio < 0.0 then 1.0 else expandRatio)
                && hs.size == hs.minSize
    {
      var gotObject := AllocateWhile(lasts);
      if !gotObject {
        return null;
      }
      var initial, lower, upper := initialSize, shrinkRatio, expandRatio;
      if initial == INVALID_SIZE_T || initial == 0 {
        initial := INITIAL_SIZE;
      }
      if lower < 0.0 {
        lower := SHRINK_RATIO;
      }
      if upper < 0.0 {
        upper := EXPAND_RATIO;
      }
      var gotArray := AllocateWhile(lasts);
      if !gotArray {
        return null;
      }
      hs := new HashSet(hash, initial, lower, upper);
    }

    /** The closed set of every search: default size and ratios. */
    static method CreateDefault(hash: int -> nat, lasts: bool) returns (hs: HashSet?)
      ensures lasts ==> hs != null
      ensures hs != null ==> fresh(hs.Repr()) && hs.Valid() && hs.contents == map[]
      ensures hs != null ==> hs.size == 256 && hs.shrink == 0.5 && hs.expand == 1.0
    {
      hs := Create(hash, 0, -1.0, -1.0, lasts);
    }

    /** Moves everything into `count` new buckets, or changes nothing. */
    method Resize(count: nat, lasts: bool, ghost newLevel: nat) returns (ok: bool)
      requires Valid() && count == BucketCount(minSize, newLevel) && (expand == 0.0 ==> newLevel == 0)
      modifies this
      ensures Valid() && fresh(Repr() - old(Repr()))
      ensures contents == old(contents) && length == old(length)
      ensures lasts ==> ok
      ensures size == if ok then count else old(size)
      ensures level == if ok then newLevel else old(level)
      ensures if ok then fresh(table) else table == old(table)
    {
      CountAtLeast(minSize, newLevel);
      ok := AllocateWhile(lasts);
      if !ok {
        return false;
      }
      var newTable := new seq<Elem>[count](_ => []);
      ok := Relocate(table, newTable, hash, lasts, contents);
      if ok {
        table, size, level := newTable, count, newLevel;
      }
    }

    method Shrink(lasts: bool) returns (resized: bool)
      requires Valid()
      modifies this
      ensures Valid() && fresh(Repr() - old(Repr()))
      ensures contents == old(contents) && length == old(length)
      ensures resized ==> WantsShrink(length, old(size), minSize, shrink, expand)
      ensures lasts && WantsShrink(length, old(size), minSize, shrink, expand) ==> resized
      ensures size == if resized then old(size) / RESIZE_FACTOR else old(size)
      ensures resized ==> old(size) == RESIZE_FACTOR * size
      ensures level == if resized then old(level) - 1 else old(level)
    {
      if shrink == 0.0 {
        return false;
      }
      if size <= minSize {
        return false;
      }
      var ratio := Ratio(length, size);
      if ratio < expand {
        HalfPower(minSize, level);
        resized := Resize(size / RESIZE_FACTOR, lasts, level - 1);
        return resized;
      }
      return false;
    }

    method Expand(lasts: bool) returns (resized: bool)
      requires Valid()
      modifies this
      ensures Valid() && fresh(Repr() - old(Repr()))
      ensures contents == old(contents) && length == old(length)
      ensures resized ==> WantsExpand(length, old(size), expand)
      ensures lasts && WantsExpand(length, old(size), expand) ==> resized
      ensures size == if resized then old(size) * RESIZE_FACTOR else old(size)
      ensures level == if resized then old(level) + 1 else old(level)
      ensures !resized ==> table == old(table) && table[..] == old(table[..])
    {
      if expand == 0.0 {
        return false;
      }
      var ratio := Ratio(length, size);
      if ratio > expand {
        DoublePower(minSize, level);
        resized := Resize(size * RESIZE_FACTOR, lasts, level + 1);
        return resized;
      }
      return false;
    }

    method Locate(key: Elem) returns (index: nat, slot: nat, found: bool)
      requires Valid()
      ensures index == hash(key.key) % size && index < table.Length
      ensures found <==> key.key in contents
      ensures found ==> slot < |table[index]| && table[index][slot] == contents[key.key]
      ensures !found ==> slot <= |table[index]|
      ensures !found ==> forall i :: 0 <= i < slot ==> table[index][i].key < key.key
      ensures !found ==> forall i :: slot <= i < |table[index]| ==> key.key < table[index][i].key
    {
      index := hash(key.key) % size;
      assert BucketOk(table[..][index], index, size, hash, contents);
      slot, found := FindSlot(Order(false), table[index], key);
      FindInBucket(table[..], hash, contents, key.key, slot, found);
    }

    method Contains(value: Elem) returns (found: bool)
      requires Valid()
      ensures found <==> value.key in contents
    {
      var _, _, hit := Locate(value);
      return hit;
    }

    method Get(value: Elem) returns (failed: bool, stored: Elem)
      requires Valid()
      ensures failed <==> value.key !in contents
      ensures stored == if failed then value else contents[value.key]
    {
      var index, slot, found := Locate(value);
      if found {
        return false, table[index][slot];
      }
      return true, value;
    }

    /** Puts `value` at `slot` of bucket `index`, if its memory is granted. */
    method InsertAtSlot(index: nat, slot: nat, value: Elem, granted: bool)
      requires Valid() && value.key !in contents
      requires index == hash(value.key) % size && slot <= |table[index]|
      requires forall i :: 0 <= i < slot ==> table[index][i].key < value.key
      requires forall i :: slot <= i < |table[index]| ==> value.key < table[index][i].key
      modifies this`length, this`contents, table
      ensures Valid()
      ensures contents == if granted then old(contents)[value.key := value] else old(contents)
      ensures length == if granted then old(length) + 1 else old(length)
    {
      if granted {
        InsertKeepsTable(table[..], hash, contents, value, slot);
        ghost var t := table[..];
        table[index] := InsertAt(table[index], slot, value);
        assert table[..] == t[index := InsertAt(t[index], slot, value)];
        contents := contents[value.key := value];
        length := length + 1;
      }
    }

    /** Overwrites the element at `slot` of bucket `index`. */
    method ReplaceAtSlot(index: nat, slot: nat, value: Elem)
      requires Valid() && index == hash(value.key) % size && slot < |table[index]|
      requires table[index][slot].key == value.key && value.key in contents
      modifies this`contents, table
      ensures Valid() && contents == old(contents)[value.key := value] && length == old(length)
    {
      ReplaceKeepsTable(table[..], hash, contents, value, slot);
      ghost var t := table[..];
      table[index] := table[index][slot := value];
      assert table[..] == t[index := t[index][slot := value]];
      contents := contents[value.key := value];
    }

    /** Adds an element whose place in the present table is `slot` of bucket `index`. */
    method AddNew(index: nat, slot: nat, value: Elem, lasts: bool, granted: bool)
      requires Valid() && value.key !in contents
      requires index == hash(value.key) % size && slot <= |table[index]|
      requires forall i :: 0 <= i < slot ==> table[index][i].key < value.key
      requires forall i :: slot <= i < |table[index]| ==> value.key < table[index][i].key
      modifies this, table
      ensures Valid() && fresh(Repr() - old(Repr()))
      ensures contents == if granted then old(contents)[value.key := value] else old(contents)
      ensures length == if granted then old(length) + 1 else old(length)
      ensures (size == old(size) && level == old(level))
           || (WantsExpand(old(length), old(size), expand)
               && size == old(size) * RESIZE_FACTOR && level == old(level) + 1)
      ensures lasts && WantsExpand(old(length), old(size), expand) ==> size == old(size) * RESIZE_FACTOR
    {
      var resized := Expand(lasts);
      if resized {
        var index', slot', _ := Locate(value);
        InsertAtSlot(index', slot', value, granted);
      } else {
        InsertAtSlot(index, slot, value, granted);
      }
    }

    /** hashset_add; `granted` is the answer to the bucket's own allocation, and `lasts` says that
        growing the table succeeds if it is tried. */
    method Add(value: Elem, lasts: bool, granted: bool) returns (failed: bool)
      requires Valid()
      modifies this, table
      ensures Valid() && fresh(Repr() - old(Repr()))
      ensures failed <==> value.key !in old(contents) && !granted
      ensures contents == if failed then old(contents) else old(contents)[value.key := value]
      ensures length == if failed || value.key in old(contents) then old(length) else old(length) + 1
      ensures value.key in old(contents) ==> size == old(size)
      ensures value.key !in old(contents) && lasts ==>
                size == if WantsExpand(old(length), old(size), expand) then old(size) * RESIZE_FACTOR else old(size)
      ensures size == old(size)
           || (WantsExpand(old(length), old(size), expand) && size == old(size) * RESIZE_FACTOR)
      ensures LoadStep(minSize, shrink, expand, Load(old(length), old(level)), Load(length, level))
      ensures expand == EXPAND_RATIO && old(Loaded()) && lasts ==> Loaded()
    {
      var index, slot, found := Locate(value);
      if found {
        ReplaceAtSlot(index, slot, value);
        return false;
      }
      if expand == EXPAND_RATIO && Loaded() {
        AddKeepsLoad(length, size, if WantsExpand(length, size, expand) then size * RESIZE_FACTOR else size);
      }
      AddNew(index, slot, value, lasts, granted);
      return !granted;
    }

    /** Takes the element at `slot` of bucket `index` out. */
    method RemoveAtSlot(index: nat, slot: nat, ghost key: int)
      requires Valid() && index == hash(key) % size && slot < |table[index]|
      requires table[index][slot].key == key && key in contents
      modifies this`length, this`contents, table
      ensures Valid() && contents == old(contents) - {key} && length == old(length) - 1
    {
      RemoveKeepsTable(table[..], hash, contents, key, slot);
      ghost var t := table[..];
      table[index] := RemoveAt(table[index], slot);
      assert table[..] == t[index := RemoveAt(t[index], slot)];
      contents := contents - {key};
      length := length - 1;
    }

    /** hashset_remove; `lasts` says that shrinking the table succeeds if it is tried. */
    method Remove(value: Elem, lasts: bool) returns (failed: bool)
      requires Valid()
      modifies this, table
      ensures Valid() && fresh(Repr() - old(Repr()))
      ensures failed <==> value.key !in old(contents)
      ensures contents == old(contents) - {value.key}
      ensures length == if failed then old(length) else old(length) - 1
      ensures failed ==> size == old(size)
      ensures !failed && lasts ==>
                size == if WantsShrink(length, old(size), minSize, shrink, expand)
                        then old(size) / RESIZE_FACTOR else old(size)
      ensures LoadStep(minSize, shrink, expand, Load(old(length), old(level)), Load(length, level))
      ensures expand == EXPAND_RATIO && old(Loaded()) ==> Loaded()
    {
      var index, slot, found := Locate(value);
      if found {
        RemoveAtSlot(index, slot, value.key);
        ghost var before := size;
        var _ := Shrink(lasts);
        if expand == EXPAND_RATIO && LoadBound(length + 1, before) {
          RemoveKeepsLoad(length, before, size, minSize, shrink);
        }
        return false;
      }
      return true;
    }

    /** Adds a new element and removes one. While memory lasts, an expand in between is undone
        exactly when the load was less than two elements a bucket before, and so always in a table
        that has kept to its load bound, unless it has a single bucket. */
    method AddThenRemove(value: Elem, victim: Elem, lasts: bool) returns (failed: bool)
      requires Valid() && value.key !in contents && (victim.key in contents || victim.key == value.key)
      requires shrink == SHRINK_RATIO && expand == EXPAND_RATIO
      modifies this, table
      ensures Valid() && fresh(Repr() - old(Repr()))
      ensures lasts ==> !failed && contents == old(contents)[value.key := value] - {victim.key}
      ensures lasts && old(length) > old(size) ==>
                size == if old(length) < 2 * old(size) then old(size) else RESIZE_FACTOR * old(size)
      ensures lasts && old(length) > old(size) && old(Loaded()) && old(size) > 1 ==> size == old(size)
    {
      CountAfterPair(length, size, minSize, level);
      var granted := AllocateWhile(lasts);
      failed := Add(value, lasts, granted);
      if !failed {
        failed := Remove(victim, lasts);
      }
    }
  }
}

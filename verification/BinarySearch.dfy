/** The binary search that HashSet.c and SortedArray.c each carry a copy of. */
module BinarySearch {
  import opened DataType

  method FindSlot(o: Order, s: seq<Elem>, probe: Elem) returns (index: nat, found: bool)
    requires Sorted(o, s)
    ensures found ==> index < |s| && o.Rank(s[index]) == o.Rank(probe)
    ensures !found ==> index <= |s|
    ensures !found ==> forall i :: 0 <= i < index ==> o.Rank(s[i]) < o.Rank(probe)
    ensures !found ==> forall i :: index <= i < |s| ==> o.Rank(probe) < o.Rank(s[i])
  {
    if |s| == 0 {
      return 0, false;
    }
    var start, end := 0, |s|;
    while start < end
      invariant 0 <= start <= end <= |s|
      invariant forall i :: 0 <= i < start ==> o.Rank(s[i]) < o.Rank(probe)
      invariant forall i :: end <= i < |s| ==> o.Rank(probe) < o.Rank(s[i])
    {
      var middle := start + (end - start) / 2;
      if o.Rank(s[middle]) == o.Rank(probe) {
        return middle, true;
      } else if o.Less(s[middle], probe) {
        start := middle + 1;
      } else {
        end := middle;
      }
    }
    return start, false;
  }
}

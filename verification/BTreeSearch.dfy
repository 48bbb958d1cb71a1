/** Searching inside one node. */
module BTreeSearch {
  import opened Rids
  import opened BTreeState
  import opened BTreeInsert

  /** The first slot whose key is not below the target. */
  method LowerBound(keys: seq<int>, target: int) returns (left: int)
    requires Sorted(keys)
    ensures IsLowerBound(keys, target, left)
  {
    left := 0;
    var right := |keys|;
    while left < right
      invariant 0 <= left <= right <= |keys|
      invariant forall i | 0 <= i < left :: keys[i] < target
      invariant forall i | right <= i < |keys| :: target <= keys[i]
    {
      var mid := left + (right - left) / 2;
      if keys[mid] < target {
        left := mid + 1;
      } else {
        right := mid;
      }
    }
  }

  /** The first slot from 1 on whose key is above the target; slot 0 is never looked at. */
  method UpperBound(keys: seq<int>, target: int) returns (left: int)
    requires |keys| >= 1
    requires forall i, j | 1 <= i < j < |keys| :: keys[i] < keys[j]
    ensures 1 <= left <= |keys|
    ensures forall i | 1 <= i < left :: keys[i] <= target
    ensures forall i | left <= i < |keys| :: target < keys[i]
  {
    left := 1;
    var right := |keys|;
    while left < right
      invariant 1 <= left <= right <= |keys|
      invariant forall i | 1 <= i < left :: keys[i] <= target
      invariant forall i | right <= i < |keys| :: target < keys[i]
    {
      var mid := left + (right - left) / 2;
      if keys[mid] <= target {
        left := mid + 1;
      } else {
        right := mid;
      }
    }
  }

  /** The slot in which a parent holds a child. */
  method FindChild(rids: seq<Rid>, child: int) returns (i: int)
    requires Rid(child, -1) in rids
    requires forall j | 0 <= j < |rids| :: rids[j].slot == -1
    ensures 0 <= i < |rids| && rids[i] == Rid(child, -1)
    ensures forall j | 0 <= j < i :: rids[j].page != child
  {
    i := 0;
    while i < |rids|
      invariant 0 <= i <= |rids|
      invariant forall j | 0 <= j < i :: rids[j].page != child
    {
      if rids[i].page == child {
        assert rids[i].slot == -1;
        break;
      }
      i := i + 1;
    }
  }
}

/** Who owns which index: hypre_FindProc. */
module Partitions {
  /** Rank p owns the indices part[p] to part[p + 1] - 1. */
  ghost predicate IsPartition(part: seq<int>) {
    |part| >= 1 && forall i, j :: 0 <= i <= j < |part| ==> part[i] <= part[j]
  }

  /** hypre_FindProc. */
  method FindProc(list: seq<int>, value: int) returns (p: int)
    requires IsPartition(list)
    ensures if list[0] <= value < list[|list| - 1]
      then 0 <= p < |list| - 1 && list[p] <= value < list[p + 1]
      else p == -1
  {
    var low, high := 0, |list| - 1;
    if value >= list[high] || value < list[low] { return -1; }
    while low + 1 < high
      invariant 0 <= low < high < |list| && list[low] <= value < list[high]
    {
      var m := (low + high) / 2;
      if value < list[m] { high := m; } else { low := m; }
    }
    p := low;
    assert high == low + 1;
  }
}

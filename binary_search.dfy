/**
 * Binary search over a sorted sequence (`binary_search` in task2.py). It
 * reports how many probes it made and, on a match, the element after the
 * matched one, or the matched element itself when it is the last.
 */
module BinarySearch {

  /** Outcome of a search: the reported follow-up element, or no match. */
  datatype Lookup = Found(next: int) | NotFound

  /** `a` is in non-decreasing order. */
  predicate Sorted(a: seq<int>)
  {
    forall i, j :: 0 <= i < j < |a| ==> a[i] <= a[j]
  }

  /** The element reported for a match at index `mid`. */
  function FollowUp(arr: seq<int>, mid: nat): int
    requires mid < |arr|
  {
    if mid < |arr| - 1 then arr[mid + 1] else arr[mid]
  }

  /** The integer (floor) logarithm base 2, with `Log2(0) == Log2(1) == 0`. */
  function Log2(n: nat): nat
  {
    if n <= 1 then 0 else 1 + Log2(n / 2)
  }

  lemma {:induction false} Log2Monotone(a: nat, b: nat)
    requires a <= b
    ensures Log2(a) <= Log2(b)
  {
    if a > 1 {
      Log2Monotone(a / 2, b / 2);
    }
  }

  /** Halving a non-empty range lowers its logarithm by at least one. */
  lemma Log2Halving(small: nat, size: nat)
    requires 1 <= small <= size / 2
    ensures Log2(small) + 1 <= Log2(size)
  {
    Log2Monotone(small, size / 2);
  }

  /**
   * Searches `arr` for `x`, returning the number of loop iterations and the
   * follow-up of some index holding `x`. For a sorted `arr` a match is found
   * exactly when `x` occurs, and at most `Log2(|arr|) + 1` probes are made.
   */
  method BinarySearch(arr: seq<int>, x: int) returns (nIter: nat, result: Lookup)
    ensures |arr| == 0 ==> nIter == 0 && result == NotFound
    ensures |arr| > 0 ==> 1 <= nIter <= Log2(|arr|) + 1
    ensures result.Found? ==>
              exists mid :: 0 <= mid < |arr| && arr[mid] == x && result.next == FollowUp(arr, mid)
    ensures Sorted(arr) ==> (result.Found? <==> x in arr)
  {
    var low := 0;
    var high := |arr| - 1;
    nIter := 0;
    while low <= high
      invariant 0 <= low <= high + 1 <= |arr|
      invariant nIter + (if low <= high then Log2(high - low + 1) + 1 else 0) <= Log2(|arr|) + 1
      invariant nIter == 0 ==> low == 0 && high == |arr| - 1
      invariant |arr| == 0 ==> nIter == 0
      invariant Sorted(arr) ==> forall k :: 0 <= k < |arr| && arr[k] == x ==> low <= k <= high
      decreases high - low
    {
      nIter := nIter + 1;
      var size := high - low + 1;
      var mid := (high + low) / 2;
      if arr[mid] < x {
        low := mid + 1;
      } else if arr[mid] > x {
        high := mid - 1;
      } else {
        return nIter, Found(FollowUp(arr, mid));
      }
      if low <= high {
        Log2Halving(high - low + 1, size);
      }
    }
    return nIter, NotFound;
  }

  /**
   * A worked example, with real values scaled to integers: in the
   * sorted sequence [10, 25, 33, 71, 90] the only index holding 71 reports 90.
   */
  lemma FollowUpExample()
    ensures Sorted([10, 25, 33, 71, 90]) && 71 in [10, 25, 33, 71, 90]
    ensures forall mid :: 0 <= mid < 5 && [10, 25, 33, 71, 90][mid] == 71 ==> FollowUp([10, 25, 33, 71, 90], mid) == 90
  {
    var arr := [10, 25, 33, 71, 90];
    assert arr[3] == 71;
    forall mid | 0 <= mid < 5 && arr[mid] == 71 ensures FollowUp(arr, mid) == 90 {
      assert mid == 3;
    }
  }
}

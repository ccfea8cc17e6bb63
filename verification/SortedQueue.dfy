/** Binary search, and the sorted array queue that relies on it. */
module SortedQueue {
  import opened Wrappers

  /**
   The index at which `value` stands in a sorted array, or would have to be inserted. The array must be sorted
   around the value: behind an element that is not below it, everything is above it.
   */
  method BSearch<T>(arr: seq<T>, value: T, comparator: (T, T) ~> real) returns (idx: nat)
    requires forall i :: 0 <= i < |arr| ==> comparator.requires(value, arr[i])
    requires forall i, j :: 0 <= i < j < |arr| && comparator(value, arr[i]) <= 0.0 ==> comparator(value, arr[j]) < 0.0
    ensures idx <= |arr|
    ensures forall i :: 0 <= i < idx ==> comparator(value, arr[i]) > 0.0
    ensures forall i :: idx < i < |arr| ==> comparator(value, arr[i]) < 0.0
    ensures idx < |arr| ==> comparator(value, arr[idx]) <= 0.0
  {
    if |arr| <= 0 {
      return 0;
    }
    var start, end := 0, |arr| - 1;
    while start < end
      invariant 0 <= start < |arr| && start - 1 <= end < |arr|
      invariant forall i :: 0 <= i < start ==> comparator(value, arr[i]) > 0.0
      invariant forall i :: end < i < |arr| ==> comparator(value, arr[i]) < 0.0
    {
      var mid := (start + end) / 2;
      var r := comparator(value, arr[mid]);
      if r == 0.0 {
        return mid;
      }
      if r < 0.0 {
        end := mid - 1;
      } else {
        start := mid + 1;
      }
    }
    return if comparator(value, arr[start]) > 0.0 then start + 1 else start;
  }

  class SortedQueue<T(==)> {
    var arr: seq<T>

    constructor ()
      ensures arr == []
    {
      arr := [];
    }

    function Size(): nat
      reads this
    {
      |arr|
    }

    function Peek(): Option<T>
      reads this
    {
      if arr == [] then None else Some(arr[|arr| - 1])
    }

    /** Inserts `v` at `idx`, its place in the order, unless it is there already. */
    method Push(v: T, comparator: (T, T) ~> real) returns (ghost idx: nat)
      requires forall i :: 0 <= i < |arr| ==> comparator.requires(v, arr[i])
      requires forall i, j :: 0 <= i < j < |arr| && comparator(v, arr[i]) <= 0.0 ==> comparator(v, arr[j]) < 0.0
      requires forall i :: 0 <= i < |arr| ==> (comparator(v, arr[i]) == 0.0 <==> arr[i] == v)
      modifies this
      ensures v in old(arr) ==> arr == old(arr)
      ensures v !in old(arr) ==> idx <= |old(arr)| && arr == old(arr)[..idx] + [v] + old(arr)[idx..]
      ensures v !in old(arr) ==> forall i :: 0 <= i < idx ==> old(comparator(v, arr[i])) > 0.0
      ensures v !in old(arr) ==> forall i :: idx <= i < |old(arr)| ==> old(comparator(v, arr[i])) < 0.0
    {
      var k := BSearch(arr, v, comparator);
      idx := k;
      if k >= |arr| || arr[k] != v {
        arr := arr[..k] + [v] + arr[k..];
      }
    }

    method Pop() returns (v: Option<T>)
      modifies this
      ensures old(arr) == [] ==> v == None && arr == []
      ensures old(arr) != [] ==> v == Some(old(arr)[|old(arr)| - 1]) && arr == old(arr)[..|old(arr)| - 1]
    {
      if arr == [] {
        return None;
      }
      v := Some(arr[|arr| - 1]);
      arr := arr[..|arr| - 1];
    }

    method Delete(v: T, comparator: (T, T) ~> real) returns (found: bool, ghost idx: nat)
      requires forall i :: 0 <= i < |arr| ==> comparator.requires(v, arr[i])
      requires forall i, j :: 0 <= i < j < |arr| && comparator(v, arr[i]) <= 0.0 ==> comparator(v, arr[j]) < 0.0
      requires forall i :: 0 <= i < |arr| ==> (comparator(v, arr[i]) == 0.0 <==> arr[i] == v)
      modifies this
      ensures found <==> v in old(arr)
      ensures !found ==> arr == old(arr)
      ensures found ==> idx < |old(arr)| && old(arr)[idx] == v && arr == old(arr)[..idx] + old(arr)[idx + 1..]
    {
      var k := BSearch(arr, v, comparator);
      idx := k;
      if k < |arr| && arr[k] == v {
        arr := arr[..k] + arr[k + 1..];
        return true, k;
      }
      return false, k;
    }

    /** The lookup never misses: it finds the value exactly when it is in the queue. */
    method Has(v: T, comparator: (T, T) ~> real) returns (found: bool)
      requires forall i :: 0 <= i < |arr| ==> comparator.requires(v, arr[i])
      requires forall i, j :: 0 <= i < j < |arr| && comparator(v, arr[i]) <= 0.0 ==> comparator(v, arr[j]) < 0.0
      requires forall i :: 0 <= i < |arr| ==> (comparator(v, arr[i]) == 0.0 <==> arr[i] == v)
      ensures found <==> v in arr
    {
      var idx := BSearch(arr, v, comparator);
      return idx < |arr| && arr[idx] == v;
    }
  }
}

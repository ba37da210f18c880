/**
 * Removing one slot from a buffer: the reference deletion `RemoveAt`, the
 * in-window shift-left `Compact` that `compact_array` performs, and a loop
 * that performs it step by step as the C code does.
 */
module Compaction {

  /** `s` with the slot at `idx` deleted. */
  function RemoveAt(s: seq<int>, idx: int): (r: seq<int>)
    requires 0 <= idx < |s|
    ensures |r| == |s| - 1
    ensures forall k :: 0 <= k < idx ==> r[k] == s[k]
    ensures forall k :: idx <= k < |r| ==> r[k] == s[k + 1]
    ensures multiset(r) + multiset{s[idx]} == multiset(s)
  {
    assert s == s[..idx] + [s[idx]] + s[idx + 1..];
    s[..idx] + s[idx + 1..]
  }

  /**
   * `compact_array(idx, arr, size)`: entries `idx+1 .. size-1` move one place
   * left. Within the first `size` entries this deletes slot `idx`; entry
   * `size-1` keeps its old value and nothing at or beyond `size` changes.
   * An `idx` at or past `size` leaves the array as it was.
   */
  function Compact(idx: int, arr: seq<int>, size: int): (r: seq<int>)
    requires 0 <= idx && 0 <= size <= |arr|
    ensures |r| == |arr|
    ensures forall k {:trigger r[k]} :: 0 <= k < |arr| ==> r[k] == if idx <= k < size - 1 then arr[k + 1] else arr[k]
    ensures idx < size ==> r[..size - 1] == RemoveAt(arr[..size], idx)
  {
    if idx < size then RemoveAt(arr[..size], idx) + arr[size - 1..] else arr
  }

  /** The loop of `compact_array`, one assignment `arr[i-1] = arr[i]` per step. */
  method CompactArray(idx: int, arr: seq<int>, size: int) returns (r: seq<int>)
    requires 0 <= idx && 0 <= size <= |arr|
    ensures r == Compact(idx, arr, size)
  {
    r := arr;
    var i := idx + 1;
    while i < size
      invariant idx + 1 <= i <= (if idx < size then size else idx + 1)
      invariant |r| == |arr|
      invariant forall k {:trigger r[k]} :: 0 <= k < |arr| ==> r[k] == if idx <= k < i - 1 then arr[k + 1] else arr[k]
    {
      r := r[i - 1 := r[i]];
      i := i + 1;
    }
    var c := Compact(idx, arr, size);
    assert forall k :: 0 <= k < |arr| ==> r[k] == c[k];
  }
}

/**
 The `range(start, end)` helper that operators use to fill a table's ticket
 list with consecutive numbers.
 */
module TicketRange {
  import opened Collections

  /**
   The consecutive integers `start, start + 1, ..., end`. When `end < start`
   the length `end - start + 1` that `Array.from` receives is zero or
   negative, which it clamps to zero, so the result is empty.
   */
  function Range(start: int, end: int): (r: seq<int>)
    ensures |r| == if end < start then 0 else end - start + 1
    ensures forall i :: 0 <= i < |r| ==> r[i] == start + i
    decreases end - start
  {
    if end < start then [] else Range(start, end - 1) + [end]
  }

  /** The range holds exactly the integers from `start` to `end`, in strictly increasing order. */
  lemma RangeShape(start: int, end: int)
    ensures forall x :: x in Range(start, end) <==> start <= x <= end
    ensures StrictlyIncreasing(Range(start, end))
    ensures |Elements(Range(start, end))| == |Range(start, end)|
  {
    var r := Range(start, end);
    forall x | start <= x <= end ensures x in r {
      assert r[x - start] == x;
    }
    StrictlyIncreasingNoDup(r);
    DistinctCard(r);
  }
}

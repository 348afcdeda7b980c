/** The date-range selection applied to both tables: a boolean mask
    `start <= date <= end` that keeps the matching rows in their order. */
module DateFilter {

  /** Both bounds included. */
  predicate InRange(date: int, start: int, end: int)
  {
    start <= date <= end
  }

  /** The rows whose date (as `dateOf` reads it) lies in [start, end], in their original order. */
  function Filter<R>(rows: seq<R>, dateOf: R -> int, start: int, end: int): (r: seq<R>)
    ensures |r| <= |rows|
    ensures forall k :: 0 <= k < |r| ==> InRange(dateOf(r[k]), start, end)
  {
    if rows == [] then []
    else
      var kept := Filter(rows[..|rows| - 1], dateOf, start, end);
      var last := rows[|rows| - 1];
      if InRange(dateOf(last), start, end) then kept + [last] else kept
  }

  /** The positions of the rows in range, in increasing order: the reference
      the filter is measured against. */
  function InRangeIndices<R>(rows: seq<R>, dateOf: R -> int, start: int, end: int): seq<nat>
  {
    if rows == [] then []
    else
      InRangeIndices(rows[..|rows| - 1], dateOf, start, end)
      + (if InRange(dateOf(rows[|rows| - 1]), start, end) then [|rows| - 1] else [])
  }

  /** The filter keeps exactly the rows in range, each once, in their original
      order: its k-th row is the row at the k-th position in range. */
  lemma {:induction false} FilterSelects<R>(rows: seq<R>, dateOf: R -> int, start: int, end: int)
    ensures var r := Filter(rows, dateOf, start, end);
            var idx := InRangeIndices(rows, dateOf, start, end);
      && |r| == |idx|
      && (forall k :: 0 <= k < |idx| ==> idx[k] < |rows| && r[k] == rows[idx[k]])
      && (forall k, l :: 0 <= k < l < |idx| ==> idx[k] < idx[l])
      && (forall i :: 0 <= i < |rows| ==> (i in idx <==> InRange(dateOf(rows[i]), start, end)))
  {
    if rows != [] {
      var n := |rows| - 1;
      var init := rows[..n];
      FilterSelects(init, dateOf, start, end);
      var idx0 := InRangeIndices(init, dateOf, start, end);
      var idx := InRangeIndices(rows, dateOf, start, end);
      assert forall k :: 0 <= k < |idx0| ==> idx0[k] < n;
      assert forall i :: 0 <= i < n ==> rows[i] == init[i];
      if InRange(dateOf(rows[n]), start, end) {
        assert idx == idx0 + [n];
      } else {
        assert idx == idx0;
      }
    }
  }

  /** Filtering with [start, end] after filtering with a wider range is
      filtering with [start, end] directly: a narrower range selects a
      subsequence of what a wider range selects. */
  lemma {:induction false} FilterNarrower<R>(rows: seq<R>, dateOf: R -> int, start: int, end: int, wideStart: int, wideEnd: int)
    requires wideStart <= start && end <= wideEnd
    ensures Filter(Filter(rows, dateOf, wideStart, wideEnd), dateOf, start, end) == Filter(rows, dateOf, start, end)
  {
    if rows != [] {
      var n := |rows| - 1;
      var last := rows[n];
      var wide := Filter(rows[..n], dateOf, wideStart, wideEnd);
      FilterNarrower(rows[..n], dateOf, start, end, wideStart, wideEnd);
      if InRange(dateOf(last), wideStart, wideEnd) {
        assert (wide + [last])[..|wide|] == wide;
      }
    }
  }

  /** Filtering twice with the same range changes nothing. */
  lemma {:induction false} FilterIdempotent<R>(rows: seq<R>, dateOf: R -> int, start: int, end: int)
    ensures Filter(Filter(rows, dateOf, start, end), dateOf, start, end) == Filter(rows, dateOf, start, end)
  {
    FilterNarrower(rows, dateOf, start, end, start, end);
  }
}

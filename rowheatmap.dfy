// The simpler heatmap: the data's dates in string order, chunked into rows
// of seven, every cell coloured by its count against the largest count.

module RowHeatmap {
  import opened LexOrder
  import opened HeatColor

  /** Rows of seven of `s`, in order; the last row holds what is left (one to seven). */
  function Chunks(s: seq<string>): (rows: seq<seq<string>>)
    ensures |rows| == (|s| + 6) / 7
  {
    seq((|s| + 6) / 7, r requires 0 <= r < (|s| + 6) / 7 =>
      s[7 * r .. if 7 * r + 7 <= |s| then 7 * r + 7 else |s|])
  }

  function Flatten(rows: seq<seq<string>>): seq<string>
  {
    if rows == [] then [] else Flatten(rows[..|rows| - 1]) + rows[|rows| - 1]
  }

  /** `toWeekArray(dates)`: sort a copy of the dates, push each into the current row,
      and close the row when it holds seven; a last, shorter row is kept when not empty. */
  method ToWeekArray(dates: seq<string>) returns (rows: seq<seq<string>>)
    ensures rows == Chunks(Sort(dates))
  {
    var sorted := Sort(dates);
    rows := ChunkRows(sorted);
  }

  /** The loop of `toWeekArray` over the sorted copy. */
  method ChunkRows(s: seq<string>) returns (rows: seq<seq<string>>)
    ensures rows == Chunks(s)
  {
    rows := [];
    var row: seq<string> := [];
    for i := 0 to |s|
      invariant |row| < 7 && i == 7 * |rows| + |row|
      invariant row == s[7 * |rows| .. i]
      invariant forall r :: 0 <= r < |rows| ==> rows[r] == s[7 * r .. 7 * r + 7]
    {
      row := row + [s[i]];
      if |row| == 7 {
        rows := rows + [row];
        row := [];
      }
    }
    ChunksClose(s, rows, row);
    if |row| > 0 {
      rows := rows + [row];
    }
  }

  /** Full rows of seven followed by a last row of what is left are the chunks. */
  lemma ChunksClose(s: seq<string>, rows: seq<seq<string>>, row: seq<string>)
    requires |row| < 7 && |s| == 7 * |rows| + |row| && row == s[7 * |rows|..]
    requires forall r :: 0 <= r < |rows| ==> rows[r] == s[7 * r .. 7 * r + 7]
    ensures (if |row| > 0 then rows + [row] else rows) == Chunks(s)
  {
    var all := if |row| > 0 then rows + [row] else rows;
    RowCount(|s|, |rows|, |row|);
    forall r | 0 <= r < |all|
      ensures all[r] == Chunks(s)[r]
    {
      if r < |rows| {
        assert 7 * r + 7 <= |s|;
      }
    }
  }

  lemma RowCount(n: nat, full: nat, rest: nat)
    requires rest < 7 && n == 7 * full + rest
    ensures (n + 6) / 7 == if rest > 0 then full + 1 else full
  {
  }

  /** Reading the rows one after another gives the dates in sorted order, and the dates
      are a permutation of the input. */
  lemma RowsReadInOrder(dates: seq<string>)
    ensures Flatten(Chunks(Sort(dates))) == Sort(dates)
    ensures Sorted(Flatten(Chunks(Sort(dates))))
    ensures multiset(Flatten(Chunks(Sort(dates)))) == multiset(dates)
  {
    FlattenChunks(Sort(dates), (|Sort(dates)| + 6) / 7);
    assert Chunks(Sort(dates))[..(|Sort(dates)| + 6) / 7] == Chunks(Sort(dates));
  }

  /** The first k rows hold the first 7 * k dates (all of them, for the last row). */
  lemma {:induction false} FlattenChunks(s: seq<string>, k: nat)
    requires k <= (|s| + 6) / 7
    ensures Flatten(Chunks(s)[..k]) == s[..if 7 * k <= |s| then 7 * k else |s|]
  {
    if k > 0 {
      var rows := Chunks(s)[..k];
      var lo := 7 * (k - 1);
      var hi := if 7 * k <= |s| then 7 * k else |s|;
      ChunkBound(|s|, k);
      assert rows[..k - 1] == Chunks(s)[..k - 1];
      FlattenChunks(s, k - 1);
      assert Flatten(rows[..k - 1]) == s[..lo];
      assert rows[k - 1] == s[lo..hi];
      assert s[..lo] + s[lo..hi] == s[..hi];
    }
  }

  lemma ChunkBound(n: nat, k: nat)
    requires 0 < k <= (n + 6) / 7
    ensures 7 * (k - 1) < n
  {
  }

  /** Every row but the last holds seven dates; the last holds one to seven; no dates,
      no rows. */
  lemma RowLengths(s: seq<string>)
    ensures |Chunks(s)| == 0 <==> s == []
    ensures forall r :: 0 <= r < |Chunks(s)| - 1 ==> |Chunks(s)[r]| == 7
    ensures |Chunks(s)| > 0 ==> 1 <= |Chunks(s)[|Chunks(s)| - 1]| <= 7
  {
  }

  /** `Math.round((v / max) * 4)` with `max = Math.max(...values, 1)`: a cell of step 0
      counts less than an eighth of the largest value, a cell of step 4 at least seven
      eighths of it; a larger count never gets a lighter colour. */
  lemma IntensityThresholds(data: map<string, nat>, dates: seq<string>, d: string, e: string)
    requires KeysOf(dates, data)
    ensures var max := MaxWithFloor(Values(data, dates));
      (CellColor(data, dates, d) == 0 <==> 8 * CellValue(data, d) < max) &&
      (CellColor(data, dates, d) == 4 <==> 7 * max <= 8 * CellValue(data, d))
    ensures CellValue(data, d) <= CellValue(data, e) ==>
      CellColor(data, dates, d) <= CellColor(data, dates, e)
  {
    var max := MaxWithFloor(Values(data, dates));
    ValueWithinMax(data, dates, d);
    ValueWithinMax(data, dates, e);
    BucketThresholds(CellValue(data, d), 1, max);
    if CellValue(data, d) <= CellValue(data, e) {
      BucketMonotone(CellValue(data, d), CellValue(data, e), 1, max);
    }
  }
}

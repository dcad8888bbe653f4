/**
 Raw spreadsheet rows, parsed timestamps and the cleaning step that drops
 rows with a missing systolic or diastolic pressure.
 */
module Readings {

  /** A value that may be missing (a blank spreadsheet cell). */
  datatype Option<+T> = None | Some(value: T)

  const NanosPerHour: int := 3_600_000_000_000
  const NanosPerDay: int := 24 * NanosPerHour

  /** Nanoseconds elapsed since midnight, the resolution of a pandas timestamp. */
  type TimeOfDay = n: int | 0 <= n < NanosPerDay

  /** A parsed timestamp: a calendar day number and the time within that day. */
  datatype Timestamp = Timestamp(day: int, nanos: TimeOfDay)

  /** Strict chronological order of timestamps. */
  predicate Earlier(a: Timestamp, b: Timestamp) {
    a.day < b.day || (a.day == b.day && a.nanos < b.nanos)
  }

  /** The hour component of a timestamp. */
  function HourOf(t: Timestamp): (h: int)
    ensures 0 <= h < 24
    ensures h * NanosPerHour <= t.nanos < (h + 1) * NanosPerHour
  {
    t.nanos / NanosPerHour
  }

  /** One input row: the timestamp and two pressures, either of which may be blank. */
  datatype RawRow = RawRow(time: Timestamp, systolic: Option<int>, diastolic: Option<int>)

  /** A row that survived cleaning: both pressures are present (mmHg). */
  datatype Reading = Reading(time: Timestamp, systolic: int, diastolic: int)

  predicate Complete(row: RawRow) {
    row.systolic.Some? && row.diastolic.Some?
  }

  /** No row has a blank pressure. */
  ghost predicate AllComplete(rows: seq<RawRow>) {
    forall i | 0 <= i < |rows| :: Complete(rows[i])
  }

  function ToReading(row: RawRow): Reading
    requires Complete(row)
  {
    Reading(row.time, row.systolic.value, row.diastolic.value)
  }

  /** Drops every row with a missing pressure, keeping the others in order. */
  function Clean(rows: seq<RawRow>): (rs: seq<Reading>)
    ensures |rs| <= |rows|
    ensures |rs| == |rows| <==> AllComplete(rows)
  {
    if rows == [] then []
    else
      var init := rows[..|rows| - 1];
      assert forall i | 0 <= i < |init| :: init[i] == rows[i];
      if Complete(rows[|rows| - 1]) then Clean(init) + [ToReading(rows[|rows| - 1])]
      else Clean(init)
  }

  /** The positions of the complete rows, in increasing order. */
  function CompleteIndices(rows: seq<RawRow>): seq<int>
  {
    if rows == [] then []
    else if Complete(rows[|rows| - 1]) then CompleteIndices(rows[..|rows| - 1]) + [|rows| - 1]
    else CompleteIndices(rows[..|rows| - 1])
  }

  /** The positions are strictly increasing and lie within `rows`. */
  ghost predicate IncreasingPositions(idx: seq<int>, n: int) {
    && (forall j | 0 <= j < |idx| :: 0 <= idx[j] < n)
    && (forall j, j' | 0 <= j < j' < |idx| :: idx[j] < idx[j'])
  }

  lemma {:induction false} CompleteIndicesIncrease(rows: seq<RawRow>)
    ensures IncreasingPositions(CompleteIndices(rows), |rows|)
  {
    if rows != [] {
      CompleteIndicesIncrease(rows[..|rows| - 1]);
    }
  }

  /** Every output entry is the complete row at the matching position, fields unchanged. */
  lemma {:induction false} CleanPicksIndexedRows(rows: seq<RawRow>)
    ensures |Clean(rows)| == |CompleteIndices(rows)|
    ensures forall j | 0 <= j < |CompleteIndices(rows)| ::
              var i := CompleteIndices(rows)[j];
              0 <= i < |rows| && Complete(rows[i]) && Clean(rows)[j] == ToReading(rows[i])
  {
    if rows != [] {
      var n := |rows| - 1;
      var init := rows[..n];
      CleanPicksIndexedRows(init);
      CompleteIndicesIncrease(init);
      assert forall i | 0 <= i < n :: init[i] == rows[i];
      if Complete(rows[n]) {
        assert Clean(rows) == Clean(init) + [ToReading(rows[n])];
        assert CompleteIndices(rows) == CompleteIndices(init) + [n];
      } else {
        assert Clean(rows) == Clean(init);
        assert CompleteIndices(rows) == CompleteIndices(init);
      }
    }
  }

  /** Every complete row's position is among the chosen positions. */
  lemma {:induction false} CompleteRowsAreIndexed(rows: seq<RawRow>)
    ensures forall i | 0 <= i < |rows| && Complete(rows[i]) :: i in CompleteIndices(rows)
  {
    if rows != [] {
      var n := |rows| - 1;
      var init := rows[..n];
      CompleteRowsAreIndexed(init);
      assert forall i | 0 <= i < n :: init[i] == rows[i];
    }
  }

  /**
   Cleaning keeps exactly the complete rows, in their original order, with
   their fields unchanged: its output is the subsequence of `rows` at the
   strictly increasing positions `CompleteIndices(rows)`, and these are all
   the positions of complete rows.
   */
  lemma CleanSelectsCompleteRows(rows: seq<RawRow>)
    ensures var idx, rs := CompleteIndices(rows), Clean(rows);
            && |idx| == |rs|
            && IncreasingPositions(idx, |rows|)
            && (forall j | 0 <= j < |idx| :: Complete(rows[idx[j]]) && rs[j] == ToReading(rows[idx[j]]))
            && (forall i | 0 <= i < |rows| && Complete(rows[i]) :: i in idx)
  {
    CompleteIndicesIncrease(rows);
    CleanPicksIndexedRows(rows);
    CompleteRowsAreIndexed(rows);
  }

  /** Cleaning distributes over concatenation: each row is kept or dropped on its own. */
  lemma {:induction false} CleanAppend(a: seq<RawRow>, b: seq<RawRow>)
    ensures Clean(a + b) == Clean(a) + Clean(b)
  {
    if b == [] {
      assert a + b == a;
    } else {
      var b0 := b[..|b| - 1];
      CleanAppend(a, b0);
      assert (a + b)[..|a + b| - 1] == a + b0;
      assert (a + b)[|a + b| - 1] == b[|b| - 1];
    }
  }

  /** A row with a missing pressure appended at the end is dropped. */
  lemma DropLast(pre: seq<RawRow>, x: RawRow)
    requires !Complete(x)
    ensures Clean(pre + [x]) == Clean(pre)
  {
    assert (pre + [x])[..|pre|] == pre;
  }

  /** Inserting a row with a missing pressure anywhere does not change the cleaned data. */
  lemma IncompleteRowIsDropped(rows: seq<RawRow>, k: int, x: RawRow)
    requires 0 <= k <= |rows|
    requires !Complete(x)
    ensures Clean(rows[..k] + [x] + rows[k..]) == Clean(rows)
  {
    var pre, post := rows[..k], rows[k..];
    CleanAppend(pre + [x], post);
    DropLast(pre, x);
    CleanAppend(pre, post);
    assert pre + post == rows;
  }
}

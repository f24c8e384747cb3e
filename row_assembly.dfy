/** `StorageQueryHbase.addRowToSeq`: adding one compacted row to the list of
    `RowSeq`s of a series. The row must carry the series' key layout; it is
    merged into the last `RowSeq` when the time span still fits, dropped when
    it arrives out of order, and appended as a new `RowSeq` otherwise. A row
    out of order on an empty list (first sample at time 0) does not get
    dropped: the log message reads `rows.get(-1)`, which throws.

    `RowSeq` itself is not part of this model: a `RowSeq` here is its row
    key, its base time and the timestamps of its samples, `setRow` reads them
    from a compacted row and `addRow` appends the row's timestamps.
    `RowSeq.canTimeDeltaFit` is a parameter. */
module RowAssembly {
  import opened Wrappers
  import opened Bytes
  import opened RowKey
  import opened SpanCompare

  datatype RowSeq = RowSeq(key: seq<byte>, baseTime: nat, timestamps: seq<nat>)

  /** The three `IllegalArgumentException`s of the key check. */
  datatype Mismatch = KeyLengthMismatch | MetricMismatch | TagsMismatch

  datatype AddOutcome =
    | /** `last.addRow(row)`. */
      Merged
    | /** `rows.add(rowseq)`. */
      Appended
    | /** The "added out of order" error is logged and the row is lost. */
      DroppedOutOfOrder
    | /** Out of order on an empty list: building the log message calls
          `rows.get(rows.size() - 1)`, i.e. `rows.get(-1)`, which throws
          `IndexOutOfBoundsException`. */
      OutOfOrderOnEmpty
    | /** `IllegalArgumentException`. */
      Rejected(error: Mismatch)

  /** `new RowSeq(tsdb)` followed by `setRow(row)`. */
  function NewRowSeq(row: CompactedRow, w: nat): (s: RowSeq)
    requires WellFormedRow(row, w)
    ensures s.key == row.key && s.timestamps != []
    ensures s.timestamps[0] == RowTimestamps(row, w)[0]
  {
    RowSeq(row.key, BaseTime(row.key, w), RowTimestamps(row, w))
  }

  /** `last.addRow(row)`: the row's samples follow those already held. */
  function MergeRow(s: RowSeq, row: CompactedRow, w: nat): RowSeq
    requires WellFormedRow(row, w)
  {
    s.(timestamps := s.timestamps + RowTimestamps(row, w))
  }

  /** The key check against the last `RowSeq`, first failure first. */
  function KeyCheck(key: seq<byte>, lastKey: seq<byte>, w: nat): Option<Mismatch>
    requires w + TimestampBytes <= |key|
  {
    var tagsOffset := w + TimestampBytes;
    if |key| != |lastKey| then Some(KeyLengthMismatch)
    else if MemCmp(key, lastKey, 0, w) != 0 then Some(MetricMismatch)
    else if MemCmp(key, lastKey, tagsOffset, |key| - tagsOffset) != 0 then Some(TagsMismatch)
    else None
  }

  /** `last.timestamp(last.size() - 1)`, or 0 with no `RowSeq` yet. */
  function LastTimestamp(rows: seq<RowSeq>): nat
    requires rows != [] ==> rows[|rows| - 1].timestamps != []
  {
    if rows == [] then 0
    else
      var ts := rows[|rows| - 1].timestamps;
      ts[|ts| - 1]
  }

  /** Every `RowSeq` holds at least one sample. */
  ghost predicate NonEmpty(rows: seq<RowSeq>) {
    forall i | 0 <= i < |rows| :: rows[i].timestamps != []
  }

  datatype Added = Added(outcome: AddOutcome, rows: seq<RowSeq>)

  /** What `addRowToSeq` does to the list, and how it ends. */
  function AddRowToSeq(rows: seq<RowSeq>, row: CompactedRow, w: nat, fits: int -> bool): Added
    requires WellFormedRow(row, w) && NonEmpty(rows)
  {
    var n := |rows|;
    if n != 0 && KeyCheck(row.key, rows[n - 1].key, w).Some? then
      Added(Rejected(KeyCheck(row.key, rows[n - 1].key, w).value), rows)
    else if n != 0 && fits(LastTimestampInRow(w, row).value - rows[n - 1].baseTime) then
      Added(Merged, rows[n - 1 := MergeRow(rows[n - 1], row, w)])
    else if LastTimestamp(rows) >= NewRowSeq(row, w).timestamps[0] then
      Added(if n == 0 then OutOfOrderOnEmpty else DroppedOutOfOrder, rows)
    else
      Added(Appended, rows + [NewRowSeq(row, w)])
  }

  /** The `List<RowSeq>` of one series. */
  class Series {
    var rows: seq<RowSeq>

    ghost predicate Valid()
      reads this
    {
      NonEmpty(rows)
    }

    constructor ()
      ensures rows == [] && Valid()
    {
      rows := [];
    }

    /** `addRowToSeq(rows, row)`. */
    method AddRow(row: CompactedRow, w: nat, fits: int -> bool) returns (outcome: AddOutcome)
      requires Valid() && WellFormedRow(row, w)
      modifies this
      ensures Valid()
      ensures Added(outcome, rows) == AddRowToSeq(old(rows), row, w, fits)
    {
      var lastTs := 0;
      if |rows| != 0 {
        var key := row.key;
        var last := rows[|rows| - 1];
        var tagsOffset := w + TimestampBytes;
        var error: Option<Mismatch> := None;
        if |key| != |last.key| {
          error := Some(KeyLengthMismatch);
        } else if MemCmp(key, last.key, 0, w) != 0 {
          error := Some(MetricMismatch);
        } else if MemCmp(key, last.key, tagsOffset, |key| - tagsOffset) != 0 {
          error := Some(TagsMismatch);
        }
        if error.Some? {
          return Rejected(error.value);
        }
        lastTs := last.timestamps[|last.timestamps| - 1];
        if fits(LastTimestampInRow(w, row).value - last.baseTime) {
          rows := rows[|rows| - 1 := MergeRow(last, row, w)];
          return Merged;
        }
      }
      var rowseq := NewRowSeq(row, w);
      if lastTs >= rowseq.timestamps[0] {
        if |rows| == 0 {
          // rows.get(rows.size() - 1) in the log message.
          return OutOfOrderOnEmpty;
        }
        return DroppedOutOfOrder;
      }
      rows := rows + [rowseq];
      return Appended;
    }
  }

  // ---------------------------------------------------------------------
  // What one call does.
  // ---------------------------------------------------------------------

  lemma SliceEqualIff(a: seq<byte>, b: seq<byte>, lo: nat, hi: nat)
    requires lo <= hi <= |a| && hi <= |b|
    ensures a[lo..hi] == b[lo..hi] <==> forall j :: lo <= j < hi ==> a[j] == b[j]
  {
    if forall j :: lo <= j < hi ==> a[j] == b[j] {
      assert forall k :: 0 <= k < hi - lo ==> a[lo..hi][k] == b[lo..hi][k];
    }
  }

  /** The key check passes exactly when the row belongs to the same series
      as the last `RowSeq`: same length, and the same bytes everywhere but
      the base time. */
  lemma KeyCheckIsSameSeries(key: seq<byte>, lastKey: seq<byte>, w: nat)
    requires w + TimestampBytes <= |key|
    ensures KeyCheck(key, lastKey, w).None? <==> SameSeries(key, lastKey, w)
  {
    if |key| == |lastKey| {
      var t := w + TimestampBytes;
      MemCmpZeroIff(key, lastKey, 0, w);
      MemCmpZeroIff(key, lastKey, t, |key| - t);
      SliceEqualIff(key, lastKey, 0, w);
      SliceEqualIff(key, lastKey, t, |key|);
      assert 0 + w == w && t + (|key| - t) == |key|;
    }
  }

  /** A rejected row changes nothing, and only a row of another series is
      rejected. */
  lemma RejectLeavesRows(rows: seq<RowSeq>, row: CompactedRow, w: nat, fits: int -> bool)
    requires WellFormedRow(row, w) && NonEmpty(rows)
    ensures AddRowToSeq(rows, row, w, fits).outcome.Rejected? <==>
      rows != [] && !SameSeries(row.key, rows[|rows| - 1].key, w)
    ensures AddRowToSeq(rows, row, w, fits).outcome.Rejected? ==>
      AddRowToSeq(rows, row, w, fits).rows == rows
  {
    if rows != [] {
      KeyCheckIsSameSeries(row.key, rows[|rows| - 1].key, w);
    }
  }

  /** A row of the series whose first sample is not after the last sample
      held is dropped and changes nothing, unless it was merged. */
  lemma DropLeavesRows(rows: seq<RowSeq>, row: CompactedRow, w: nat, fits: int -> bool)
    requires WellFormedRow(row, w) && NonEmpty(rows)
    ensures var r := AddRowToSeq(rows, row, w, fits);
      r.outcome == DroppedOutOfOrder <==>
        && rows != [] && SameSeries(row.key, rows[|rows| - 1].key, w)
        && !fits(LastTimestampInRow(w, row).value - rows[|rows| - 1].baseTime)
        && RowTimestamps(row, w)[0] <= LastTimestamp(rows)
    ensures var r := AddRowToSeq(rows, row, w, fits);
      r.outcome == DroppedOutOfOrder ==> r.rows == rows
  {
    if rows != [] {
      KeyCheckIsSameSeries(row.key, rows[|rows| - 1].key, w);
    }
  }

  /** An appended row adds exactly one `RowSeq`, read from the row, after
      the last sample held. */
  lemma AppendAddsOne(rows: seq<RowSeq>, row: CompactedRow, w: nat, fits: int -> bool)
    requires WellFormedRow(row, w) && NonEmpty(rows)
    ensures var r := AddRowToSeq(rows, row, w, fits);
      r.outcome == Appended <==>
        && (rows != [] ==> SameSeries(row.key, rows[|rows| - 1].key, w)
                           && !fits(LastTimestampInRow(w, row).value - rows[|rows| - 1].baseTime))
        && LastTimestamp(rows) < RowTimestamps(row, w)[0]
    ensures var r := AddRowToSeq(rows, row, w, fits);
      r.outcome == Appended ==> r.rows == rows + [NewRowSeq(row, w)]
  {
    if rows != [] {
      KeyCheckIsSameSeries(row.key, rows[|rows| - 1].key, w);
    }
  }

  /** A merged row only extends the samples of the last `RowSeq`. */
  lemma MergeExtendsLast(rows: seq<RowSeq>, row: CompactedRow, w: nat, fits: int -> bool)
    requires WellFormedRow(row, w) && NonEmpty(rows)
    ensures var r := AddRowToSeq(rows, row, w, fits);
      r.outcome == Merged <==>
        && rows != [] && SameSeries(row.key, rows[|rows| - 1].key, w)
        && fits(LastTimestampInRow(w, row).value - rows[|rows| - 1].baseTime)
    ensures var r := AddRowToSeq(rows, row, w, fits);
      r.outcome == Merged ==>
        && |r.rows| == |rows|
        && r.rows[..|rows| - 1] == rows[..|rows| - 1]
        && r.rows[|rows| - 1].key == rows[|rows| - 1].key
        && r.rows[|rows| - 1].baseTime == rows[|rows| - 1].baseTime
        && r.rows[|rows| - 1].timestamps == rows[|rows| - 1].timestamps + RowTimestamps(row, w)
  {
    if rows != [] {
      KeyCheckIsSameSeries(row.key, rows[|rows| - 1].key, w);
    }
  }

  // ---------------------------------------------------------------------
  // What every call keeps.
  // ---------------------------------------------------------------------

  /** All `RowSeq`s of the list belong to one series. */
  ghost predicate OneSeries(rows: seq<RowSeq>, w: nat) {
    forall i, j | 0 <= i < |rows| && 0 <= j < |rows| :: SameSeries(rows[i].key, rows[j].key, w)
  }

  /** Every `RowSeq` starts after the previous one's last sample. */
  ghost predicate Ordered(rows: seq<RowSeq>)
    requires NonEmpty(rows)
  {
    forall i | 0 < i < |rows| ::
      var prev := rows[i - 1].timestamps;
      prev[|prev| - 1] < rows[i].timestamps[0]
  }

  /** Whatever the outcome, the list still holds one series. */
  lemma AddRowKeepsOneSeries(rows: seq<RowSeq>, row: CompactedRow, w: nat, fits: int -> bool)
    requires WellFormedRow(row, w) && NonEmpty(rows) && OneSeries(rows, w)
    ensures OneSeries(AddRowToSeq(rows, row, w, fits).rows, w)
  {
    var r := AddRowToSeq(rows, row, w, fits);
    var n := |rows|;
    if r.outcome == Appended && n != 0 {
      KeyCheckIsSameSeries(row.key, rows[n - 1].key, w);
      var out := r.rows;
      forall i, j | 0 <= i < |out| && 0 <= j < |out| ensures SameSeries(out[i].key, out[j].key, w) {
        if i == n || j == n {
          var k := if i == n then j else i;
          if k < n {
            assert SameSeries(rows[k].key, rows[n - 1].key, w);
          }
        }
      }
    } else if r.outcome == Merged {
      assert forall i | 0 <= i < n :: r.rows[i].key == rows[i].key;
    }
  }

  /** Whatever the outcome, each `RowSeq` still starts after the previous
      one ends. A merge may add samples earlier than those of the last
      `RowSeq`; the order inside one `RowSeq` is not checked. */
  lemma AddRowKeepsOrder(rows: seq<RowSeq>, row: CompactedRow, w: nat, fits: int -> bool)
    requires WellFormedRow(row, w) && NonEmpty(rows) && Ordered(rows)
    ensures NonEmpty(AddRowToSeq(rows, row, w, fits).rows)
    ensures Ordered(AddRowToSeq(rows, row, w, fits).rows)
  {
    var r := AddRowToSeq(rows, row, w, fits);
    if r.outcome == Merged {
      MergeKeepsOrder(rows, MergeRow(rows[|rows| - 1], row, w));
    } else if r.outcome == Appended {
      AppendKeepsOrder(rows, NewRowSeq(row, w));
    }
  }

  lemma MergeKeepsOrder(rows: seq<RowSeq>, last: RowSeq)
    requires NonEmpty(rows) && Ordered(rows) && rows != []
    requires last.timestamps != [] && last.timestamps[0] == rows[|rows| - 1].timestamps[0]
    ensures NonEmpty(rows[|rows| - 1 := last]) && Ordered(rows[|rows| - 1 := last])
  {
    var out := rows[|rows| - 1 := last];
    forall i | 0 < i < |out|
      ensures out[i - 1].timestamps[|out[i - 1].timestamps| - 1] < out[i].timestamps[0]
    {
      assert out[i - 1] == rows[i - 1];
    }
  }

  lemma AppendKeepsOrder(rows: seq<RowSeq>, next: RowSeq)
    requires NonEmpty(rows) && Ordered(rows)
    requires next.timestamps != [] && LastTimestamp(rows) < next.timestamps[0]
    ensures NonEmpty(rows + [next]) && Ordered(rows + [next])
  {
    var out := rows + [next];
    forall i | 0 < i < |out|
      ensures out[i - 1].timestamps[|out[i - 1].timestamps| - 1] < out[i].timestamps[0]
    {
      assert out[i - 1] == rows[i - 1];
    }
  }

  /** On a list with no `RowSeq` yet the key check never runs, so the row
      is never rejected; it is appended unless its first sample is at 0,
      and then the call throws instead of dropping it. */
  lemma FreshListNeverRejects(row: CompactedRow, w: nat, fits: int -> bool)
    requires WellFormedRow(row, w)
    ensures var r := AddRowToSeq([], row, w, fits);
      && (r.outcome == Appended <==> RowTimestamps(row, w)[0] > 0)
      && (r.outcome == OutOfOrderOnEmpty <==> RowTimestamps(row, w)[0] == 0)
      && (r.outcome == Appended ==> r.rows == [NewRowSeq(row, w)])
  {
  }

  /** The call throws at `rows.get(-1)` exactly when the list is empty and
      the row's first sample is at time 0; the list is then unchanged. */
  lemma OutOfOrderOnEmptyOnlyThere(rows: seq<RowSeq>, row: CompactedRow, w: nat, fits: int -> bool)
    requires WellFormedRow(row, w) && NonEmpty(rows)
    ensures var r := AddRowToSeq(rows, row, w, fits);
      r.outcome == OutOfOrderOnEmpty <==> rows == [] && RowTimestamps(row, w)[0] == 0
    ensures var r := AddRowToSeq(rows, row, w, fits);
      r.outcome == OutOfOrderOnEmpty ==> r.rows == rows
  {
  }
}

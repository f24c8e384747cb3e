/** The per-row work of `StorageQueryHbase.findSpans`: every row the scanner
    returns, batch after batch, must start with the query's metric id; each
    row goes to `addRowToSeq`, and a scan that returned no row gives `null`.

    `rows_map` is a `HashMap` keyed by `byte[]`, which compares keys by
    reference; every row the scanner hands over carries its own key array,
    so every lookup misses and every row is added to a fresh, empty list.
    On such a list `addRowToSeq` throws for a row whose first sample is at
    time 0, and the `catch (RuntimeException e)` passes that on.
    The `spans` map itself is not part of this model. */
module FindSpans {
  import opened Wrappers
  import opened Bytes
  import opened RowKey
  import opened RowAssembly

  datatype ScanError =
    | /** `IllegalDataException`: a row of another metric; it names the row. */
      IllegalData(key: seq<byte>)
    | /** `IndexOutOfBoundsException` out of `addRowToSeq`. */
      IndexOutOfBounds

  /** `null` when no row matched; otherwise the spans map, of which the
      model keeps the number of rows read. */
  datatype Found = NoSpans | Spans(nrows: nat)

  /** The rows of all batches, in the order the scanner returned them. */
  function Flatten(batches: seq<seq<CompactedRow>>): seq<CompactedRow> {
    if batches == [] then []
    else Flatten(batches[..|batches| - 1]) + batches[|batches| - 1]
  }

  lemma {:induction false} FlattenPrefix(batches: seq<seq<CompactedRow>>, b: nat)
    requires b <= |batches|
    ensures Flatten(batches[..b]) <= Flatten(batches)
    decreases |batches|
  {
    if b < |batches| {
      var init := batches[..|batches| - 1];
      assert init[..b] == batches[..b];
      FlattenPrefix(init, b);
    } else {
      assert batches[..b] == batches;
    }
  }

  lemma FlattenNext(batches: seq<seq<CompactedRow>>, b: nat)
    requires b < |batches|
    ensures Flatten(batches[..b + 1]) == Flatten(batches[..b]) + batches[b]
  {
    assert batches[..b + 1][..b] == batches[..b];
  }

  /** Every row of the scan: at least a metric id and a base time in its
      key and one cell, as `tsdb.compact` leaves it. */
  ghost predicate WellFormedBatches(batches: seq<seq<CompactedRow>>, w: nat) {
    forall b, i | 0 <= b < |batches| && 0 <= i < |batches[b]| :: WellFormedRow(batches[b][i], w)
  }

  /** The row's key starts with the query's metric id. */
  predicate OfMetric(key: seq<byte>, metric: seq<byte>, w: nat)
    requires w <= |metric|
  {
    metric[..w] <= key
  }

  /** The row passes the metric check and `addRowToSeq` on a fresh list
      returns normally: its first sample is after time 0. (Every row is well
      formed; the guard only makes the sample readable.) */
  predicate Accepted(row: CompactedRow, metric: seq<byte>, w: nat)
    requires w <= |metric|
  {
    OfMetric(row.key, metric, w) && WellFormedRow(row, w) && RowTimestamps(row, w)[0] > 0
  }

  /** The exception a row that is not accepted ends the scan with. */
  function Failure(row: CompactedRow, metric: seq<byte>, w: nat): ScanError
    requires w <= |metric|
  {
    if OfMetric(row.key, metric, w) then IndexOutOfBounds else IllegalData(row.key)
  }

  /** `k` is the first row of `rows` that is not accepted. */
  predicate FirstFailure(rows: seq<CompactedRow>, metric: seq<byte>, w: nat, k: nat)
    requires w <= |metric|
  {
    && k < |rows| && !Accepted(rows[k], metric, w)
    && forall j | 0 <= j < k :: Accepted(rows[j], metric, w)
  }

  /** One batch of `scanner.nextRows()`: the rows read, or the exception for
      the first row that is not accepted. */
  method ScanBatch(metric: seq<byte>, w: nat, rows: seq<CompactedRow>, fits: int -> bool)
    returns (r: Result<nat, ScanError>)
    requires w <= |metric|
    requires forall i | 0 <= i < |rows| :: WellFormedRow(rows[i], w)
    ensures r.Ok? <==> forall k | 0 <= k < |rows| :: Accepted(rows[k], metric, w)
    ensures r.Ok? ==> r.value == |rows|
    ensures r.Err? ==> exists k: nat :: FirstFailure(rows, metric, w, k) && r.error == Failure(rows[k], metric, w)
  {
    var i := 0;
    while i < |rows|
      invariant i <= |rows|
      invariant forall j | 0 <= j < i :: Accepted(rows[j], metric, w)
    {
      var row := rows[i];
      var key := row.key;
      MemCmpZeroIff(metric, key, 0, w);
      assert OfMetric(key, metric, w) <==> metric[0..w] == key[0..w];
      if MemCmp(metric, key, 0, w) != 0 {
        assert FirstFailure(rows, metric, w, i);
        return Err(IllegalData(key));
      }
      // rows_map.get(key) misses: the row gets a list of its own.
      var rowseqs := new Series();
      FreshListNeverRejects(row, w, fits);
      var outcome := rowseqs.AddRow(row, w, fits);
      if outcome == OutOfOrderOnEmpty {
        assert FirstFailure(rows, metric, w, i);
        return Err(IndexOutOfBounds);
      }
      i := i + 1;
    }
    return Ok(i);
  }

  /** A failing row of batch `b`, after batches of accepted rows only, is
      the first failing row of the whole scan. */
  lemma FailureInScan(batches: seq<seq<CompactedRow>>, metric: seq<byte>, w: nat, b: nat, k: nat)
    requires w <= |metric| && b < |batches|
    requires forall j | 0 <= j < |Flatten(batches[..b])| :: Accepted(Flatten(batches[..b])[j], metric, w)
    requires FirstFailure(batches[b], metric, w, k)
    ensures FirstFailure(Flatten(batches), metric, w, |Flatten(batches[..b])| + k)
    ensures Flatten(batches)[|Flatten(batches[..b])| + k] == batches[b][k]
  {
    var before, rows, all := Flatten(batches[..b]), batches[b], Flatten(batches);
    FlattenNext(batches, b);
    FlattenPrefix(batches, b + 1);
    assert before + rows <= all;
    forall j | 0 <= j < |before| + k ensures Accepted(all[j], metric, w) {
      if j < |before| {
        assert all[j] == before[j];
      } else {
        assert all[j] == rows[j - |before|];
      }
    }
    assert all[|before| + k] == rows[k];
  }

  /** `findSpans`, for the rows the scanner returns in `batches`. */
  method FindSpans(metric: seq<byte>, w: nat, batches: seq<seq<CompactedRow>>, fits: int -> bool)
    returns (r: Result<Found, ScanError>)
    requires w <= |metric| && WellFormedBatches(batches, w)
    ensures r.Ok? <==> forall k | 0 <= k < |Flatten(batches)| :: Accepted(Flatten(batches)[k], metric, w)
    ensures r.Err? ==> exists k: nat ::
      FirstFailure(Flatten(batches), metric, w, k) && r.error == Failure(Flatten(batches)[k], metric, w)
    ensures r.Ok? ==> r.value == if Flatten(batches) == [] then NoSpans else Spans(|Flatten(batches)|)
  {
    var nrows := 0;
    var b := 0;
    while b < |batches|
      invariant b <= |batches| && nrows == |Flatten(batches[..b])|
      invariant forall j | 0 <= j < |Flatten(batches[..b])| :: Accepted(Flatten(batches[..b])[j], metric, w)
    {
      var read := ScanBatch(metric, w, batches[b], fits);
      if read.Err? {
        ghost var k: nat :| FirstFailure(batches[b], metric, w, k) && read.error == Failure(batches[b][k], metric, w);
        FailureInScan(batches, metric, w, b, k);
        return Err(read.error);
      }
      FlattenNext(batches, b);
      nrows := nrows + read.value;
      b := b + 1;
    }
    assert batches[..b] == batches;
    if nrows == 0 {
      return Ok(NoSpans);
    }
    return Ok(Spans(nrows));
  }
}

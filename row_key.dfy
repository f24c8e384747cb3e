/** The row-key and qualifier layout the query side reads and writes:
    `metric id ‖ base time (4 bytes, big-endian, unsigned) ‖ tag pairs`,
    and 2-byte qualifiers holding a time delta above 4 flag bits. Covers the
    scan bounds of `StorageQueryHbase.getScanner` and
    `StorageQueryHbase.lastTimestampInRow`. */
module RowKey {
  import opened Wrappers
  import opened Bytes

  /** `Const.TIMESTAMP_BYTES`. */
  const TimestampBytes: nat := 4
  /** `Const.FLAG_BITS`: low bits of a qualifier that are not time. */
  const FlagBits: nat := 4
  /** Width of one qualifier of a second-resolution cell. */
  const QualifierBytes: nat := 2
  /** One more than the largest delta a qualifier can hold. */
  const DeltaLimit: nat := 4096

  /** A compacted row as the scan hands it over: its key and the
      concatenated qualifiers of its cells. */
  datatype CompactedRow = CompactedRow(key: seq<byte>, qualifier: seq<byte>)

  datatype RowError = MalformedRow

  /** `Bytes.getUnsignedInt(key, w)`: the base time of a row key. */
  function BaseTime(key: seq<byte>, w: nat): (t: nat)
    requires w + TimestampBytes <= |key|
    ensures t < TWO32
  {
    Pow256Widths();
    BigEndian(key[w..w + TimestampBytes])
  }

  // ---------------------------------------------------------------------
  // Scan bounds (getScanner).
  // ---------------------------------------------------------------------

  /** The first key to scan: the metric id, then `(int) start_time`. */
  function ScanStartKey(metric: seq<byte>, w: nat, startTime: int): seq<byte>
    requires w <= |metric|
  {
    metric[..w] + BE32(startTime)
  }

  /** The key the scan stops before: the metric id, then `(int) end_time`,
      or `-1` (all bits set) when no end time was given. */
  function ScanStopKey(metric: seq<byte>, w: nat, endTime: Option<int>): seq<byte>
    requires w <= |metric|
  {
    metric[..w] + BE32(if endTime.None? then -1 else endTime.value)
  }

  /** The 32-bit base time the stop key carries. */
  function StopTime(endTime: Option<int>): nat {
    if endTime.None? then TWO32 - 1 else endTime.value % TWO32
  }

  /** Both bounds are a metric id and a base time: `metric_width + 4` bytes,
      the given metric id first, the low 32 bits of the times after it, and
      an unset end time scans up to the largest base time there is. */
  lemma ScanKeysLayout(metric: seq<byte>, w: nat, startTime: int, endTime: Option<int>)
    requires w <= |metric|
    ensures var lo, hi := ScanStartKey(metric, w, startTime), ScanStopKey(metric, w, endTime);
      && |lo| == w + TimestampBytes && |hi| == w + TimestampBytes
      && lo[..w] == metric[..w] && hi[..w] == metric[..w]
      && BaseTime(lo, w) == startTime % TWO32
      && BaseTime(hi, w) == StopTime(endTime)
    ensures endTime.None? ==> ScanStopKey(metric, w, endTime)[w..] == [255, 255, 255, 255]
  {
    var lo, hi := ScanStartKey(metric, w, startTime), ScanStopKey(metric, w, endTime);
    assert lo[w..w + TimestampBytes] == BE32(startTime);
    assert hi[w..w + TimestampBytes] == hi[w..];
    if endTime.None? {
      AllOnes(hi[w..]);
    }
  }

  lemma AllOnes(bs: seq<byte>)
    requires |bs| == 4 && BigEndian(bs) == TWO32 - 1
    ensures bs == [255, 255, 255, 255]
  {
    var ones: seq<byte> := [255, 255, 255, 255];
    assert ones[..3] == [255, 255, 255] && ones[..3][..2] == [255, 255];
    assert ones[..3][..2][..1] == [255] && ones[..3][..2][..1][..0] == [];
    assert BigEndian([255]) == 255;
    assert BigEndian([255, 255]) == 65535;
    assert BigEndian([255, 255, 255]) == 16777215;
    assert BigEndian(ones) == TWO32 - 1;
    LexIsNumericOrder(bs, ones);
    LexIsNumericOrder(ones, bs);
    LexAntisymmetricSign(bs, ones);
  }

  /** Appending bytes to the shorter side of a same-length comparison only
      matters when the two were equal. */
  lemma {:induction false} LexExtend(x: seq<byte>, y: seq<byte>, tail: seq<byte>)
    requires |x| == |y|
    ensures Lex(x + tail, y) < 0 <==> Lex(x, y) < 0
    ensures Lex(y, x + tail) <= 0 <==> Lex(y, x) <= 0
    decreases |x|
  {
    if x != [] {
      assert (x + tail)[0] == x[0];
      assert (x + tail)[1..] == x[1..] + tail;
      LexExtend(x[1..], y[1..], tail);
    } else {
      assert x + tail == tail;
    }
  }

  /** On one length, `Lex(a, b) <= 0` is the numeric `<=`. */
  lemma LexAtMost(a: seq<byte>, b: seq<byte>)
    requires |a| == |b|
    ensures Lex(a, b) <= 0 <==> BigEndian(a) <= BigEndian(b)
  {
    LexIsNumericOrder(a, b);
    LexIsNumericOrder(b, a);
    LexAntisymmetricSign(a, b);
  }

  /** A row key `metric ‖ BE32(t) ‖ tags` of the scanned metric is at or
      after the start key exactly when its base time is at least the start
      time. */
  lemma ScanStartBound(metric: seq<byte>, w: nat, startTime: int, t: nat, tags: seq<byte>)
    requires w <= |metric| && t < TWO32
    ensures Lex(ScanStartKey(metric, w, startTime), metric[..w] + BE32(t) + tags) <= 0
            <==> startTime % TWO32 <= t
  {
    var m, lo, mid := metric[..w], BE32(startTime), BE32(t);
    assert m + mid + tags == m + (mid + tags);
    LexCommonPrefix(m, lo, mid + tags);
    LexExtend(mid, lo, tags);
    LexAtMost(lo, mid);
  }

  /** ... and before the stop key exactly when its base time is below the
      stop time. */
  lemma ScanStopBound(metric: seq<byte>, w: nat, endTime: Option<int>, t: nat, tags: seq<byte>)
    requires w <= |metric| && t < TWO32
    ensures Lex(metric[..w] + BE32(t) + tags, ScanStopKey(metric, w, endTime)) < 0
            <==> t < StopTime(endTime)
  {
    var m, mid := metric[..w], BE32(t);
    var e := if endTime.None? then -1 else endTime.value;
    var hi := BE32(e);
    assert BigEndian(hi) == StopTime(endTime) by {
      assert BigEndian(hi) == e % TWO32;
      if endTime.None? {
        assert -1 % TWO32 == TWO32 - 1;
      }
    }
    assert BigEndian(mid) == t;
    assert ScanStopKey(metric, w, endTime) == m + hi;
    assert m + mid + tags == m + (mid + tags);
    LexCommonPrefix(m, mid + tags, hi);
    LexExtend(mid, hi, tags);
    LexIsNumericOrder(mid, hi);
  }

  // ---------------------------------------------------------------------
  // Qualifiers and the timestamps of a compacted row.
  // ---------------------------------------------------------------------

  /** The time delta of one 2-byte qualifier: `getUnsignedShort >>> 4`. */
  function QualifierDelta(q: seq<byte>): nat
    requires |q| == QualifierBytes
  {
    BigEndian(q) / 16
  }

  /** The qualifier a cell with this delta and these flags is written with. */
  function EncodeQualifier(delta: nat, flags: nat): seq<byte>
    requires delta < DeltaLimit && flags < 16
  {
    BigEndianBytes(delta * 16 + flags, QualifierBytes)
  }

  lemma QualifierRoundTrip(delta: nat, flags: nat)
    requires delta < DeltaLimit && flags < 16
    ensures |EncodeQualifier(delta, flags)| == QualifierBytes
    ensures QualifierDelta(EncodeQualifier(delta, flags)) == delta
  {
    Pow256Widths();
    DivOfDecomposition(delta * 16 + flags, 16, delta, flags);
  }

  lemma DivOfDecomposition(n: int, d: int, k: int, t: int)
    requires d > 0 && 0 <= t < d && n == d * k + t
    ensures n / d == k
  {
    ModOfDecomposition(n, d, k, t);
  }

  /** `lastTimestampInRow`: the base time of the key plus the delta of the
      row's last qualifier. A key too short to hold a base time, or a row
      without a whole qualifier, is malformed. */
  function LastTimestampInRow(w: nat, row: CompactedRow): (r: Result<nat, RowError>)
    ensures r.Ok? <==> w + TimestampBytes <= |row.key| && QualifierBytes <= |row.qualifier|
    ensures r.Ok? ==> BaseTime(row.key, w) <= r.value < BaseTime(row.key, w) + DeltaLimit
  {
    if |row.key| < w + TimestampBytes || |row.qualifier| < QualifierBytes then Err(MalformedRow)
    else
      var q := row.qualifier;
      Pow256Widths();
      Ok(BaseTime(row.key, w) + QualifierDelta(q[|q| - QualifierBytes..]))
  }

  /** The last timestamp of a row built from a base time and a last cell is
      that base time plus that cell's delta. */
  lemma LastTimestampOfEncodedRow(metric: seq<byte>, w: nat, base: nat, tags: seq<byte>,
                                  cells: seq<byte>, delta: nat, flags: nat)
    requires w <= |metric| && base < TWO32 && delta < DeltaLimit && flags < 16
    ensures LastTimestampInRow(w, CompactedRow(metric[..w] + BE32(base) + tags,
                                               cells + EncodeQualifier(delta, flags)))
            == Ok(base + delta)
  {
    var key := metric[..w] + BE32(base) + tags;
    var last := EncodeQualifier(delta, flags);
    QualifierRoundTrip(delta, flags);
    BaseTimeOfKey(metric, w, base, tags);
    assert (cells + last)[|cells + last| - QualifierBytes..] == last;
  }

  /** The base time of a key built from one is that base time. */
  lemma BaseTimeOfKey(metric: seq<byte>, w: nat, base: nat, tags: seq<byte>)
    requires w <= |metric| && base < TWO32
    ensures w + TimestampBytes <= |metric[..w] + BE32(base) + tags|
    ensures BaseTime(metric[..w] + BE32(base) + tags, w) == base
  {
    var key := metric[..w] + BE32(base) + tags;
    assert key[w..w + TimestampBytes] == BE32(base);
  }

  /** A row the scan can hand over: a key holding a base time and a whole,
      non-empty run of qualifiers. */
  predicate WellFormedRow(row: CompactedRow, w: nat) {
    && w + TimestampBytes <= |row.key|
    && QualifierBytes <= |row.qualifier|
    && |row.qualifier| % QualifierBytes == 0
  }

  /** The timestamps of the samples of a compacted row, one per qualifier. */
  function RowTimestamps(row: CompactedRow, w: nat): (ts: seq<nat>)
    requires WellFormedRow(row, w)
    ensures |ts| == |row.qualifier| / QualifierBytes && |ts| > 0
  {
    var q := row.qualifier;
    seq(|q| / QualifierBytes, i requires 0 <= i < |q| / QualifierBytes =>
      BaseTime(row.key, w) + QualifierDelta(q[QualifierBytes * i..QualifierBytes * i + QualifierBytes]))
  }

  /** `lastTimestampInRow` reads the timestamp of the row's last sample. */
  lemma LastTimestampIsLastSample(row: CompactedRow, w: nat)
    requires WellFormedRow(row, w)
    ensures LastTimestampInRow(w, row) == Ok(RowTimestamps(row, w)[|RowTimestamps(row, w)| - 1])
  {
    var q := row.qualifier;
    var n := |q| / QualifierBytes;
    var ts := RowTimestamps(row, w);
    assert QualifierBytes * (n - 1) == |q| - QualifierBytes;
    assert q[QualifierBytes * (n - 1)..QualifierBytes * (n - 1) + QualifierBytes] == q[|q| - QualifierBytes..];
    assert ts[n - 1] == BaseTime(row.key, w) + QualifierDelta(q[|q| - QualifierBytes..]);
  }
}

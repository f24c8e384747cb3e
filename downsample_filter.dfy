/** `net.opentsdb.filter.DownsampleFilter`: a server-side cell filter that
    lets a cell through only when its time delta lies more than `interval`
    past the delta of the last cell it let through, the sum taken in 32-bit
    arithmetic. The interval arrives as a big-endian byte string; the filter
    serialises itself as its class name followed by that string. */
module Downsample {
  import opened Wrappers
  import opened Bytes

  /** The class name the filter is registered under. */
  const FilterName: string := "net.opentsdb.filter.DownsampleFilter"

  /** `FLAG_BITS`: low bits of a qualifier that are not time. */
  const FilterFlagBits: nat := 4

  /** One more than the largest delta `filterKeyValue` can compute: a 32-bit
      value shifted right by the flag bits. */
  const DeltaBound: nat := 0x1000_0000

  /** Room `toByteArray` leaves for the interval bytes. */
  const IntervalBytes: nat := 4

  /** `1 + 36 + 1 + 4`: the size of the serialised filter. */
  const SerializedLength: nat := 42

  /** `String.getBytes("ISO-8859-1")` for a text of code points below 256:
      one byte per character, holding its code. */
  function Latin1(s: string): (bs: seq<byte>)
    requires forall i | 0 <= i < |s| :: s[i] as int < 256
    ensures |bs| == |s| && forall i | 0 <= i < |s| :: bs[i] == s[i] as int
  {
    seq(|s|, i requires 0 <= i < |s| => s[i] as int)
  }

  /** `DOWNSAMPLE_FILTER`. */
  const FilterNameBytes: seq<byte> := Latin1(FilterName)

  // ---------------------------------------------------------------------
  // toInt.
  // ---------------------------------------------------------------------

  /** What `toInt` returns: the big-endian number the bytes denote, as a
      Java `int`, i.e. reduced modulo 2^32. */
  function IntValue(buf: seq<byte>): Int32 {
    Wrap32(BigEndian(buf))
  }

  /** Numbers congruent modulo 2^32 are the same `int`. */
  lemma Wrap32Congruent(x: int, y: int)
    requires (x - y) % TWO32 == 0
    ensures Wrap32(x) == Wrap32(y)
  {
    var q := (x - y) / TWO32;
    assert x - y == TWO32 * q;
    assert x == TWO32 * (y / TWO32 + q) + y % TWO32;
    ModOfDecomposition(x, TWO32, y / TWO32 + q, y % TWO32);
  }

  /** `(val << 8) | (b & 0xFF)` on the `int` of `x` is the `int` of
      `x * 256 + b`: the shift clears the low byte, which the `|` fills. */
  lemma ShiftInByte(x: int, b: byte)
    ensures Wrap32(Wrap32(x) * 256) + b == Wrap32(x * 256 + b)
  {
    var r := Wrap32(x);
    var q := (r - x) / TWO32;
    assert r - x == TWO32 * q;
    assert r * 256 - x * 256 == TWO32 * (q * 256);
    ModOfDecomposition(r * 256 - x * 256, TWO32, q * 256, 0);
    Wrap32Congruent(r * 256, x * 256);
    var y := x * 256;
    var hi, k := x / 0x100_0000, x % 0x100_0000;
    assert y == TWO32 * hi + 256 * k;
    ModOfDecomposition(y, TWO32, hi, 256 * k);
    ModOfDecomposition(y + b, TWO32, hi, 256 * k + b);
    assert k < 0x80_0000 <==> 256 * k < 0x8000_0000;
    assert k < 0x80_0000 <==> 256 * k + b < 0x8000_0000;
  }

  lemma {:induction false} BigEndianAppend(a: seq<byte>, b: seq<byte>)
    ensures BigEndian(a + b) == BigEndian(a) * Pow256(|b|) + BigEndian(b)
    decreases |b|
  {
    if b == [] {
      assert a + b == a;
    } else {
      var init := b[..|b| - 1];
      assert (a + b)[..|a + b| - 1] == a + init;
      BigEndianAppend(a, init);
      Regroup(BigEndian(a), Pow256(|init|), BigEndian(init), b[|b| - 1]);
    }
  }

  /** `toInt` keeps only the last four bytes of a longer buffer. */
  lemma IntValueLastFour(buf: seq<byte>)
    requires |buf| >= IntervalBytes
    ensures IntValue(buf) == IntValue(buf[|buf| - IntervalBytes..])
  {
    var front, last := buf[..|buf| - IntervalBytes], buf[|buf| - IntervalBytes..];
    assert buf == front + last;
    BigEndianAppend(front, last);
    Pow256Widths();
    ModOfDecomposition(BigEndian(buf) - BigEndian(last), TWO32, BigEndian(front), 0);
    Wrap32Congruent(BigEndian(buf), BigEndian(last));
  }

  /** Of at most four bytes, the unsigned reading of `toInt` is the number
      the bytes denote. */
  lemma IntValueOfShortBuffer(buf: seq<byte>)
    requires |buf| <= IntervalBytes
    ensures Unsigned32(IntValue(buf)) == BigEndian(buf)
  {
    Pow256Widths();
    assert Pow256(|buf|) <= TWO32 by {
      assert Pow256(1) == 256 && Pow256(3) == 0x100_0000;
    }
  }

  /** `toInt` reads back the `int` that `Bytes.setInt` wrote. */
  lemma IntValueOfBE32(x: int)
    ensures IntValue(BE32(x)) == Wrap32(x)
  {
    assert x % TWO32 - x == TWO32 * -(x / TWO32);
    ModOfDecomposition(x % TWO32 - x, TWO32, -(x / TWO32), 0);
    Wrap32Congruent(x % TWO32, x);
  }

  // ---------------------------------------------------------------------
  // filterKeyValue.
  // ---------------------------------------------------------------------

  /** The part of an HBase `KeyValue` the filter looks at: its backing
      buffer and where in it the qualifier lies. */
  datatype KeyValue = KeyValue(buffer: seq<byte>, qualifierOffset: nat, qualifierLength: nat)

  datatype ReturnCode = Include | Skip

  /** The answer for one cell and the `lastDelta` it leaves behind. */
  datatype Outcome = Outcome(code: ReturnCode, lastDelta: Int32)

  /** The delta `filterKeyValue` computes: `toInt` of the whole backing
      buffer, shifted right (unsigned) past the flag bits. */
  function CellDelta(buffer: seq<byte>): (d: nat)
    ensures d < DeltaBound
  {
    Unsigned32(IntValue(buffer)) / 16
  }

  /** When the buffer is exactly a 2-byte qualifier, the delta is the one
      the qualifier encodes. */
  lemma CellDeltaOfQualifier(q: seq<byte>)
    requires |q| == 2
    ensures CellDelta(q) == BigEndian(q) / 16
  {
    IntValueOfShortBuffer(q);
  }

  /** The qualifier offset is not consulted: a cell whose qualifier
      `00 10` (delta 1) sits after two other bytes of the buffer gets the
      delta of all four bytes, 4097. */
  lemma CellDeltaReadsWholeBuffer()
    ensures var v := KeyValue([0, 1, 0, 0x10], 2, 2);
      && BigEndian(v.buffer[v.qualifierOffset..v.qualifierOffset + v.qualifierLength]) / 16 == 1
      && CellDelta(v.buffer) == 4097
  {
    var buf: seq<byte> := [0, 1, 0, 0x10];
    assert buf[2..4] == [0, 0x10] && [0, 0x10][..1] == [0] && [0][..0] == [];
    assert BigEndian([0]) == 0;
    assert BigEndian([0, 0x10]) == 0x10;
    assert buf[..3] == [0, 1, 0] && buf[..3][..2] == [0, 1] && buf[..3][..2][..1] == [0];
    assert BigEndian([0, 1]) == 1;
    assert BigEndian([0, 1, 0]) == 0x100;
    assert BigEndian(buf) == 0x10010;
  }

  /** One call of `filterKeyValue` from `lastDelta`. */
  function Step(lastDelta: Int32, interval: Int32, v: KeyValue): Outcome {
    if v.qualifierLength > 0 && Wrap32(lastDelta + interval) < CellDelta(v.buffer) then
      Outcome(Include, CellDelta(v.buffer))
    else
      Outcome(Skip, lastDelta)
  }

  /** A cell without a qualifier is skipped and changes nothing. */
  lemma EmptyQualifierSkips(lastDelta: Int32, interval: Int32, v: KeyValue)
    requires v.qualifierLength == 0
    ensures Step(lastDelta, interval, v) == Outcome(Skip, lastDelta)
  {
  }

  /** The states a filter reaches from `lastDelta = 0` with a fixed
      interval: `lastDelta` is a delta, and above the interval once set. */
  predicate Reachable(lastDelta: Int32, interval: Int32) {
    0 <= lastDelta < DeltaBound && (lastDelta == 0 || interval < lastDelta)
  }

  /** From a reachable state the sum `lastDelta + interval` does not wrap,
      so a cell is included exactly when its delta exceeds the last one by
      more than the interval; an included cell's delta becomes `lastDelta`,
      a skipped cell leaves it, and the new state is reachable again. */
  lemma StepFromReachable(lastDelta: Int32, interval: Int32, v: KeyValue)
    requires Reachable(lastDelta, interval)
    ensures var o := Step(lastDelta, interval, v);
      && (o.code == Include <==> v.qualifierLength > 0 && CellDelta(v.buffer) > lastDelta + interval)
      && (o.code == Include ==> o.lastDelta == CellDelta(v.buffer))
      && (o.code == Skip ==> o.lastDelta == lastDelta)
      && Reachable(o.lastDelta, interval)
  {
    assert -0x8000_0000 <= lastDelta + interval < 0x8000_0000;
  }

  /** Once the sum wraps, every cell with a qualifier is included, whatever
      its delta. From a fresh filter the sum never wraps (see
      `StepFromReachable`); `readFields` may raise the interval under a
      `lastDelta` already set, which leaves such a state. */
  lemma WrappedSumIncludesAll(lastDelta: Int32, interval: Int32, v: KeyValue)
    requires Wrap32(lastDelta + interval) < 0 && v.qualifierLength > 0
    ensures Step(lastDelta, interval, v) == Outcome(Include, CellDelta(v.buffer))
  {
  }

  /** An instance: from `lastDelta = 16` with the interval `0x7FFF_FFFF`,
      a cell of delta 0, below `lastDelta`, is included. */
  lemma WrappedSumIncludesEarlierDelta()
    ensures Step(16, 0x7FFF_FFFF, KeyValue([0, 0], 0, 2)) == Outcome(Include, 0)
  {
    assert [0, 0][..1] == [0] && [0][..0] == [];
    assert Wrap32(16 + 0x7FFF_FFFF) < 0;
    WrappedSumIncludesAll(16, 0x7FFF_FFFF, KeyValue([0, 0], 0, 2));
  }

  /** The deltas of the cells included over a run of calls. */
  function Included(lastDelta: Int32, interval: Int32, cells: seq<KeyValue>): seq<int>
    decreases |cells|
  {
    if cells == [] then []
    else
      var o := Step(lastDelta, interval, cells[0]);
      (if o.code == Include then [o.lastDelta] else []) + Included(o.lastDelta, interval, cells[1..])
  }

  /** Over any run from a reachable state, the first included delta exceeds
      the starting `lastDelta` by more than the interval, and each later one
      exceeds the one included before it by more than the interval. */
  lemma {:induction false} IncludedSpread(lastDelta: Int32, interval: Int32, cells: seq<KeyValue>)
    requires Reachable(lastDelta, interval)
    ensures var ds := Included(lastDelta, interval, cells);
      && (forall i | 0 <= i < |ds| :: 0 <= ds[i] < DeltaBound)
      && (|ds| > 0 ==> ds[0] > lastDelta + interval)
      && (forall i | 0 < i < |ds| :: ds[i] > ds[i - 1] + interval)
    decreases |cells|
  {
    if cells != [] {
      var o := Step(lastDelta, interval, cells[0]);
      StepFromReachable(lastDelta, interval, cells[0]);
      IncludedSpread(o.lastDelta, interval, cells[1..]);
      var rest := Included(o.lastDelta, interval, cells[1..]);
      if o.code == Include {
        var ds := [o.lastDelta] + rest;
        assert Included(lastDelta, interval, cells) == ds;
        forall i | 0 < i < |ds| ensures ds[i] > ds[i - 1] + interval {
          assert ds[i] == rest[i - 1];
          if i > 1 {
            assert ds[i - 1] == rest[i - 2];
          }
        }
      } else {
        assert Included(lastDelta, interval, cells) == rest;
      }
    }
  }

  /** With a non-negative interval, a fresh filter includes strictly
      increasing deltas, the first of them above the interval: a cell with
      delta at most the interval is never the first one included. */
  lemma IncludedIncreasing(interval: Int32, cells: seq<KeyValue>)
    requires interval >= 0
    ensures var ds := Included(0, interval, cells);
      && (|ds| > 0 ==> ds[0] > interval)
      && (forall i, j | 0 <= i < j < |ds| :: ds[i] < ds[j])
  {
    IncludedSpread(0, interval, cells);
    AdjacentIncreasing(Included(0, interval, cells));
  }

  lemma {:induction false} AdjacentIncreasing(ds: seq<int>)
    requires forall i | 0 < i < |ds| :: ds[i - 1] < ds[i]
    ensures forall i, j | 0 <= i < j < |ds| :: ds[i] < ds[j]
    decreases |ds|
  {
    if |ds| > 1 {
      var init := ds[..|ds| - 1];
      AdjacentIncreasing(init);
      forall i, j | 0 <= i < j < |ds| ensures ds[i] < ds[j] {
        if j < |ds| - 1 {
          assert init[i] < init[j];
        } else if i < j - 1 {
          assert init[i] < init[j - 1];
        }
      }
    }
  }

  /** With a negative interval the deltas need not increase: the interval
      `FF FF FF FF` is -1, and a delta equal to the last one is included
      again. */
  lemma NegativeIntervalRepeats()
    ensures IntValue([255, 255, 255, 255]) == -1
    ensures var c := KeyValue([0, 0x50], 0, 2);
      Included(0, -1, [c, c]) == [5, 5]
  {
    var ones: seq<byte> := [255, 255, 255, 255];
    assert ones[..3] == [255, 255, 255] && ones[..3][..2] == [255, 255];
    assert ones[..3][..2][..1] == [255] && ones[..3][..2][..1][..0] == [];
    assert BigEndian([255]) == 255;
    assert BigEndian([255, 255]) == 0xFFFF;
    assert BigEndian([255, 255, 255]) == 0xFF_FFFF;
    assert BigEndian(ones) == TWO32 - 1;
    var c := KeyValue([0, 0x50], 0, 2);
    assert [0, 0x50][..1] == [0] && [0][..0] == [];
    assert CellDelta(c.buffer) == 5;
    assert [c, c][1..] == [c];
    assert Step(0, -1, c) == Outcome(Include, 5);
    assert Step(5, -1, c) == Outcome(Include, 5);
    assert Included(5, -1, [c]) == [5];
  }

  // ---------------------------------------------------------------------
  // toByteArray.
  // ---------------------------------------------------------------------

  /** `ByteBuffer.put` past the end of the 42-byte array. */
  datatype SerializeError = BufferOverflow

  /** `IllegalArgumentException("Expected 1 argument")`. */
  datatype ArgumentError = ExpectedOneArgument

  function Zeros(n: nat): (z: seq<byte>)
    ensures |z| == n && forall i | 0 <= i < n :: z[i] == 0
  {
    seq(n, _ => 0)
  }

  /** The array `toByteArray` returns for an interval buffer that fits: the
      name's length, the name, the buffer's length, the buffer, and the
      untouched zero bytes after it. */
  function Serialized(intervalBuf: seq<byte>): seq<byte>
    requires |intervalBuf| <= IntervalBytes
  {
    [|FilterNameBytes|] + FilterNameBytes + [|intervalBuf|] + intervalBuf + Zeros(IntervalBytes - |intervalBuf|)
  }

  /** Reading a serialised filter back: the interval buffer, when the bytes
      have the layout `toByteArray` writes. */
  function Deserialize(bs: seq<byte>): (r: Option<seq<byte>>)
    ensures r.Some? ==> |r.value| <= IntervalBytes
  {
    if |bs| == SerializedLength && bs[0] == |FilterNameBytes| && bs[1..37] == FilterNameBytes
       && bs[37] <= IntervalBytes
    then Some(bs[38..38 + bs[37]])
    else None
  }

  /** The layout: 42 bytes; byte 0 is 36; bytes 1-36 are the class name in
      ISO-8859-1; byte 37 is the interval buffer's length; the buffer
      follows, and zeros fill the rest. */
  lemma SerializedLayout(intervalBuf: seq<byte>)
    requires |intervalBuf| <= IntervalBytes
    ensures var bs := Serialized(intervalBuf);
      && |FilterNameBytes| == 36
      && |bs| == SerializedLength && bs[0] == 36
      && bs[1..37] == FilterNameBytes
      && (forall i | 0 <= i < |FilterName| :: bs[1 + i] == FilterName[i] as int)
      && bs[37] == |intervalBuf|
      && bs[38..38 + |intervalBuf|] == intervalBuf
      && (forall i | 38 + |intervalBuf| <= i < SerializedLength :: bs[i] == 0)
  {
    var bs := Serialized(intervalBuf);
    var n := |intervalBuf|;
    assert bs[1..37] == FilterNameBytes;
    assert bs[38..38 + n] == intervalBuf;
    forall i | 38 + n <= i < SerializedLength ensures bs[i] == 0 {
      assert bs[i] == Zeros(IntervalBytes - n)[i - 38 - n];
    }
  }

  /** Reading back what `toByteArray` wrote gives the interval buffer. */
  lemma SerializedRoundTrip(intervalBuf: seq<byte>)
    requires |intervalBuf| <= IntervalBytes
    ensures Deserialize(Serialized(intervalBuf)) == Some(intervalBuf)
  {
    SerializedLayout(intervalBuf);
  }

  // ---------------------------------------------------------------------
  // The filter object.
  // ---------------------------------------------------------------------

  class DownsampleFilter {
    var intervalBuf: seq<byte>
    var interval: Int32
    var lastDelta: Int32

    /** `DownsampleFilter(interval_buf)`. */
    constructor (intervalBuf: seq<byte>)
      ensures this.intervalBuf == intervalBuf && interval == IntValue(intervalBuf) && lastDelta == 0
      ensures Reachable(lastDelta, interval)
    {
      var value := ToInt(intervalBuf);
      this.intervalBuf := intervalBuf;
      interval := value;
      lastDelta := 0;
    }

    /** `toInt`: shift each byte in from the right, in `int` arithmetic. */
    static method ToInt(buf: seq<byte>) returns (val: Int32)
      ensures val == IntValue(buf)
    {
      val := 0;
      for i := 0 to |buf|
        invariant val == IntValue(buf[..i])
      {
        assert buf[..i + 1][..i] == buf[..i];
        ShiftInByte(BigEndian(buf[..i]), buf[i]);
        val := Wrap32(val * 256) + buf[i];
      }
      assert buf[..|buf|] == buf;
    }

    /** `filterKeyValue`. */
    method FilterKeyValue(v: KeyValue) returns (code: ReturnCode)
      modifies this
      ensures Outcome(code, lastDelta) == Step(old(lastDelta), interval, v)
      ensures intervalBuf == old(intervalBuf) && interval == old(interval)
      ensures old(Reachable(lastDelta, interval)) ==> Reachable(lastDelta, interval)
    {
      var length := v.qualifierLength;
      if length > 0 {
        var buf := v.buffer;
        var delta := ToInt(buf);
        // (delta & 0xFFFFFFFF) >>> FLAG_BITS: an unsigned shift of the int.
        var shifted := Unsigned32(delta) / 16;
        if Wrap32(lastDelta + interval) < shifted {
          lastDelta := shifted;
          return Include;
        }
      }
      if Reachable(lastDelta, interval) {
        StepFromReachable(lastDelta, interval, v);
      }
      return Skip;
    }

    /** `toByteArray`: fill a 42-byte array through a `ByteBuffer`. An
        interval buffer longer than the four bytes left overflows it. */
    method ToByteArray() returns (r: Result<array<byte>, SerializeError>)
      ensures r.Ok? <==> |intervalBuf| <= IntervalBytes
      ensures r.Ok? ==> fresh(r.value) && r.value[..] == Serialized(intervalBuf)
    {
      var out := new byte[SerializedLength](_ => 0);
      ghost var zeros := out[..];
      out[0] := |FilterNameBytes|;
      PutBytes(out, 1, FilterNameBytes);
      var len := |intervalBuf|;
      out[37] := len % 256;
      if len > IntervalBytes {
        return Err(BufferOverflow);
      }
      PutBytes(out, 38, intervalBuf);
      assert out[..] == Serialized(intervalBuf) by {
        assert out[..38] == [|FilterNameBytes|] + FilterNameBytes + [len];
        assert out[38..38 + len] == intervalBuf;
        assert out[38 + len..] == zeros[38 + len..] == Zeros(IntervalBytes - len);
        assert out[..] == out[..38] + out[38..38 + len] + out[38 + len..];
      }
      return Ok(out);
    }

    /** `ByteBuffer.put(src)` at position `pos`: the bytes of `src`, one by
        one, over the array's bytes from `pos` on. */
    static method PutBytes(out: array<byte>, pos: nat, src: seq<byte>)
      requires pos + |src| <= out.Length
      modifies out
      ensures out[..] == old(out[..pos]) + src + old(out[pos + |src|..])
    {
      for i := 0 to |src|
        invariant out[..] == old(out[..pos]) + src[..i] + old(out[pos + i..])
      {
        out[pos + i] := src[i];
        assert src[..i + 1] == src[..i] + [src[i]];
      }
      assert src[..|src|] == src;
    }

    /** `createFilterFromArguments`: exactly one argument, from which
        `ParseFilter.removeQuotesFromByteArray` (here `unquote`) takes the
        interval buffer. */
    static method CreateFilterFromArguments(args: seq<seq<byte>>, unquote: seq<byte> -> seq<byte>)
      returns (r: Result<DownsampleFilter, ArgumentError>)
      ensures r.Err? <==> |args| != 1
      ensures r.Ok? ==> && fresh(r.value) && r.value.intervalBuf == unquote(args[0])
                        && r.value.interval == IntValue(unquote(args[0])) && r.value.lastDelta == 0
    {
      if |args| != 1 {
        return Err(ExpectedOneArgument);
      }
      var intervalBuf := unquote(args[0]);
      var filter := new DownsampleFilter(intervalBuf);
      return Ok(filter);
    }

    /** `readFields`, given the byte out `Bytes.readByteArray` decoded:
        a new interval, and `lastDelta` as it was. */
    method ReadFields(bytes: seq<byte>)
      modifies this
      ensures intervalBuf == bytes && interval == IntValue(bytes) && lastDelta == old(lastDelta)
    {
      intervalBuf := bytes;
      interval := ToInt(intervalBuf);
    }
  }
}

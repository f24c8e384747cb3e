# OpenTSDB HBase query core and downsample filter, in Dafny

This project models two pieces of an OpenTSDB fork's storage layer.

**The HBase query side, `StorageQueryHbase`.** It turns a query into an HBase scan and turns the rows the scan returns into spans. The model covers:

- the row-key range of the scan: metric id ‖ 32-bit base time;
- the server-side row-key regular expression:
  - it skips the metric id and base time;
  - it finds every wanted tag and every group-by tag name, in ascending name-id order, each quoted as a `\Q…\E` literal;
  - group-by values are either free or limited to an allow-list;
- the quoting of binary ids inside that expression, as `addId` writes it, and the corrected quoting it evidently intends;
- the span comparator, which orders row keys while ignoring their base time;
- the last timestamp of a compacted row;
- the assembly of compacted rows into the list of `RowSeq`s of a series: merge, drop out of order, append, or reject a row of another series;
- the per-row checks of the scan loop, which refuse a row of another metric.

**The server-side cell filter, `DownsampleFilter`.**

- It decodes a big-endian interval.
- It lets a cell through only when the cell's time delta lies more than that interval past the delta of the last cell it let through, with the sum taken in 32-bit arithmetic (so once the sum wraps, every cell with a qualifier gets through).
- It serialises itself as its class name followed by the interval bytes.

Modules:

- `Bytes`: Java bytes as unsigned values, `int` wrap-around, `memcmp`, big-endian numbers and decimal text.
- `RowKey`: the row-key and qualifier layout, the scan bounds and `lastTimestampInRow`.
- `SpanCompare`: `SpanCmp`.
- `RegexQuote`: `addId` as written and as corrected, and the meaning `java.util.regex` gives to `\Q`, `\E` and `\\`.
- `KeyRegex`: `isTagNext` and `createAndSetFilter`.
- `Scanner`: `getScanner`.
- `RowAssembly`: `addRowToSeq`.
- `FindSpans`: `findSpans`.
- `Downsample`: `DownsampleFilter`.

Widths are parameters:

- `mw` or `w` is the metric-id width;
- `nw` is the tag-name-id width;
- `vw` is the tag-value-id width.

Java exceptions become `Err` values of a `Result`. `null` becomes `None` of an `Option`.

## Model

| member | source | states |
|---|---|---|
| Bytes.MemCmpZeroIff | src/core/StorageQueryHbase.java:99 | `memcmp` over a range is 0 exactly when the two ranges hold the same bytes |
| Bytes.LexIsNumericOrder | src/core/StorageQueryHbase.java:222-226 | on keys of one length, the unsigned byte order is the numeric order of the big-endian numbers, and equality means equal bytes |
| Bytes.BE32 | src/core/StorageQueryHbase.java:222-226 | `Bytes.setInt` writes four bytes whose big-endian value is the low 32 bits of the time, as `(int)` truncation leaves them |
| RowKey.ScanKeysLayout | src/core/StorageQueryHbase.java:213-228 | start and stop keys are `metric_width + 4` bytes long; they begin with the metric id and carry `start_time mod 2^32` and `end_time mod 2^32`; an unset end time gives `FF FF FF FF` |
| RowKey.ScanStartBound | src/core/StorageQueryHbase.java:222-230 | a key `metric ‖ BE32(t) ‖ tags` is at or after the start key iff `start_time mod 2^32 <= t` |
| RowKey.ScanStopBound | src/core/StorageQueryHbase.java:223-231 | such a key is before the stop key iff `t` is below the stop time (`2^32 - 1` when unset) |
| Scanner.GetScanner | src/core/StorageQueryHbase.java:212-238 | the scan's start and stop keys are the bounds above. A key filter is set iff there are tags or the group-by list exists, and it is the expression `createAndSetFilter` as written builds. Its errors, the negative `StringBuilder` capacity among them, are passed on; the group-bys come back sorted |
| Scanner.ScanRange | src/core/StorageQueryHbase.java:222-231 | a key of the metric is inside the scan range iff its base time lies between the start time and the stop time |
| RowKey.QualifierRoundTrip | src/core/StorageQueryHbase.java:204-205 | `getUnsignedShort(q) >>> FLAG_BITS` recovers the delta written above the 4 flag bits |
| RowKey.LastTimestampInRow | src/core/StorageQueryHbase.java:200-207 | defined iff the key holds a base time and there is a whole last qualifier; the result lies in `[base_time, base_time + 4096)` |
| RowKey.LastTimestampOfEncodedRow | src/core/StorageQueryHbase.java:200-207 | for a key with base time `b` and a last cell with delta `d`, the result is `b + d` |
| RowKey.LastTimestampIsLastSample | src/core/StorageQueryHbase.java:200-207 | the result is the timestamp of the row's last sample |
| SpanCompare.SpanCmp.Compare | src/core/StorageQueryHbase.java:361-380 | the two loops compute the span order: metric-id bytes, then the bytes after the base time, then the length difference |
| SpanCompare.SpanOrderZeroIff | src/core/StorageQueryHbase.java:361-380 | the comparator returns 0 iff the keys have one length and agree on every byte outside the base time |
| SpanCompare.SpanOrderIgnoresTimestamp | src/core/StorageQueryHbase.java:368-379 | two keys that differ only in bytes `[metric_width, metric_width + 4)` compare equal |
| SpanCompare.SpanOrderFirstDifference | src/core/StorageQueryHbase.java:368-378 | the result is the unsigned difference of the first differing byte outside the base time |
| SpanCompare.SpanOrderNoDifference | src/core/StorageQueryHbase.java:379 | without such a byte, the result is `a.length - b.length` |
| SpanCompare.SpanOrderAntisymmetric | src/core/StorageQueryHbase.java:361-380 | `compare(a, b) == -compare(b, a)` |
| SpanCompare.SpanOrderTransitive | src/core/StorageQueryHbase.java:361-380 | `<=` and `<` under the comparator are transitive, as a `TreeMap` comparator must be |
| RegexQuote.Chars | src/core/StorageQueryHbase.java:338 | each id byte is written as the char `(char) (b & 0xFF)` |
| RegexQuote.AddId | src/core/StorageQueryHbase.java:335-348 | the corrected loop (flag cleared after the re-quote) appends the quoted id ending in `\E`; after `\Q`, that text denotes exactly the id's bytes |
| RegexQuote.AddIdAsWritten | src/core/StorageQueryHbase.java:335-348 | the loop as written appends `QuoteIdAsWritten(id)`, flag left set after the re-quote; on an id without a backslash, after `\Q`, that text denotes exactly the id's bytes |
| RegexQuote.QuoteDenotes | src/core/StorageQueryHbase.java:337-347 | inside a quote, the text written for an id denotes its bytes, up to the closing `\E` |
| RegexQuote.QuoteDenotesAfterBackslash | src/core/StorageQueryHbase.java:339-342 | after a quoted backslash, an `E` followed by `\\E\Q` re-supplies the `\E` the quote lost |
| RegexQuote.QuotedIdRoundTrip | src/core/StorageQueryHbase.java:335-348 | `\Q` plus the quoted id reads back as the id's bytes |
| RegexQuote.QuoteAsWrittenAgreesWithoutBackslash | src/core/StorageQueryHbase.java:335-348 | on ids without a backslash, the loop as written and the corrected one agree |
| RegexQuote.QuoteAsWrittenAddsBackslash | src/core/StorageQueryHbase.java:339-345 | the loop as written turns the id `\EE` into a literal that denotes `\EE\` |
| KeyRegex.IsTagNextOrder | src/core/StorageQueryHbase.java:315-330 | fails iff both a tag and a group-by are present and their name ids are equal; otherwise the tag goes next iff there is no group-by, or the tag's name id is smaller |
| KeyRegex.NameOrder | src/core/StorageQueryHbase.java:323 | `memcmp(tag, group_by, 0, name_width)` is the byte order of the two name ids |
| KeyRegex.MergeInterleaves | src/core/StorageQueryHbase.java:276-301 | the walk writes every tag and every group-by, each list in its own order, and nothing else |
| KeyRegex.MergeAscending | src/core/StorageQueryHbase.java:274-301 | with both lists sorted by name id, the walk writes name ids in ascending order |
| KeyRegex.MergeFailsIffShared | src/core/StorageQueryHbase.java:276-330 | on sorted lists, the walk throws iff some tag and some group-by share a name id |
| KeyRegex.MergeNeverEmpty | src/core/StorageQueryHbase.java:276-301 | the walk alone never reaches the `addId(buf, null)` failure, nor the capacity failure that comes before it |
| KeyRegex.SortIdsSorted | src/core/StorageQueryHbase.java:247-249 | the sort leaves the group-bys a `memcmp`-sorted permutation of themselves |
| KeyRegex.SortedGroupBysByName | src/core/StorageQueryHbase.java:247-249 | group-by name ids sorted by bytes are sorted by name id |
| KeyRegex.LiteralDenotes | src/core/StorageQueryHbase.java:279-281 | `\Q` followed by what `addId` as written appends for an id without a backslash byte matches exactly that id's bytes |
| KeyRegex.AllowListShape | src/core/StorageQueryHbase.java:289-297 | a non-empty allow-list is `(?:` followed by the quoted values separated by pipe characters, then `)`; an empty one leaves `(?)` |
| KeyRegex.AlternativesJoin | src/core/StorageQueryHbase.java:291-295 | the loop writes the values separated by pipe characters, with one more pipe at the end |
| KeyRegex.CapacityWithinShort | src/core/StorageQueryHbase.java:250-259 | when `name_width + value_width` fits a `short` and the estimate fits an `int`, the `StringBuilder` capacity is `15 + (13 + tagsize) * (tags + 3 * group_bys)` and is not negative |
| KeyRegex.WideTagSizeNegativeCapacity | src/core/StorageQueryHbase.java:250-259 | widths of 20000 and 20000 wrap the `short` tag size to -25536, and one tag then gives a negative capacity |
| KeyRegex.BuildRegex | src/core/StorageQueryHbase.java:250-303 | fails with `NegativeArraySizeException` iff the `int` capacity estimate is negative, and with the `null`-id error iff there is neither a tag nor a group-by. Otherwise a success starts with `(?s)^.{metric_width+4}`; ids are quoted as `addId` as written quotes them |
| KeyRegex.KeyRegexOutcome | src/core/StorageQueryHbase.java:246-303 | the expression fails iff the capacity estimate is negative, there is nothing to write, or a tag and a group-by share a name id. Otherwise it is the header, one segment per tag or group-by, and the trailer. The segments hold every tag and every sorted group-by in ascending name-id order, each id quoted as `addId` as written quotes it |
| KeyRegex.AppendValues | src/core/StorageQueryHbase.java:284-298 | after a group-by, appends `.{value_width}` or the allow-list of its values, quoted by `addId` as written |
| KeyRegex.AppendAlternatives | src/core/StorageQueryHbase.java:291-295 | the inner loop appends each value as `\Q`, the value quoted by `addId` as written, and a pipe character |
| KeyRegex.AppendSegment | src/core/StorageQueryHbase.java:278-299 | one loop pass appends `(?:.{tagsize})*\Q` and the item's segment, its id quoted by `addId` as written |
| KeyRegex.Advance | src/core/StorageQueryHbase.java:278-300 | one loop pass writes the next item of the walk, quoted by `addId` as written, and moves that list's cursor on by one |
| KeyRegex.WriteRegex | src/core/StorageQueryHbase.java:250-303 | after the capacity check, the do-while writes exactly `BuildRegex`, the text `createAndSetFilter` as written builds, including its failures |
| KeyRegex.CreateAndSetFilter | src/core/StorageQueryHbase.java:246-305 | sorts the group-bys; the expression it sets is `KeyRegex` of the query, with the quoting of `addId` as written |
| RowAssembly.NewRowSeq | src/core/StorageQueryHbase.java:183-184 | a new `RowSeq` has the row's key, and its first sample is the row's first |
| RowAssembly.KeyCheckIsSameSeries | src/core/StorageQueryHbase.java:153-162 | the three key checks all pass iff the two keys have one length and agree outside the base time |
| RowAssembly.Series.AddRow | src/core/StorageQueryHbase.java:146-191 | the list after the call, and the outcome, are those of `AddRowToSeq` |
| RowAssembly.RejectLeavesRows | src/core/StorageQueryHbase.java:148-168 | a row is rejected iff the list is non-empty and the row belongs to another series; the list is then unchanged |
| RowAssembly.MergeExtendsLast | src/core/StorageQueryHbase.java:169-180 | a row is merged iff it belongs to the series and `canTimeDeltaFit` accepts the span. Then only the last `RowSeq`'s samples grow, by the row's |
| RowAssembly.DropLeavesRows | src/core/StorageQueryHbase.java:183-189 | a row is dropped iff the list is non-empty, the row is of its series and not merged, and its first timestamp is `<=` the last one held; the list is then unchanged |
| RowAssembly.AppendAddsOne | src/core/StorageQueryHbase.java:183-190 | otherwise exactly one `RowSeq`, read from the row, is appended |
| RowAssembly.AddRowKeepsOneSeries | src/core/StorageQueryHbase.java:146-191 | after any call, all `RowSeq`s of the list belong to one series |
| RowAssembly.AddRowKeepsOrder | src/core/StorageQueryHbase.java:146-191 | after any call, every `RowSeq` starts after the previous one's last sample |
| RowAssembly.FreshListNeverRejects | src/core/StorageQueryHbase.java:146-190 | a row added to a fresh list is appended as the only `RowSeq`, unless its first timestamp is 0: then the log message's `rows.get(-1)` throws |
| RowAssembly.OutOfOrderOnEmptyOnlyThere | src/core/StorageQueryHbase.java:147-188 | the call throws `IndexOutOfBoundsException` iff the list is empty and the row's first timestamp is 0 (`last_ts` stays 0); the list is unchanged |
| FindSpans.ScanBatch | src/core/StorageQueryHbase.java:97-120 | one batch succeeds iff every row starts with the metric id and has a first timestamp above 0. Otherwise the error is that of the first row that does not: `IllegalDataException` naming a row of another metric, or the `IndexOutOfBoundsException` out of `addRowToSeq` |
| FindSpans.FailureInScan | src/core/StorageQueryHbase.java:95-110 | a failing row of a batch, after batches of accepted rows only, is the first failing row of the whole scan |
| FindSpans.FindSpans | src/core/StorageQueryHbase.java:84-136 | the scan fails iff some row lacks the metric-id prefix or has its first sample at time 0; the error is that of the first such row, and the `catch` passes the `IndexOutOfBoundsException` on. Otherwise the result is `null` for no rows, and the number of rows read otherwise |
| Downsample.Latin1 | src/filter/DownsampleFilter.java:15-16 | the ISO-8859-1 bytes of the class name are its char codes, one per char |
| Downsample.DownsampleFilter.ToInt | src/filter/DownsampleFilter.java:34-39 | the loop returns the big-endian value of the buffer, as an `int` |
| Downsample.ShiftInByte | src/filter/DownsampleFilter.java:37 | shifting `val` left by 8 and or-ing in `b & 0xFF` is `val * 256 + b` modulo 2^32 |
| Downsample.IntValueLastFour | src/filter/DownsampleFilter.java:34-39 | `toInt` of a longer buffer is `toInt` of its last four bytes |
| Downsample.IntValueOfShortBuffer | src/filter/DownsampleFilter.java:34-39 | for at most four bytes, the unsigned reading of `toInt` is the number the bytes denote |
| Downsample.IntValueOfBE32 | src/filter/DownsampleFilter.java:34-39 | `toInt` reads back the `int` that `Bytes.setInt` writes |
| Downsample.CellDelta | src/filter/DownsampleFilter.java:49-51 | the delta is below 2^28 |
| Downsample.CellDeltaOfQualifier | src/filter/DownsampleFilter.java:49-51 | on a buffer that is just a 2-byte qualifier, the delta is the qualifier's delta |
| Downsample.CellDeltaReadsWholeBuffer | src/filter/DownsampleFilter.java:45-49 | the qualifier offset is ignored: a cell whose qualifier encodes delta 1 gets delta 4097 from its whole buffer |
| Downsample.EmptyQualifierSkips | src/filter/DownsampleFilter.java:43-59 | a cell without a qualifier is skipped and leaves `lastDelta` unchanged |
| Downsample.StepFromReachable | src/filter/DownsampleFilter.java:53-59 | from a reachable state the sum does not wrap. A cell is included iff its delta exceeds `lastDelta + interval`; an included delta becomes `lastDelta`, a skip leaves it, and the new state is reachable |
| Downsample.WrappedSumIncludesAll | src/filter/DownsampleFilter.java:43-56 | whenever `lastDelta + interval` wraps negative in 32 bits, every cell with a qualifier is included, whatever its delta, and its delta becomes `lastDelta` |
| Downsample.WrappedSumIncludesEarlierDelta | src/filter/DownsampleFilter.java:53-56 | an instance: from `lastDelta = 16` with interval `0x7FFF_FFFF`, a cell of delta 0 is included |
| Downsample.IncludedSpread | src/filter/DownsampleFilter.java:53-56 | over any run of calls, each included delta exceeds the previous one (or the starting `lastDelta`) by more than the interval |
| Downsample.IncludedIncreasing | src/filter/DownsampleFilter.java:53-56 | from a fresh filter with a non-negative interval, the included deltas strictly increase; the first exceeds the interval |
| Downsample.NegativeIntervalRepeats | src/filter/DownsampleFilter.java:34-56 | the interval bytes `FF FF FF FF` give -1, and then a repeated delta is included twice |
| Downsample.DownsampleFilter.constructor | src/filter/DownsampleFilter.java:25-29 | keeps the buffer, sets `interval = toInt(buffer)` and `lastDelta = 0` |
| Downsample.DownsampleFilter.FilterKeyValue | src/filter/DownsampleFilter.java:42-60 | the answer and the new `lastDelta` are those of `Step`; the interval is unchanged |
| Downsample.SerializedLayout | src/filter/DownsampleFilter.java:62-72 | 42 bytes: 36, the 36 name bytes, the buffer length, the buffer, then zeros |
| Downsample.SerializedRoundTrip | src/filter/DownsampleFilter.java:62-72 | the serialised bytes read back as the interval buffer |
| Downsample.DownsampleFilter.ToByteArray | src/filter/DownsampleFilter.java:62-72 | fails iff the buffer is longer than 4 bytes; otherwise a fresh array holding the layout above |
| Downsample.DownsampleFilter.PutBytes | src/filter/DownsampleFilter.java:67-69 | `ByteBuffer.put` overwrites just the bytes from its position on |
| Downsample.DownsampleFilter.CreateFilterFromArguments | src/filter/DownsampleFilter.java:74-79 | fails iff there is not exactly one argument; otherwise a new filter over the unquoted argument |
| Downsample.DownsampleFilter.ReadFields | src/filter/DownsampleFilter.java:85-88 | replaces the buffer and `interval = toInt(buffer)`, leaving `lastDelta` as it was |

## Left out

- The HBase client is not modelled: `newScanner`, `setStartKey`, `setStopKey`, `setKeyRegexp`, `setFamily` and `nextRows().joinUninterruptibly()` are network I/O. `getScanner` returns what it would set. `findSpans` takes the scanner's batches as a sequence.
- `tsdb.metrics.width()` and the other width calls are external, so the widths are parameters. `tsdb.compact` is external, so rows arrive compacted and well formed: a key holding a base time, and a whole, non-empty run of 2-byte qualifiers.
- `RowSeq` is not part of this model. A `RowSeq` is its key, its base time and its sample timestamps. `RowSeq.canTimeDeltaFit` is the parameter `fits`. `RowSeq.addRow` appends the row's timestamps and does not itself check their order.
- The `rows_map` and `spans` maps of `findSpans` are not modelled. `rows_map` hashes `byte[]` keys by identity, so every lookup misses and every row goes to a fresh list. `spans.get(key)` compares with `SpanCmp`, which ignores the base time, so a `Span` is created only for the first row of each series, and only that row's `RowSeq` list reaches a `Span`; the lists of the series' later rows are dropped. `FindSpans.FindSpans` keeps only the number of rows read.
- The scan-latency histogram, `System.nanoTime` timing and logging are observability only.
- `FindSpans.FindSpans`: the row counter `nrows` is unbounded, not a 32-bit `int`.
- Whether `java.util.regex` matches a given key is not modelled. The model fixes the expression's text and the meaning of its `\Q…\E`, `\\` and `E` pieces.
- `Collections.sort` is an insertion sort here. Only the result matters: a sorted permutation.
- `KeyRegex.Name`: an id shorter than the name width is taken whole, where `memcmp` would fail on it. Every caller requires ids at least that wide.
- Casts: `(short) (name_width + value_width)` is modelled as a 16-bit wrap (`KeyRegex.TagSize`), and the `(int)` casts of the start and end times as reduction modulo 2^32 (`Bytes.BE32`). The wrapped tag size also enters the `int` capacity estimate of the `StringBuilder`, whose negative values throw (`KeyRegex.Capacity`). The `(short)` casts of `tags_offset` and `tags_bytes` in `addRowToSeq` are dropped, because HBase keys and widths stay far below 32768. The `(short)` cast of the last delta is exact, since the value is below 4096.
- `SpanCompare.SpanCmp.Compare` requires both keys to hold the metric width. Keys that reach the spans map have passed the metric-prefix check of `findSpans`. On a shorter key the source returns 0 if both arguments are the same array, returns the byte difference if the keys differ before the short key ends, and otherwise throws an index exception; these cases are not modelled.
- `Scanner.GetScanner` does not set the column family.
- `DownsampleFilter.write` is not modelled: it is the Hadoop `Bytes.writeByteArray` wire format. `readFields` is given the array `Bytes.readByteArray` decoded. `ParseFilter.removeQuotesFromByteArray` is the parameter `unquote`.
- `Downsample.DownsampleFilter.ToByteArray`: `ByteBuffer` has no `writeByte`/`writeBytes`. The two calls are read as `put`, which throws `BufferOverflowException` when more than the four remaining bytes are written.
- Ids are values here, and `KeyRegex.Merge` compares them by content. The do-while's exit test `tag != group_by` compares references. If one `byte[]` object were in both `tags` and `group_bys`, Java would stop the walk early and write no further segments. The model assumes no array is shared between the two lists, and reports `TagAlsoGroupBy` for equal name ids instead.
- The interval buffer is a value here. In Java the filter keeps a reference to the caller's array, so later writes to it would change `interval_buf` without changing `interval`.
- `Downsample.IncludedIncreasing` requires a non-negative interval. With a negative one the deltas need not increase, as `NegativeIntervalRepeats` shows.

## Findings

| source | as written | input that shows it | evidently intended | confidence | as-written member | corrected member |
|---|---|---|---|---|---|---|
| src/core/StorageQueryHbase.java:339-345 | after writing the re-quote `\\E\Q` for a quoted `\E`, `addId` leaves `backslash` set. A following `E` is then taken for another `\E` and re-quoted again. `KeyRegex` builds its expression with this loop (`RegexQuote.AddIdAsWritten`), as the repository does | id bytes `5C 45 45` (`\EE`): the expression denotes `\EE\`, which no key with these id bytes contains | clear the flag once the re-quote is written, since the last char written is then `Q`; the literal then denotes exactly `\EE` | not executed | RegexQuote.QuoteAsWrittenAddsBackslash | RegexQuote.AddId |

/** `StorageQueryHbase.getScanner`: the key range a query scans and, when
    the query has tags or group-bys, the row-key expression the scan filters
    on. The HBase client itself is not part of this model: the scanner is
    the record of what it is set up with. */
module Scanner {
  import opened Wrappers
  import opened Bytes
  import opened RowKey
  import opened KeyRegex

  /** What `getScanner` sets on the scanner it returns. */
  datatype ScanSetup = ScanSetup(startKey: seq<byte>, stopKey: seq<byte>, keyRegex: Option<string>)

  /** A key filter is set exactly when the query names tags or group-bys. */
  predicate Filtered(tags: seq<Id>, groupBys: Option<seq<Id>>) {
    |tags| > 0 || groupBys.Some?
  }

  /** `getScanner`. `metric` holds at least the metric width `mw`; the
      group-bys, when there are any, come back sorted by the filter. */
  method GetScanner(metric: seq<byte>, mw: nat, nw: nat, vw: nat, startTime: int, endTime: Option<int>,
                    tags: seq<Id>, groupBys: Option<seq<Id>>, groupByValues: Option<map<Id, seq<Id>>>)
    returns (groupBysAfter: Option<seq<Id>>, r: Result<ScanSetup, FilterError>)
    requires mw <= |metric| && WideIds(tags, groupBys, nw)
    ensures r.Err? <==> Filtered(tags, groupBys) && KeyRegex.KeyRegex(mw, nw, vw, tags, groupBys, groupByValues).Err?
    ensures r.Err? ==> r.error == KeyRegex.KeyRegex(mw, nw, vw, tags, groupBys, groupByValues).error
    ensures r.Ok? ==> && r.value.startKey == ScanStartKey(metric, mw, startTime)
                      && r.value.stopKey == ScanStopKey(metric, mw, endTime)
                      && (r.value.keyRegex.Some? <==> Filtered(tags, groupBys))
                      && (r.value.keyRegex.Some? ==>
                            r.value.keyRegex.value == KeyRegex.KeyRegex(mw, nw, vw, tags, groupBys, groupByValues).value)
    ensures groupBys.None? ==> groupBysAfter.None?
    ensures groupBys.Some? ==> groupBysAfter == Some(SortIds(groupBys.value))
  {
    var startRow := metric[..mw] + BE32(startTime);
    var endRow := metric[..mw] + BE32(if endTime.None? then -1 else endTime.value);
    groupBysAfter := groupBys;
    var keyRegex := None;
    if |tags| > 0 || groupBys.Some? {
      var regex;
      groupBysAfter, regex := CreateAndSetFilter(mw, nw, vw, tags, groupBys, groupByValues);
      if regex.Err? {
        return groupBysAfter, Err(regex.error);
      }
      keyRegex := Some(regex.value);
    }
    r := Ok(ScanSetup(startRow, endRow, keyRegex));
  }

  /** The scan returns exactly the rows of the metric whose base time lies
      between the start time and the stop time: for a key
      `metric ‖ BE32(t) ‖ tags`, start key <= key < stop key iff
      `startTime mod 2^32 <= t < StopTime(endTime)`. */
  lemma ScanRange(metric: seq<byte>, mw: nat, startTime: int, endTime: Option<int>, t: nat, tagBytes: seq<byte>)
    requires mw <= |metric| && t < TWO32
    ensures var key := metric[..mw] + BE32(t) + tagBytes;
      && (Lex(ScanStartKey(metric, mw, startTime), key) <= 0 && Lex(key, ScanStopKey(metric, mw, endTime)) < 0
          <==> startTime % TWO32 <= t < StopTime(endTime))
  {
    ScanStartBound(metric, mw, startTime, t, tagBytes);
    ScanStopBound(metric, mw, endTime, t, tagBytes);
  }
}

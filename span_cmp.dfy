/** `StorageQueryHbase.SpanCmp`: the order of the spans map, which compares
    row keys while ignoring the base timestamp that follows the metric id, so
    that every time bucket of one series falls on the same map entry. */
module SpanCompare {
  import opened Bytes
  import opened RowKey

  /** Position `i` of a key holding metric-id or tag bytes: everything but the
      base time. */
  predicate IsSeriesIndex(i: nat, w: nat) {
    i < w || w + TimestampBytes <= i
  }

  /** The two keys name the same series: same length, and the same bytes at
      every position outside the base time. */
  ghost predicate SameSeries(a: seq<byte>, b: seq<byte>, w: nat) {
    |a| == |b| && forall j :: 0 <= j < |a| && IsSeriesIndex(j, w) ==> a[j] == b[j]
  }

  // ---------------------------------------------------------------------
  // The order the two loops of `compare` compute, position by position.
  // ---------------------------------------------------------------------

  /** The second loop: tag bytes from `i` on, then the length difference. */
  function TagOrderFrom(a: seq<byte>, b: seq<byte>, i: nat): int
    decreases |a| + |b| - i
  {
    if i >= |a| || i >= |b| then |a| - |b|
    else if a[i] != b[i] then a[i] as int - b[i] as int
    else TagOrderFrom(a, b, i + 1)
  }

  /** The first loop: metric-id bytes from `i` on, then the tag bytes after
      the base time. */
  function MetricOrderFrom(a: seq<byte>, b: seq<byte>, w: nat, i: nat): int
    requires i <= w <= |a| && w <= |b|
    decreases w - i
  {
    if i == w then TagOrderFrom(a, b, w + TimestampBytes)
    else if a[i] != b[i] then a[i] as int - b[i] as int
    else MetricOrderFrom(a, b, w, i + 1)
  }

  function SpanOrder(a: seq<byte>, b: seq<byte>, w: nat): int
    requires w <= |a| && w <= |b|
  {
    MetricOrderFrom(a, b, w, 0)
  }

  class SpanCmp {
    const metricWidth: nat

    constructor (metricWidth: nat)
      ensures this.metricWidth == metricWidth
    {
      this.metricWidth := metricWidth;
    }

    /** `compare`. Keys in the spans map have passed the metric-prefix check
        of `findSpans`, so both are at least `metricWidth` bytes long; for
        such keys the `a == b` shortcut gives what the loops would. */
    method Compare(a: seq<byte>, b: seq<byte>) returns (r: int)
      requires metricWidth <= |a| && metricWidth <= |b|
      ensures r == SpanOrder(a, b, metricWidth)
    {
      var length := if |a| < |b| then |a| else |b|;
      var i := 0;
      // First compare the metric id.
      while i < metricWidth
        invariant 0 <= i <= metricWidth
        invariant MetricOrderFrom(a, b, metricWidth, 0) == MetricOrderFrom(a, b, metricWidth, i)
      {
        if a[i] != b[i] {
          return a[i] as int - b[i] as int;
        }
        i := i + 1;
      }
      // Then skip the timestamp and compare the rest.
      i := i + TimestampBytes;
      while i < length
        invariant metricWidth + TimestampBytes <= i
        invariant i <= length || i == metricWidth + TimestampBytes
        invariant SpanOrder(a, b, metricWidth) == TagOrderFrom(a, b, i)
      {
        if a[i] != b[i] {
          return a[i] as int - b[i] as int;
        }
        i := i + 1;
      }
      return |a| - |b|;
    }
  }

  // ---------------------------------------------------------------------
  // What the order means.
  // ---------------------------------------------------------------------

  lemma {:induction false} TagOrderZeroIff(a: seq<byte>, b: seq<byte>, i: nat)
    ensures TagOrderFrom(a, b, i) == 0 <==>
      |a| == |b| && forall j :: i <= j < |a| ==> a[j] == b[j]
    decreases |a| + |b| - i
  {
    if i < |a| && i < |b| && a[i] == b[i] {
      TagOrderZeroIff(a, b, i + 1);
    }
  }

  lemma {:induction false} MetricOrderZeroIff(a: seq<byte>, b: seq<byte>, w: nat, i: nat)
    requires i <= w <= |a| && w <= |b|
    ensures MetricOrderFrom(a, b, w, i) == 0 <==>
      |a| == |b| && forall j :: i <= j < |a| && IsSeriesIndex(j, w) ==> a[j] == b[j]
    decreases w - i
  {
    if i == w {
      TagOrderZeroIff(a, b, w + TimestampBytes);
    } else if a[i] == b[i] {
      MetricOrderZeroIff(a, b, w, i + 1);
    }
  }

  /** Two keys are equal under the order exactly when they name the same
      series. */
  lemma SpanOrderZeroIff(a: seq<byte>, b: seq<byte>, w: nat)
    requires w <= |a| && w <= |b|
    ensures SpanOrder(a, b, w) == 0 <==> SameSeries(a, b, w)
  {
    MetricOrderZeroIff(a, b, w, 0);
  }

  /** Writing another base time into a key leaves it equal to the original:
      the order never looks at the timestamp bytes. */
  lemma SpanOrderIgnoresTimestamp(a: seq<byte>, w: nat, t: seq<byte>)
    requires w + TimestampBytes <= |a| && |t| == TimestampBytes
    ensures SpanOrder(a, a[..w] + t + a[w + TimestampBytes..], w) == 0
  {
    var b := a[..w] + t + a[w + TimestampBytes..];
    assert forall j :: 0 <= j < |a| && IsSeriesIndex(j, w) ==> a[j] == b[j];
    SpanOrderZeroIff(a, b, w);
  }

  lemma {:induction false} TagOrderFirstDifference(a: seq<byte>, b: seq<byte>, i: nat, k: nat)
    requires i <= k < |a| && k < |b| && a[k] != b[k]
    requires forall j :: i <= j < k ==> a[j] == b[j]
    ensures TagOrderFrom(a, b, i) == a[k] as int - b[k] as int
    decreases k - i
  {
    if i < k {
      TagOrderFirstDifference(a, b, i + 1, k);
    }
  }

  lemma {:induction false} TagOrderNoDifference(a: seq<byte>, b: seq<byte>, i: nat)
    requires forall j :: i <= j < |a| && j < |b| ==> a[j] == b[j]
    ensures TagOrderFrom(a, b, i) == |a| - |b|
    decreases |a| + |b| - i
  {
    if i < |a| && i < |b| {
      TagOrderNoDifference(a, b, i + 1);
    }
  }

  lemma {:induction false} MetricOrderFirstDifference(a: seq<byte>, b: seq<byte>, w: nat, i: nat, k: nat)
    requires i <= w <= |a| && w <= |b|
    requires i <= k < |a| && k < |b| && IsSeriesIndex(k, w) && a[k] != b[k]
    requires forall j :: i <= j < k && IsSeriesIndex(j, w) ==> a[j] == b[j]
    ensures MetricOrderFrom(a, b, w, i) == a[k] as int - b[k] as int
    decreases w - i
  {
    if i == w {
      TagOrderFirstDifference(a, b, w + TimestampBytes, k);
    } else if i < k {
      MetricOrderFirstDifference(a, b, w, i + 1, k);
    }
  }

  lemma {:induction false} MetricOrderNoDifference(a: seq<byte>, b: seq<byte>, w: nat, i: nat)
    requires i <= w <= |a| && w <= |b|
    requires forall j :: i <= j < |a| && j < |b| && IsSeriesIndex(j, w) ==> a[j] == b[j]
    ensures MetricOrderFrom(a, b, w, i) == |a| - |b|
    decreases w - i
  {
    if i == w {
      TagOrderNoDifference(a, b, w + TimestampBytes);
    } else {
      MetricOrderNoDifference(a, b, w, i + 1);
    }
  }

  /** The sign of the order is the unsigned difference of the first
      differing metric-id or tag byte ... */
  lemma SpanOrderFirstDifference(a: seq<byte>, b: seq<byte>, w: nat, k: nat)
    requires w <= |a| && w <= |b|
    requires k < |a| && k < |b| && IsSeriesIndex(k, w) && a[k] != b[k]
    requires forall j :: 0 <= j < k && IsSeriesIndex(j, w) ==> a[j] == b[j]
    ensures SpanOrder(a, b, w) == a[k] as int - b[k] as int
  {
    MetricOrderFirstDifference(a, b, w, 0, k);
  }

  /** ... and, when no such byte exists, the difference of the lengths. */
  lemma SpanOrderNoDifference(a: seq<byte>, b: seq<byte>, w: nat)
    requires w <= |a| && w <= |b|
    requires forall j :: 0 <= j < |a| && j < |b| && IsSeriesIndex(j, w) ==> a[j] == b[j]
    ensures SpanOrder(a, b, w) == |a| - |b|
  {
    MetricOrderNoDifference(a, b, w, 0);
  }

  lemma {:induction false} TagOrderAntisymmetric(a: seq<byte>, b: seq<byte>, i: nat)
    ensures TagOrderFrom(a, b, i) == -TagOrderFrom(b, a, i)
    decreases |a| + |b| - i
  {
    if i < |a| && i < |b| && a[i] == b[i] {
      TagOrderAntisymmetric(a, b, i + 1);
    }
  }

  lemma {:induction false} MetricOrderAntisymmetric(a: seq<byte>, b: seq<byte>, w: nat, i: nat)
    requires i <= w <= |a| && w <= |b|
    ensures MetricOrderFrom(a, b, w, i) == -MetricOrderFrom(b, a, w, i)
    decreases w - i
  {
    if i == w {
      TagOrderAntisymmetric(a, b, w + TimestampBytes);
    } else if a[i] == b[i] {
      MetricOrderAntisymmetric(a, b, w, i + 1);
    }
  }

  /** Swapping the arguments negates the result. */
  lemma SpanOrderAntisymmetric(a: seq<byte>, b: seq<byte>, w: nat)
    requires w <= |a| && w <= |b|
    ensures SpanOrder(a, b, w) == -SpanOrder(b, a, w)
  {
    MetricOrderAntisymmetric(a, b, w, 0);
  }

  lemma {:induction false} TagOrderTransitive(a: seq<byte>, b: seq<byte>, c: seq<byte>, i: nat)
    requires TagOrderFrom(a, b, i) <= 0 && TagOrderFrom(b, c, i) <= 0
    ensures TagOrderFrom(a, c, i) <= 0
    decreases |a| + |b| + |c| - i
  {
    if i < |a| && i < |b| && i < |c| && a[i] == b[i] && b[i] == c[i] {
      TagOrderTransitive(a, b, c, i + 1);
    }
  }

  lemma {:induction false} MetricOrderTransitive(a: seq<byte>, b: seq<byte>, c: seq<byte>, w: nat, i: nat)
    requires i <= w <= |a| && w <= |b| && w <= |c|
    requires MetricOrderFrom(a, b, w, i) <= 0 && MetricOrderFrom(b, c, w, i) <= 0
    ensures MetricOrderFrom(a, c, w, i) <= 0
    decreases w - i
  {
    if i == w {
      TagOrderTransitive(a, b, c, w + TimestampBytes);
    } else if a[i] == b[i] && b[i] == c[i] {
      MetricOrderTransitive(a, b, c, w, i + 1);
    }
  }

  /** The order is transitive, so together with antisymmetry it is a total
      preorder, as the spans `TreeMap` requires of its comparator. */
  lemma SpanOrderTransitive(a: seq<byte>, b: seq<byte>, c: seq<byte>, w: nat)
    requires w <= |a| && w <= |b| && w <= |c|
    requires SpanOrder(a, b, w) <= 0 && SpanOrder(b, c, w) <= 0
    ensures SpanOrder(a, c, w) <= 0
    ensures SpanOrder(a, b, w) < 0 || SpanOrder(b, c, w) < 0 ==> SpanOrder(a, c, w) < 0
  {
    MetricOrderTransitive(a, b, c, w, 0);
    if SpanOrder(a, c, w) == 0 {
      // Then c <= a, so b <= c <= a and a <= b: both steps are ties.
      SpanOrderAntisymmetric(a, c, w);
      MetricOrderTransitive(b, c, a, w, 0);
      SpanOrderAntisymmetric(a, b, w);
      MetricOrderTransitive(c, a, b, w, 0);
      SpanOrderAntisymmetric(b, c, w);
    }
  }
}

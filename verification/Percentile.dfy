/** Latency percentiles of pipeline hops: linear interpolation between order statistics. */
module Percentile {
  import opened Common

  predicate Sorted(s: seq<real>) { forall i, j :: 0 <= i < j < |s| ==> s[i] <= s[j] }

  /** Insert into a sorted sequence, after equal elements. */
  function Insert(x: real, s: seq<real>): (r: seq<real>)
    ensures multiset(r) == multiset(s) + multiset{x} && |r| == |s| + 1
  {
    if s == [] || x < s[0] then [x] + s
    else
      assert s == [s[0]] + s[1..];
      [s[0]] + Insert(x, s[1..])
  }

  function Sort(s: seq<real>): (r: seq<real>)
    ensures multiset(r) == multiset(s) && |r| == |s|
  {
    if s == [] then []
    else
      assert s == s[..|s| - 1] + [s[|s| - 1]];
      Insert(s[|s| - 1], Sort(s[..|s| - 1]))
  }

  lemma {:induction false} InsertSorted(x: real, s: seq<real>)
    requires Sorted(s)
    ensures Sorted(Insert(x, s))
  {
    if s != [] && x >= s[0] {
      InsertSorted(x, s[1..]);
      var rest := Insert(x, s[1..]);
      forall i | 0 <= i < |rest| ensures s[0] <= rest[i] {
        assert rest[i] in multiset(rest);
        assert rest[i] == x || rest[i] in s[1..];
      }
    }
  }

  lemma {:induction false} SortSorted(s: seq<real>)
    ensures Sorted(Sort(s))
  {
    if s != [] {
      SortSorted(s[..|s| - 1]);
      InsertSorted(s[|s| - 1], Sort(s[..|s| - 1]));
    }
  }

  /** A sorted sequence is determined by its elements. */
  lemma {:induction false} SortedUnique(a: seq<real>, b: seq<real>)
    requires Sorted(a) && Sorted(b) && multiset(a) == multiset(b)
    ensures a == b
  {
    if a == [] {
      assert |multiset(b)| == 0;
    } else {
      assert |multiset(b)| == |multiset(a)| == |a|;
      LeastFirst(a, b);
      LeastFirst(b, a);
      DropFirst(a);
      DropFirst(b);
      assert a[0] == b[0];
      SortedUnique(a[1..], b[1..]);
      SameHeadTail(a, b);
    }
  }

  lemma SameHeadTail(a: seq<real>, b: seq<real>)
    requires a != [] && b != [] && a[0] == b[0] && a[1..] == b[1..]
    ensures a == b
  {
    assert a == [a[0]] + a[1..] && b == [b[0]] + b[1..];
  }

  lemma LeastFirst(a: seq<real>, b: seq<real>)
    requires Sorted(a) && a != [] && b != [] && multiset(a) == multiset(b)
    ensures a[0] <= b[0]
  {
    assert b[0] in multiset(a);
  }

  lemma DropFirst(a: seq<real>)
    requires a != [] && Sorted(a)
    ensures multiset(a[1..]) == multiset(a) - multiset{a[0]} && Sorted(a[1..])
  {
    assert a == [a[0]] + a[1..];
  }

  /** A fraction of a width. */
  function Times(f: real, width: real): real { f * width }

  lemma TimesSign(f: real, width: real)
    requires 0.0 <= f && 0.0 <= width
    ensures Times(f, width) >= 0.0
  {
  }

  lemma TimesBounds(f: real, width: real)
    requires 0.0 <= f <= 1.0 && width >= 0.0
    ensures 0.0 <= Times(f, width) <= width
  {
    TimesSign(f, width);
    TimesSign(1.0 - f, width);
    assert Times(1.0 - f, width) == width - Times(f, width);
  }

  lemma TimesMonotone(f: real, g: real, width: real)
    requires width >= 0.0 && f <= g
    ensures Times(f, width) <= Times(g, width)
  {
    assert Times(g - f, width) == Times(g, width) - Times(f, width);
    assert Times(g - f, width) >= 0.0;
  }

  function Upper(n: nat, lo: nat): nat
    requires lo < n
  {
    if lo + 1 <= n - 1 then lo + 1 else n - 1
  }

  /** Value at a fractional index of a sorted sequence. */
  function Interpolate(s: seq<real>, idx: real): real
    requires s != [] && 0.0 <= idx <= (|s| - 1) as real
  {
    var lo := idx.Floor;
    s[lo] + Times(idx - lo as real, s[Upper(|s|, lo)] - s[lo])
  }

  function IndexOf(n: nat, pct: real): real
    requires n > 0
  {
    Times(pct / 100.0, (n - 1) as real)
  }

  lemma IndexBounds(n: nat, pct: real)
    requires n > 0 && 0.0 <= pct <= 100.0
    ensures 0.0 <= IndexOf(n, pct) <= (n - 1) as real
  {
    TimesBounds(pct / 100.0, (n - 1) as real);
  }

  function PercentileOf(data: seq<real>, pct: real): Option<real>
    requires 0.0 <= pct <= 100.0
  {
    if data == [] then None else Some(Round3(Raw(data, pct)))
  }

  /** The percentile before rounding. */
  function Raw(data: seq<real>, pct: real): real
    requires data != [] && 0.0 <= pct <= 100.0
  {
    IndexBounds(|data|, pct);
    Interpolate(Sort(data), IndexOf(|data|, pct))
  }

  /** Between two neighbouring order statistics, and never below the lower or above the upper. */
  lemma InterpolateBetween(s: seq<real>, idx: real)
    requires s != [] && Sorted(s) && 0.0 <= idx <= (|s| - 1) as real
    ensures s[idx.Floor] <= Interpolate(s, idx) <= s[Upper(|s|, idx.Floor)]
  {
    var lo := idx.Floor;
    TimesBounds(idx - lo as real, s[Upper(|s|, lo)] - s[lo]);
  }

  /** Monotone in the index, also across an integer boundary. */
  lemma InterpolateMonotone(s: seq<real>, x: real, y: real)
    requires s != [] && Sorted(s) && 0.0 <= x <= y <= (|s| - 1) as real
    ensures Interpolate(s, x) <= Interpolate(s, y)
  {
    var a, b := x.Floor, y.Floor;
    if a == b {
      TimesMonotone(x - a as real, y - a as real, s[Upper(|s|, a)] - s[a]);
    } else {
      InterpolateBetween(s, x);
      InterpolateBetween(s, y);
      assert s[Upper(|s|, a)] <= s[b];
    }
  }

  lemma IndexMonotone(n: nat, p: real, q: real)
    requires n > 0 && 0.0 <= p <= q <= 100.0
    ensures IndexOf(n, p) <= IndexOf(n, q)
  {
    TimesMonotone(p / 100.0, q / 100.0, (n - 1) as real);
  }

  /** Percentiles are ordered even after rounding, so p50 <= p95 <= p99. */
  lemma PercentileMonotone(data: seq<real>, p: real, q: real)
    requires data != [] && 0.0 <= p <= q <= 100.0
    ensures PercentileOf(data, p).value <= PercentileOf(data, q).value
  {
    SortSorted(data);
    IndexBounds(|data|, p);
    IndexBounds(|data|, q);
    IndexMonotone(|data|, p, q);
    InterpolateMonotone(Sort(data), IndexOf(|data|, p), IndexOf(|data|, q));
    Round3Monotone(Raw(data, p), Raw(data, q));
  }

  /** Before rounding the percentile lies between the smallest and largest datum. */
  lemma RawWithinData(data: seq<real>, pct: real, min: real, max: real)
    requires data != [] && 0.0 <= pct <= 100.0
    requires forall x :: x in data ==> min <= x <= max
    ensures min <= Raw(data, pct) <= max
  {
    var s, idx := Sort(data), IndexOf(|data|, pct);
    SortSorted(data);
    IndexBounds(|data|, pct);
    InterpolateBetween(s, idx);
    SortElements(data, idx.Floor);
    SortElements(data, Upper(|s|, idx.Floor));
  }

  lemma SortElements(data: seq<real>, k: nat)
    requires k < |data|
    ensures Sort(data)[k] in data
  {
    assert Sort(data)[k] in multiset(data);
  }

  /** Rounding keeps the percentile within the rounded ends of the data. */
  lemma PercentileWithinData(data: seq<real>, pct: real, min: real, max: real)
    requires data != [] && 0.0 <= pct <= 100.0
    requires forall x :: x in data ==> min <= x <= max
    ensures Round3(min) <= PercentileOf(data, pct).value <= Round3(max)
  {
    RawWithinData(data, pct, min, max);
    Round3Monotone(min, Raw(data, pct));
    Round3Monotone(Raw(data, pct), max);
  }

  lemma TimesScaled(pct: real, width: real, k: real)
    requires Times(pct, width) == 100.0 * k
    ensures Times(pct / 100.0, width) == k
  {
    assert 100.0 * Times(pct / 100.0, width) == Times(pct, width);
  }

  /** At an integer index the percentile is the order statistic itself, rounded. */
  lemma PercentileAtOrderStatistic(data: seq<real>, pct: real, k: nat)
    requires 0.0 <= pct <= 100.0 && k < |data| && Times(pct, (|data| - 1) as real) == 100.0 * k as real
    ensures Raw(data, pct) == Sort(data)[k]
  {
    TimesScaled(pct, (|data| - 1) as real, k as real);
    InterpolateAtInteger(Sort(data), k);
  }

  lemma InterpolateAtInteger(s: seq<real>, k: nat)
    requires k < |s|
    ensures 0.0 <= k as real <= (|s| - 1) as real && Interpolate(s, k as real) == s[k]
  {
    assert (k as real).Floor == k;
    ZeroTimes(s[Upper(|s|, k)] - s[k]);
  }

  lemma ZeroTimes(width: real)
    ensures Times(0.0, width) == 0.0
  {
  }

  /** The point `idx` of the segment from `low` at k to `high` at k + 1. */
  predicate OnSegment(value: real, low: real, high: real, k: nat, idx: real) {
    value == low + (idx - k as real) * (high - low)
  }

  lemma InterpolateOnSegment(s: seq<real>, idx: real, k: nat)
    requires k + 1 < |s| && k as real <= idx <= (k + 1) as real
    ensures OnSegment(Interpolate(s, idx), s[k], s[k + 1], k, idx)
  {
    if idx < (k + 1) as real {
      assert idx.Floor == k;
    } else {
      InterpolateAtInteger(s, k + 1);
    }
  }

  /** The fractional index of `pct` among n data lies between k and k + 1. */
  predicate Inside(n: nat, pct: real, k: nat) { k as real <= pct / 100.0 * (n - 1) as real <= (k + 1) as real }

  /** The unrounded percentile lies on the segment of the k-th and the next order statistic. */
  predicate Interpolated(value: real, low: real, high: real, k: nat, n: nat, pct: real) {
    OnSegment(value, low, high, k, pct / 100.0 * (n - 1) as real)
  }

  lemma InterpolatedAtIndex(s: seq<real>, pct: real, k: nat)
    requires k + 1 < |s| && 0.0 <= pct <= 100.0 && Inside(|s|, pct, k)
    ensures 0.0 <= IndexOf(|s|, pct) <= (|s| - 1) as real
    ensures Interpolated(Interpolate(s, IndexOf(|s|, pct)), s[k], s[k + 1], k, |s|, pct)
  {
    IndexBounds(|s|, pct);
    InterpolateOnSegment(s, IndexOf(|s|, pct), k);
  }

  /** Between two neighbouring order statistics the percentile lies on the straight line that joins them. */
  lemma RawIsInterpolated(data: seq<real>, pct: real, k: nat)
    requires 0.0 <= pct <= 100.0 && k + 1 < |data| && Inside(|data|, pct, k)
    ensures Interpolated(Raw(data, pct), Sort(data)[k], Sort(data)[k + 1], k, |data|, pct)
  {
    InterpolatedAtIndex(Sort(data), pct, k);
  }

  /** The points (p, a), (q, b) and (r, c) are on one line. */
  predicate Aligned(p: real, q: real, r: real, a: real, b: real, c: real) {
    (b - a) * (r - p) == (c - a) * (q - p)
  }

  lemma SegmentDifference(a: real, b: real, low: real, high: real, k: nat, x: real, y: real)
    requires OnSegment(a, low, high, k, x) && OnSegment(b, low, high, k, y)
    ensures b - a == (y - x) * (high - low)
  {
    var d := high - low;
    assert (y - k as real) * d - (x - k as real) * d == (y - x) * d;
  }

  lemma Scaled(p: real, q: real, w: real, d: real)
    ensures (q / 100.0 * w - p / 100.0 * w) * d == (q - p) * (w * d / 100.0)
  {
    var u := q / 100.0 - p / 100.0;
    assert q / 100.0 * w - p / 100.0 * w == u * w;
    assert u == (q - p) / 100.0;
    ThreeFactors(q - p, w, d);
  }

  lemma ThreeFactors(u: real, w: real, d: real)
    ensures u / 100.0 * w * d == u * (w * d / 100.0)
  {
    var m := w * d;
    assert u / 100.0 * w * d == u / 100.0 * m;
  }

  lemma Proportional(b: real, c: real, u: real, v: real, m: real)
    requires b == u * m && c == v * m
    ensures b * v == c * u
  {
    assert u * m * v == v * m * u;
  }

  lemma AlignedOnSegment(p: real, q: real, r: real, a: real, b: real, c: real, low: real, high: real, k: nat, n: nat)
    requires Interpolated(a, low, high, k, n, p) && Interpolated(b, low, high, k, n, q)
    requires Interpolated(c, low, high, k, n, r)
    ensures Aligned(p, q, r, a, b, c)
  {
    var w, d := (n - 1) as real, high - low;
    SegmentDifference(a, b, low, high, k, p / 100.0 * w, q / 100.0 * w);
    SegmentDifference(a, c, low, high, k, p / 100.0 * w, r / 100.0 * w);
    Scaled(p, q, w, d);
    Scaled(p, r, w, d);
    Proportional(b - a, c - a, q - p, r - p, w * d / 100.0);
  }

  /** Within one interval between order statistics the unrounded percentile is a linear function of `pct`. */
  lemma RawIsAffine(data: seq<real>, p: real, q: real, r: real, k: nat)
    requires 0.0 <= p <= 100.0 && 0.0 <= q <= 100.0 && 0.0 <= r <= 100.0 && k + 1 < |data|
    requires Inside(|data|, p, k) && Inside(|data|, q, k) && Inside(|data|, r, k)
    ensures Aligned(p, q, r, Raw(data, p), Raw(data, q), Raw(data, r))
  {
    var s := Sort(data);
    RawIsInterpolated(data, p, k);
    RawIsInterpolated(data, q, k);
    RawIsInterpolated(data, r, k);
    AlignedOnSegment(p, q, r, Raw(data, p), Raw(data, q), Raw(data, r), s[k], s[k + 1], k, |data|);
  }

  predicate InThousandths(value: real, n: int) { value == n as real / 1000.0 }

  /** The reported value is the unrounded one to three decimals; there is none without data. */
  lemma PercentileIsRounded(data: seq<real>, pct: real)
    requires 0.0 <= pct <= 100.0
    ensures PercentileOf(data, pct).None? <==> data == []
    ensures data != [] ==> -0.0005 <= PercentileOf(data, pct).value - Raw(data, pct) <= 0.0005
    ensures data != [] ==> exists n: int :: InThousandths(PercentileOf(data, pct).value, n)
  {
    if data != [] {
      var n := Round3IsThousandths(Raw(data, pct));
      assert InThousandths(PercentileOf(data, pct).value, n);
    }
  }

  /** The order of the measurements is irrelevant. */
  lemma PercentileOrderIrrelevant(a: seq<real>, b: seq<real>, pct: real)
    requires multiset(a) == multiset(b) && 0.0 <= pct <= 100.0
    ensures PercentileOf(a, pct) == PercentileOf(b, pct)
  {
    SortSorted(a);
    SortSorted(b);
    SortedUnique(Sort(a), Sort(b));
    assert |a| == |multiset(a)| == |multiset(b)| == |b|;
  }

  // ---- Collecting the measurements ----

  datatype Stamp = Absent | Malformed | At(ms: real)

  /** One trace: the stamps of its stages, by name. A missing stage reads as Absent. */
  type Trace = map<string, Stamp>

  function StampOf(t: Trace, stage: string): Stamp { if stage in t then t[stage] else Absent }

  datatype Hop = Hop(name: string, start: string, end: string)

  const HOPS: seq<Hop> := [
    Hop("queue_wait_ms", "enqueued_at", "dequeued_at"),
    Hop("pre_risk_ms", "dequeued_at", "risk_started_at"),
    Hop("risk_ms", "risk_started_at", "risk_finished_at"),
    Hop("exec_ms", "exec_started_at", "exec_submitted_at"),
    Hop("total_ms", "received_at", "exec_submitted_at")
  ]

  /** The duration of a hop, if both stamps are there, readable and in order. */
  function Measure(t: Trace, h: Hop): seq<real> {
    match (StampOf(t, h.start), StampOf(t, h.end))
    case (At(s), At(e)) => if e - s >= 0.0 then [e - s] else []
    case _ => []
  }

  function Durations(rows: seq<Trace>, h: Hop): seq<real> {
    if rows == [] then [] else Durations(rows[..|rows| - 1], h) + Measure(rows[|rows| - 1], h)
  }

  /** Nested loops filling one bucket per hop. */
  method Collect(rows: seq<Trace>) returns (buckets: seq<seq<real>>)
    ensures |buckets| == 5
    ensures buckets[0] == Durations(rows, Hop("queue_wait_ms", "enqueued_at", "dequeued_at"))
    ensures buckets[1] == Durations(rows, Hop("pre_risk_ms", "dequeued_at", "risk_started_at"))
    ensures buckets[2] == Durations(rows, Hop("risk_ms", "risk_started_at", "risk_finished_at"))
    ensures buckets[3] == Durations(rows, Hop("exec_ms", "exec_started_at", "exec_submitted_at"))
    ensures buckets[4] == Durations(rows, Hop("total_ms", "received_at", "exec_submitted_at"))
  {
    buckets := seq(|HOPS|, _ => []);
    for i := 0 to |rows|
      invariant |buckets| == |HOPS|
      invariant forall h :: 0 <= h < |HOPS| ==> buckets[h] == Durations(rows[..i], HOPS[h])
    {
      assert rows[..i + 1][..i] == rows[..i];
      buckets := CollectRow(buckets, rows[i], HOPS);
    }
    assert rows[..|rows|] == rows;
  }

  /** The inner loop: what one trace adds to each bucket. */
  method CollectRow(given: seq<seq<real>>, t: Trace, hops: seq<Hop>) returns (buckets: seq<seq<real>>)
    requires |given| == |hops|
    ensures |buckets| == |hops| && forall h :: 0 <= h < |hops| ==> buckets[h] == given[h] + Measure(t, hops[h])
  {
    buckets := given;
    for k := 0 to |hops|
      invariant |buckets| == |hops|
      invariant forall h :: 0 <= h < k ==> buckets[h] == given[h] + Measure(t, hops[h])
      invariant forall h :: k <= h < |hops| ==> buckets[h] == given[h]
    {
      var s, e := StampOf(t, hops[k].start), StampOf(t, hops[k].end);
      if s.At? && e.At? {
        var ms := e.ms - s.ms;
        if ms >= 0.0 { buckets := buckets[k := buckets[k] + [ms]]; }
      }
    }
  }

  predicate Took(t: Trace, h: Hop, ms: real) {
    && StampOf(t, h.start).At? && StampOf(t, h.end).At?
    && StampOf(t, h.end).ms - StampOf(t, h.start).ms == ms
  }

  /** Every collected duration is non-negative and comes from a trace with both stamps in order, and every
      such trace contributes. */
  lemma {:induction false} DurationsExact(rows: seq<Trace>, h: Hop, ms: real)
    ensures ms in Durations(rows, h) <==> ms >= 0.0 && exists i :: 0 <= i < |rows| && Took(rows[i], h, ms)
  {
    if rows != [] {
      var n := |rows| - 1;
      DurationsExact(rows[..n], h, ms);
      assert ms in Durations(rows, h) <==> ms in Durations(rows[..n], h) || ms in Measure(rows[n], h);
    }
  }
}

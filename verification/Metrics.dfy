/**
 * The latency histogram: exact counts per bucket, and percentiles estimated by interpolation.
 * Percentile arithmetic is over the reals; counters and durations are unbounded.
 */
module Metrics {
  import Text

  /** Upper bounds of the buckets in microseconds; one more bucket holds everything above the last. */
  const BOUNDS: seq<int> := [100, 250, 500, 1_000, 2_500, 5_000, 10_000, 25_000, 50_000, 100_000, 250_000, 1_000_000]
  const OVERFLOW := 12
  /** The upper end the estimate gives to the overflow bucket. */
  const OVERFLOW_TOP := 2_000_000

  /** Duration.Microseconds: division that truncates toward zero. */
  function Microseconds(ns: int): int {
    if ns < 0 then -(-ns / 1000) else ns / 1000
  }

  /** Whole microseconds, the rest of at most 999 nanoseconds dropped on the side of zero. */
  lemma MicrosecondsExactly(ns: int)
    ensures var us := Microseconds(ns);
      if ns >= 0 then us * 1000 <= ns < us * 1000 + 1000 else us * 1000 - 1000 < ns <= us * 1000
  {
  }

  // ----- buckets -----

  /** What it means for a sample to belong to bucket i. */
  predicate Belongs(us: int, i: nat) {
    && i <= OVERFLOW
    && (i > 0 ==> BOUNDS[i - 1] < us)
    && (i < OVERFLOW ==> us <= BOUNDS[i])
  }

  lemma BoundsIncrease(i: nat, j: nat)
    requires i < j < OVERFLOW
    ensures BOUNDS[i] < BOUNDS[j]
  {
    assert forall k :: 0 <= k < OVERFLOW - 1 ==> BOUNDS[k] < BOUNDS[k + 1];
    if i + 1 < j {
      BoundsIncrease(i, j - 1);
      assert BOUNDS[j - 1] < BOUNDS[j - 1 + 1];
    }
  }

  function BucketFrom(us: int, i: nat): (r: nat)
    requires i <= OVERFLOW
    ensures i <= r <= OVERFLOW
    decreases OVERFLOW - i
  {
    if i == OVERFLOW || us <= BOUNDS[i] then i else BucketFrom(us, i + 1)
  }

  /** The bucket of a sample, by a scan from the first bound. */
  function Bucket(us: int): (r: nat)
    ensures r <= OVERFLOW
  {
    BucketFrom(us, 0)
  }

  lemma {:induction false} BucketFromBelongs(us: int, i: nat)
    requires i <= OVERFLOW
    requires i > 0 ==> BOUNDS[i - 1] < us
    ensures Belongs(us, BucketFrom(us, i))
    decreases OVERFLOW - i
  {
    if i < OVERFLOW && us > BOUNDS[i] {
      BucketFromBelongs(us, i + 1);
    }
  }

  /** Every sample belongs to exactly one bucket. */
  lemma BucketIsUnique(us: int, i: nat)
    ensures Belongs(us, i) <==> i == Bucket(us)
  {
    BucketFromBelongs(us, 0);
    var b := Bucket(us);
    if Belongs(us, i) && i < b {
      if i < b - 1 { BoundsIncrease(i, b - 1); }
    } else if Belongs(us, i) && b < i {
      if b < i - 1 { BoundsIncrease(b, i - 1); }
    }
  }

  lemma {:induction false} BucketFromMonotone(x: int, y: int, i: nat)
    requires x <= y && i <= OVERFLOW
    ensures BucketFrom(x, i) <= BucketFrom(y, i)
    decreases OVERFLOW - i
  {
    if i < OVERFLOW && x > BOUNDS[i] {
      BucketFromMonotone(x, y, i + 1);
    }
  }

  lemma BucketIsMonotone(x: int, y: int)
    requires x <= y
    ensures Bucket(x) <= Bucket(y)
  {
    BucketFromMonotone(x, y, 0);
  }

  // ----- counts -----

  datatype Sample = Sample(status: int, us: int)

  /** What is served at /metrics; latencies in milliseconds, uptime in seconds. */
  datatype Snapshot = Snapshot(
    uptime: real, total: nat, inflight: int, byStatus: map<string, nat>, avg: real, p50: real, p90: real, p99: real)

  /** How many samples fall in bucket i. */
  function CountIn(s: seq<int>, i: nat): (n: nat)
    ensures n <= |s|
  {
    if s == [] then 0 else CountIn(s[..|s| - 1], i) + if Bucket(s[|s| - 1]) == i then 1 else 0
  }

  function StatusCount(s: seq<Sample>, status: int): (n: nat)
    ensures n <= |s|
  {
    if s == [] then 0
    else StatusCount(s[..|s| - 1], status) + if s[|s| - 1].status == status then 1 else 0
  }

  function Latencies(s: seq<Sample>): (r: seq<int>)
    ensures |r| == |s|
  {
    if s == [] then [] else Latencies(s[..|s| - 1]) + [s[|s| - 1].us]
  }

  function Total(s: seq<int>): int {
    if s == [] then 0 else Total(s[..|s| - 1]) + s[|s| - 1]
  }

  /** What the counters hold for a history of samples. */
  ghost predicate Counts(buckets: seq<nat>, s: seq<int>) {
    && |buckets| == OVERFLOW + 1
    && forall i :: 0 <= i <= OVERFLOW ==> buckets[i] == CountIn(s, i)
  }

  ghost predicate CountsStatuses(m: map<int, nat>, s: seq<Sample>) {
    && (forall k :: k in m <==> StatusCount(s, k) > 0)
    && (forall k :: k in m ==> m[k] == StatusCount(s, k))
  }

  lemma StatusCounted(m: map<int, nat>, s: seq<Sample>, x: Sample)
    requires CountsStatuses(m, s)
    ensures CountsStatuses(m[x.status := (if x.status in m then m[x.status] else 0) + 1], s + [x])
  {
    HistoryGrows(s, x);
    hide StatusCount;
  }

  lemma CountedShape(buckets: seq<nat>, s: seq<int>)
    requires Counts(buckets, s)
    ensures |buckets| == OVERFLOW + 1
  {
  }

  lemma CountedOne(buckets: seq<nat>, s: seq<int>, us: int, idx: nat)
    requires Counts(buckets, s) && idx == Bucket(us)
    ensures Counts(buckets[idx := buckets[idx] + 1], s + [us])
  {
    hide Bucket;
    assert (s + [us])[..|s|] == s;
  }

  lemma HistoryGrows(s: seq<Sample>, x: Sample)
    ensures Latencies(s + [x]) == Latencies(s) + [x.us]
    ensures Total(Latencies(s + [x])) == Total(Latencies(s)) + x.us
    ensures forall k :: StatusCount(s + [x], k) == StatusCount(s, k) + if x.status == k then 1 else 0
  {
    assert (s + [x])[..|s|] == s;
    assert (Latencies(s) + [x.us])[..|s|] == Latencies(s);
  }

  class Registry {
    const start: int
    var total: nat
    var inflight: int
    var sumUS: int
    var byStatus: map<int, nat>
    const buckets: array<nat>
    // Everything that has reached the buckets, oldest first.
    ghost var samples: seq<Sample>
    // Requests in the total, and latency in the sum, that have not reached the buckets yet.
    ghost var late: nat
    ghost var lateUS: int

    /** Holds between any two atomic steps of any number of requests. */
    ghost predicate Valid()
      reads this, buckets
    {
      && total == |samples| + late
      && sumUS == Total(Latencies(samples)) + lateUS
      && Counts(buckets[..], Latencies(samples))
      && CountsStatuses(byStatus, samples)
    }

    constructor (now: int)
      ensures Valid() && samples == [] && late == 0 && lateUS == 0 && inflight == 0 && start == now
    {
      start, total, inflight, sumUS, byStatus := now, 0, 0, 0, map[];
      late, lateUS := 0, 0;
      buckets := new nat[OVERFLOW + 1](i => 0);
      samples := [];
    }

    // Observe's three atomic steps.

    method CountRequest()
      requires Valid()
      modifies this`total, this`late
      ensures Valid() && late == old(late) + 1
    {
      total := total + 1;
      late := late + 1;
    }

    method AddLatency(us: int)
      requires Valid()
      modifies this`sumUS, this`lateUS
      ensures Valid() && lateUS == old(lateUS) + us
    {
      sumUS := sumUS + us;
      lateUS := lateUS + us;
    }

    /** The part under the mutex: once under its status, and in the one bucket its latency belongs to. */
    method Record(status: int, us: int)
      requires Valid() && late > 0
      modifies this`byStatus, this`samples, this`late, this`lateUS, buckets
      ensures Valid() && late == old(late) - 1 && lateUS == old(lateUS) - us
      ensures samples == old(samples) + [Sample(status, us)]
    {
      hide Counts, CountsStatuses, Bucket, CountIn, StatusCount, Latencies, Total, Belongs;
      StatusCounted(byStatus, samples, Sample(status, us));
      var idx := Search(us);
      byStatus := byStatus[status := (if status in byStatus then byStatus[status] else 0) + 1];
      CountedShape(buckets[..], Latencies(samples));
      BucketIsUnique(us, idx);
      CountedOne(buckets[..], Latencies(samples), us, idx);
      HistoryGrows(samples, Sample(status, us));
      buckets[idx] := buckets[idx] + 1;
      samples := samples + [Sample(status, us)];
      late, lateUS := late - 1, lateUS - us;
      assert buckets[..] == old(buckets[..])[idx := old(buckets[..])[idx] + 1];
    }

    method Observe(status: int, ns: int)
      requires Valid()
      modifies this, buckets
      ensures Valid() && late == old(late) && lateUS == old(lateUS) && inflight == old(inflight)
      ensures samples == old(samples) + [Sample(status, Microseconds(ns))]
      ensures var us := samples[|old(samples)|].us;
        if ns >= 0 then us * 1000 <= ns < us * 1000 + 1000 else us * 1000 - 1000 < ns <= us * 1000
    {
      MicrosecondsExactly(ns);
      CountRequest();
      AddLatency(Microseconds(ns));
      Record(status, Microseconds(ns));
    }

    /** The middleware around one request: in flight while it runs, observed afterwards. */
    method Enter()
      requires Valid()
      modifies this`inflight
      ensures Valid() && inflight == old(inflight) + 1
    {
      inflight := inflight + 1;
    }

    method Leave(status: int, ns: int)
      requires Valid()
      modifies this, buckets
      ensures Valid() && inflight == old(inflight) - 1 && late == old(late) && lateUS == old(lateUS)
      ensures samples == old(samples) + [Sample(status, Microseconds(ns))]
    {
      inflight := inflight - 1;
      Observe(status, ns);
    }

    /** A snapshot taken at one moment, whatever requests are between their counters: status counts, and
        percentiles of the samples that have reached the buckets, for ranks out of all counted. The percentiles
        are in order when no request is on its way, and exactly unless InOrder fails. */
    method TakeSnapshot(now: int) returns (snap: Snapshot)
      requires Valid()
      ensures Summed(snap, Seconds(now - start), |samples| + late, byStatus, buckets[..], inflight,
        Total(Latencies(samples)) + lateUS)
      ensures NamesStatuses(snap.byStatus, samples) && Counts(buckets[..], Latencies(samples))
      ensures late == 0 ==> snap.p50 <= snap.p90 <= snap.p99
      ensures |samples| > 0 && late == 0 ==>
        snap.avg * 1000.0 * |samples| as real == Total(Latencies(samples)) as real + lateUS as real
      ensures snap.uptime * 1_000_000_000.0 == (now - start) as real
    {
      hide Counts, CountsStatuses, Latencies, Total, InOrder, Summed, Seconds, NamesStatuses, Named;
      CountedShape(buckets[..], Latencies(samples));
      SettledSnapshot(buckets[..], Latencies(samples));
      assert total == |samples| + late && sumUS == Total(Latencies(samples)) + lateUS;
      snap := Summarize(Seconds(now - start), total, byStatus, buckets[..], inflight, sumUS);
      SummedOrder(snap, Seconds(now - start), total, byStatus, buckets[..], inflight, sumUS);
      StatusesNamed(byStatus, snap.byStatus, samples);
      AveragedUnits(snap, now - start, total, byStatus, buckets[..], inflight, sumUS);
    }
  }

  /** What a snapshot of these values says; the percentiles are in order exactly where InOrder holds. */
  ghost predicate Summed(
    snap: Snapshot, uptime: real, total: nat, byStatus: map<int, nat>, buckets: seq<nat>, inflight: int, sumUS: int)
  {
    && |buckets| == OVERFLOW + 1
    && snap.uptime == uptime && snap.total == total && snap.inflight == inflight && Named(byStatus, snap.byStatus)
    && (total == 0 ==> snap.avg == snap.p50 == snap.p90 == snap.p99 == 0.0)
    && (total > 0 ==>
          && snap.avg == Average(sumUS, total)
          && Reported(0.5, buckets, total, snap.p50 * 1000.0)
          && Reported(0.9, buckets, total, snap.p90 * 1000.0)
          && Reported(0.99, buckets, total, snap.p99 * 1000.0))
    && (snap.p50 <= snap.p90 <==> InOrder(0.5, 0.9, buckets, total))
    && (snap.p90 <= snap.p99 <==> InOrder(0.9, 0.99, buckets, total))
  }

  lemma SummedOrder(
    snap: Snapshot, uptime: real, total: nat, byStatus: map<int, nat>, buckets: seq<nat>, inflight: int, sumUS: int)
    requires Summed(snap, uptime, total, byStatus, buckets, inflight, sumUS)
    ensures |buckets| == OVERFLOW + 1 && Named(byStatus, snap.byStatus)
    ensures InOrder(0.5, 0.9, buckets, total) && InOrder(0.9, 0.99, buckets, total) ==> snap.p50 <= snap.p90 <= snap.p99
  {
    hide Named, Reported, InOrder, Average;
  }

  lemma SettledSnapshot(buckets: seq<nat>, s: seq<int>)
    requires Counts(buckets, s)
    ensures InOrder(0.5, 0.9, buckets, |s|) && InOrder(0.9, 0.99, buckets, |s|)
  {
    EverySampleCounted(buckets, s);
    hide InOrder, Sum;
    SettledInOrder(0.5, 0.9, buckets);
    SettledInOrder(0.9, 0.99, buckets);
  }

  /** The mean of n latencies with this sum in microseconds, in milliseconds. */
  function Average(us: int, n: nat): real
    requires n > 0
  {
    us as real / n as real / 1000.0
  }

  /** The average times the number of requests is the sum of their latencies; uptime is in seconds. */
  lemma AveragedUnits(
    snap: Snapshot, ns: int, total: nat, byStatus: map<int, nat>, buckets: seq<nat>, inflight: int, sumUS: int)
    requires Summed(snap, Seconds(ns), total, byStatus, buckets, inflight, sumUS)
    ensures total > 0 ==> snap.avg * 1000.0 * total as real == sumUS as real
    ensures snap.uptime * 1_000_000_000.0 == ns as real
  {
    hide Named, Reported, InOrder;
    if total > 0 { MeanOf(sumUS, total); }
  }

  lemma MeanOf(us: int, n: nat)
    requires n > 0
    ensures Average(us, n) * 1000.0 * n as real == us as real
  {
    var mean := us as real / n as real;
    assert Average(us, n) * 1000.0 == mean;
    assert mean * n as real == us as real;
  }

  function Seconds(ns: int): real {
    ns as real / 1_000_000_000.0
  }

  /** The status counts under their printed names. */
  ghost predicate Named(m: map<int, nat>, named: map<string, nat>) {
    && (forall k :: k in m <==> Text.Itoa(k) in named)
    && (forall k :: k in m ==> named[Text.Itoa(k)] == m[k])
    && forall t :: t in named ==> exists k :: k in m && t == Text.Itoa(k)
  }

  /** Every status that occurred, and no other, is reported under its printed name with its count. */
  ghost predicate NamesStatuses(named: map<string, nat>, s: seq<Sample>) {
    && (forall k :: StatusCount(s, k) > 0 <==> Text.Itoa(k) in named)
    && (forall k :: StatusCount(s, k) > 0 ==> named[Text.Itoa(k)] == StatusCount(s, k))
    && forall t :: t in named ==> exists k :: StatusCount(s, k) > 0 && t == Text.Itoa(k)
  }

  lemma StatusesNamed(m: map<int, nat>, named: map<string, nat>, s: seq<Sample>)
    requires CountsStatuses(m, s) && Named(m, named)
    ensures NamesStatuses(named, s)
  {
    hide Text.Itoa, StatusCount;
    forall t | t in named
      ensures exists k :: StatusCount(s, k) > 0 && t == Text.Itoa(k)
    {
      var k :| k in m && t == Text.Itoa(k);
    }
  }

  method NameStatuses(m: map<int, nat>) returns (named: map<string, nat>)
    ensures Named(m, named)
  {
    named := map[];
    var rest := m.Items;
    while rest != {}
      invariant rest <= m.Items
      invariant forall k :: k in m && (k, m[k]) !in rest <==> Text.Itoa(k) in named
      invariant forall k :: k in m && (k, m[k]) !in rest ==> named[Text.Itoa(k)] == m[k]
      invariant forall t :: t in named ==> exists k :: k in m && t == Text.Itoa(k)
    {
      var item :| item in rest;
      var (k, n) := item;
      forall j | Text.Itoa(j) == Text.Itoa(k) ensures j == k { Text.ItoaInjective(j, k); }
      hide Text.Itoa;
      named := named[Text.Itoa(k) := n];
      rest := rest - {item};
    }
  }

  /** The snapshot's arithmetic, on whatever its separate loads saw. */
  method Summarize(uptime: real, total: nat, byStatus: map<int, nat>, buckets: seq<nat>, inflight: int, sumUS: int)
    returns (snap: Snapshot)
    requires |buckets| == OVERFLOW + 1
    ensures Summed(snap, uptime, total, byStatus, buckets, inflight, sumUS)
  {
    ReadyInOrder(0.5, 0.9, buckets);
    ReadyInOrder(0.9, 0.99, buckets);
    hide Reported, Named, InOrder, Average;
    var named := NameStatuses(byStatus);
    snap := Snapshot(uptime, total, inflight, named, 0.0, 0.0, 0.0, 0.0);
    if total > 0 {
      var p50 := Percentile(0.5, buckets, total);
      var p90 := Percentile(0.9, buckets, total);
      var p99 := Percentile(0.99, buckets, total);
      MonotoneExactly(0.5, 0.9, buckets, total, p50, p90);
      MonotoneExactly(0.9, 0.99, buckets, total, p90, p99);
      snap := snap.(avg := Average(sumUS, total), p50 := p50 / 1000.0, p90 := p90 / 1000.0, p99 := p99 / 1000.0);
    }
  }

  /** sort.Search over the bounds: the least index whose bound is at least us. */
  method Search(us: int) returns (idx: nat)
    ensures Belongs(us, idx) && idx <= OVERFLOW
  {
    var i, j := 0, OVERFLOW;
    while i < j
      invariant 0 <= i <= j <= OVERFLOW
      invariant i > 0 ==> BOUNDS[i - 1] < us
      invariant j < OVERFLOW ==> us <= BOUNDS[j]
    {
      var h := (i + j) / 2;
      if us <= BOUNDS[h] {
        j := h;
      } else {
        i := h + 1;
      }
    }
    idx := i;
  }

  // ----- percentiles -----

  function Cum(buckets: seq<nat>, i: nat): nat
    requires i <= |buckets|
  {
    if i == 0 then 0 else Cum(buckets, i - 1) + buckets[i - 1]
  }

  function Sum(buckets: seq<nat>): nat {
    Cum(buckets, |buckets|)
  }

  function Lo(i: nat): int
    requires i <= OVERFLOW
  {
    if i > 0 then BOUNDS[i - 1] else 0
  }

  function Hi(i: nat): int
    requires i <= OVERFLOW
  {
    if i < OVERFLOW then BOUNDS[i] else OVERFLOW_TOP
  }

  /** Bucket i is the first whose cumulative count reaches the rank. */
  ghost predicate Selected(buckets: seq<nat>, rank: real, i: nat) {
    && i < |buckets|
    && rank <= Cum(buckets, i + 1) as real
    && forall j :: 0 < j <= i ==> Cum(buckets, j) as real < rank
  }

  function Ratio(x: real, n: nat): real
    requires n > 0
  {
    x / n as real
  }

  function Scale(x: real, d: int): real {
    x * d as real
  }

  /** The value interpolated in bucket i for a rank. */
  function Interpolate(buckets: seq<nat>, rank: real, i: nat): real
    requires i < |buckets| == OVERFLOW + 1
  {
    if buckets[i] == 0 then Hi(i) as real
    else Lo(i) as real + Scale(Ratio(rank - Cum(buckets, i) as real, buckets[i]), Hi(i) - Lo(i))
  }

  function Rank(p: real, total: nat): real {
    p * total as real
  }

  /** The value reported for a rank, as a relation between the inputs and the result. */
  ghost predicate ReportedAt(buckets: seq<nat>, rank: real, e: real)
    requires |buckets| == OVERFLOW + 1
  {
    if rank > Sum(buckets) as real then e == BOUNDS[OVERFLOW - 1] as real
    else exists i: nat :: Selected(buckets, rank, i) && e == Interpolate(buckets, rank, i)
  }

  /** The reported percentile. */
  ghost predicate Reported(p: real, buckets: seq<nat>, total: nat, e: real)
    requires |buckets| == OVERFLOW + 1
  {
    if total == 0 then e == 0.0 else ReportedAt(buckets, Rank(p, total), e)
  }

  method Percentile(p: real, buckets: seq<nat>, total: nat) returns (e: real)
    requires |buckets| == OVERFLOW + 1
    ensures Reported(p, buckets, total, e)
  {
    hide Rank;
    if total == 0 {
      return 0.0;
    }
    var rank := Rank(p, total);
    var cum := 0;
    var i := 0;
    while i < |buckets|
      invariant 0 <= i <= |buckets|
      invariant cum == Cum(buckets, i)
      invariant forall j :: 0 < j <= i ==> Cum(buckets, j) as real < rank
    {
      var cnt := buckets[i];
      var prev := cum;
      cum := cum + cnt;
      if cum as real >= rank {
        CumGrows(buckets, i + 1, |buckets|);
        assert Selected(buckets, rank, i);
        var lo := if i > 0 then BOUNDS[i - 1] else 0;
        var hi := if i < |BOUNDS| then BOUNDS[i] else OVERFLOW_TOP;
        if cnt == 0 {
          return hi as real;
        }
        var frac := Ratio(rank - prev as real, cnt);
        return lo as real + Scale(frac, hi - lo);
      }
      i := i + 1;
    }
    e := BOUNDS[|BOUNDS| - 1] as real;
  }

  // ----- laws -----

  lemma {:induction false} CumGrows(buckets: seq<nat>, i: nat, j: nat)
    requires i <= j <= |buckets|
    ensures Cum(buckets, i) <= Cum(buckets, j)
    decreases j
  {
    if i < j {
      CumGrows(buckets, i, j - 1);
    }
  }

  /** A larger rank selects the same or a later bucket. */
  lemma SelectionIsMonotone(buckets: seq<nat>, r: real, i: nat, q: real, j: nat)
    requires r <= q && Selected(buckets, r, i) && Selected(buckets, q, j)
    ensures i <= j
  {
    assert forall k :: 0 < k <= i ==> Cum(buckets, k) as real < q;
    assert !(0 < j + 1 <= i);
  }

  lemma ProductBounds(f: real, d: real)
    requires d > 0.0
    ensures f <= 1.0 ==> f * d <= d
    ensures f > 0.0 ==> f * d > 0.0
  {
  }

  lemma QuotientBounds(x: real, n: real)
    requires n > 0.0
    ensures x <= n ==> x / n <= 1.0
    ensures x > 0.0 ==> x / n > 0.0
  {
    var q := x / n;
    assert q * n == x;
    ProductGrows(1.0, if q > 1.0 then q else 1.0, n);
    if q <= 0.0 { ProductGrows(q, 0.0, n); }
  }

  lemma ScaledInside(x: real, n: nat, d: int)
    requires x <= n as real && n > 0 && d > 0
    ensures Scale(Ratio(x, n), d) <= d as real
    ensures x > 0.0 ==> Scale(Ratio(x, n), d) > 0.0
  {
    QuotientBounds(x, n as real);
    hide Ratio;
    ProductBounds(Ratio(x, n), d as real);
  }

  lemma ProductGrows(f: real, g: real, d: real)
    requires f <= g && d > 0.0
    ensures f * d <= g * d
  {
  }

  lemma QuotientGrows(x: real, y: real, n: real)
    requires x <= y && n > 0.0
    ensures x / n <= y / n
  {
    var q, r := x / n, y / n;
    assert q * n == x && r * n == y;
    if r <= q { ProductGrows(r, q, n); }
  }

  lemma ScaledGrows(x: real, y: real, n: nat, d: int)
    requires x <= y && n > 0 && d > 0
    ensures Scale(Ratio(x, n), d) <= Scale(Ratio(y, n), d)
  {
    QuotientGrows(x, y, n as real);
    hide Ratio;
    ProductGrows(Ratio(x, n), Ratio(y, n), d as real);
  }

  /** Buckets are not empty intervals, and a later one begins where an earlier one ends or after. */
  lemma BucketsInOrder(i: nat, j: nat)
    requires i <= j <= OVERFLOW
    ensures Lo(i) < Hi(i)
    ensures i < j ==> Hi(i) <= Lo(j)
  {
    if 0 < i < OVERFLOW { BoundsIncrease(i - 1, i); }
    if i + 1 < j { BoundsIncrease(i, j - 1); }
  }

  /**
   * In the selected bucket the estimate is never above the upper end, and it is above the lower
   * end when the rank is positive.
   */
  lemma InterpolateInside(buckets: seq<nat>, rank: real, i: nat)
    requires |buckets| == OVERFLOW + 1 && Selected(buckets, rank, i)
    ensures Interpolate(buckets, rank, i) <= Hi(i) as real
    ensures rank > 0.0 ==> buckets[i] > 0 && Lo(i) as real < Interpolate(buckets, rank, i)
  {
    hide Scale, Ratio, Lo, Hi;
    BucketsInOrder(i, i);
    assert i > 0 ==> Cum(buckets, i) as real < rank;
    if buckets[i] > 0 {
      ScaledInside(rank - Cum(buckets, i) as real, buckets[i], Hi(i) - Lo(i));
    }
  }

  /** For ranks within what the buckets hold, a higher rank is never reported lower. */
  /** The estimate runs through the bucket at an even pace: from its lower end, where the samples before it end, to its
      upper end at its last sample. */
  lemma InterpolateIsLinear(buckets: seq<nat>, q: real, r: real, i: nat)
    requires i < |buckets| == OVERFLOW + 1 && buckets[i] > 0
    ensures Interpolate(buckets, Cum(buckets, i) as real, i) == Lo(i) as real
    ensures Interpolate(buckets, Cum(buckets, i + 1) as real, i) == Hi(i) as real
    ensures (Interpolate(buckets, q, i) - Interpolate(buckets, r, i)) * buckets[i] as real == (q - r) * (Hi(i) - Lo(i)) as real
  {
    var c, n, d := Cum(buckets, i) as real, buckets[i], Hi(i) - Lo(i);
    assert Cum(buckets, i + 1) == Cum(buckets, i) + n;
    EvenPace(0.0, 0.0, n, d);
    EvenPace(n as real, 0.0, n, d);
    EvenPace(q - c, r - c, n, d);
    hide Cum, Lo, Hi, Scale, Ratio;
    assert c - c == 0.0 && Cum(buckets, i + 1) as real - c == n as real;
  }

  lemma EvenPace(x: real, y: real, n: nat, d: int)
    requires n > 0
    ensures Scale(Ratio(0.0, n), d) == 0.0 && Scale(Ratio(n as real, n), d) == d as real
    ensures (Scale(Ratio(x, n), d) - Scale(Ratio(y, n), d)) * n as real == (x - y) * d as real
  {
    var m, e := n as real, d as real;
    assert m / m == 1.0 && 0.0 / m == 0.0;
    assert x / m * m == x && y / m * m == y;
    assert (x / m * e - y / m * e) * m == x / m * m * e - y / m * m * e;
  }

  lemma InterpolateIsMonotone(buckets: seq<nat>, r: real, i: nat, q: real, j: nat)
    requires |buckets| == OVERFLOW + 1 && r <= q
    requires Selected(buckets, r, i) && Selected(buckets, q, j)
    ensures Interpolate(buckets, r, i) <= Interpolate(buckets, q, j)
  {
    hide Scale, Ratio, Lo, Hi;
    SelectionIsMonotone(buckets, r, i, q, j);
    InterpolateInside(buckets, r, i);
    InterpolateInside(buckets, q, j);
    BucketsInOrder(i, j);
    if i < j {
      assert Cum(buckets, j) as real < q;
    } else if buckets[i] > 0 {
      var c := Cum(buckets, i) as real;
      ScaledGrows(r - c, q - c, buckets[i], Hi(i) - Lo(i));
    }
  }

  /**
   * A rank the buckets hold before the overflow bucket is reported at most as the last bound; one
   * the overflow bucket holds is reported above it.
   */
  lemma OverflowReported(buckets: seq<nat>, r: real, e: real)
    requires |buckets| == OVERFLOW + 1
    requires r <= Sum(buckets) as real && ReportedAt(buckets, r, e)
    ensures e <= BOUNDS[OVERFLOW - 1] as real <==> r <= Cum(buckets, OVERFLOW) as real
  {
    hide Interpolate;
    var i: nat :| Selected(buckets, r, i) && e == Interpolate(buckets, r, i);
    InterpolateInside(buckets, r, i);
    if i < OVERFLOW {
      BucketsInOrder(i, OVERFLOW);
      CumGrows(buckets, i + 1, OVERFLOW);
    } else {
      assert Cum(buckets, OVERFLOW) as real < r;
    }
  }

  /**
   * Two ranks r <= q come out in order exactly when r is not in the overflow bucket with q past
   * everything the buckets hold.
   */
  lemma RanksInOrderExactly(buckets: seq<nat>, r: real, q: real, e: real, f: real)
    requires |buckets| == OVERFLOW + 1 && r <= q
    requires ReportedAt(buckets, r, e) && ReportedAt(buckets, q, f)
    ensures e <= f <==> !(Cum(buckets, OVERFLOW) as real < r <= Sum(buckets) as real < q)
  {
    hide Interpolate;
    if q <= Sum(buckets) as real {
      var i: nat :| Selected(buckets, r, i) && e == Interpolate(buckets, r, i);
      var j: nat :| Selected(buckets, q, j) && f == Interpolate(buckets, q, j);
      InterpolateIsMonotone(buckets, r, i, q, j);
    } else if r <= Sum(buckets) as real {
      OverflowReported(buckets, r, e);
    }
  }

  /** The race does not leave percentile p in the overflow bucket and q past everything the buckets hold. */
  predicate InOrder(p: real, q: real, buckets: seq<nat>, total: nat)
    requires |buckets| == OVERFLOW + 1
  {
    total == 0 || !(Cum(buckets, OVERFLOW) as real < Rank(p, total) <= Sum(buckets) as real < Rank(q, total))
  }

  lemma ReadyInOrder(p: real, q: real, buckets: seq<nat>)
    requires |buckets| == OVERFLOW + 1
    ensures InOrder(p, q, buckets, 0)
  {
  }

  /** A total no larger than what the buckets hold keeps percentiles up to the hundredth in order. */
  lemma SettledInOrder(p: real, q: real, buckets: seq<nat>)
    requires |buckets| == OVERFLOW + 1 && p <= q <= 1.0
    ensures InOrder(p, q, buckets, Sum(buckets))
  {
    RankGrows(q, 1.0, Sum(buckets));
    hide Rank, Cum;
  }

  /**
   * A snapshot reads the total before the buckets, and a request enters the total before it
   * enters a bucket, so the total may exceed what the buckets hold. Percentiles p <= q come out
   * in order exactly when InOrder holds.
   */
  lemma MonotoneExactly(p: real, q: real, buckets: seq<nat>, total: nat, e: real, f: real)
    requires |buckets| == OVERFLOW + 1 && p <= q
    requires Reported(p, buckets, total, e) && Reported(q, buckets, total, f)
    ensures e <= f <==> InOrder(p, q, buckets, total)
  {
    RankGrows(p, q, total);
    hide Rank, ReportedAt;
    if total > 0 {
      RanksInOrderExactly(buckets, Rank(p, total), Rank(q, total), e, f);
    }
  }

  /** One slow request held by a bucket, a second one only counted in the total so far. */
  const RACING: seq<nat> := [0, 0, 0, 0, 0, 0, 0, 0, 0, 0, 0, 0, 1]

  lemma {:induction false} RacingCum(i: nat)
    requires i <= OVERFLOW
    ensures Cum(RACING, i) == 0
  {
    if i > 0 { RacingCum(i - 1); }
  }

  /** The race at work: the median is reported at two seconds and the 99th percentile at one. */
  lemma RaceReorders()
    ensures Reported(0.5, RACING, 2, 2_000_000.0) && Reported(0.99, RACING, 2, 1_000_000.0)
  {
    assert |RACING| == OVERFLOW + 1;
    forall i | 0 <= i <= OVERFLOW ensures Cum(RACING, i) == 0 { RacingCum(i); }
    assert Cum(RACING, OVERFLOW + 1) == 1;
    assert Selected(RACING, 1.0, OVERFLOW);
    assert Interpolate(RACING, 1.0, OVERFLOW) == 2_000_000.0;
  }

  /** With the total equal to what the buckets hold, percentiles up to the hundredth are in order. */
  lemma SettledIsMonotone(p: real, q: real, buckets: seq<nat>, e: real, f: real)
    requires |buckets| == OVERFLOW + 1 && p <= q <= 1.0
    requires Reported(p, buckets, Sum(buckets), e) && Reported(q, buckets, Sum(buckets), f)
    ensures e <= f
  {
    hide Reported, InOrder;
    SettledInOrder(p, q, buckets);
    MonotoneExactly(p, q, buckets, Sum(buckets), e, f);
  }

  lemma RankGrows(p: real, q: real, total: nat)
    requires p <= q
    ensures Rank(p, total) <= Rank(q, total)
    ensures Rank(1.0, total) == total as real
    ensures p > 0.0 && total > 0 ==> Rank(p, total) > 0.0
  {
  }

  // ----- order statistics -----

  ghost predicate Sorted(s: seq<int>) {
    forall i, j :: 0 <= i < j < |s| ==> s[i] <= s[j]
  }

  /** How many samples fall in buckets before bucket i. */
  function CountBelow(s: seq<int>, i: nat): (n: nat)
    ensures n <= |s|
  {
    if s == [] then 0 else CountBelow(s[..|s| - 1], i) + if Bucket(s[|s| - 1]) < i then 1 else 0
  }

  lemma {:induction false} CountBelowSplits(s: seq<int>, i: nat)
    ensures CountBelow(s, 0) == 0
    ensures CountBelow(s, i + 1) == CountBelow(s, i) + CountIn(s, i)
  {
    if s != [] {
      CountBelowSplits(s[..|s| - 1], i);
    }
  }

  lemma {:induction false} CumCounts(buckets: seq<nat>, s: seq<int>, i: nat)
    requires Counts(buckets, s) && i <= OVERFLOW + 1
    ensures Cum(buckets, i) == CountBelow(s, i)
  {
    if i > 0 {
      CumCounts(buckets, s, i - 1);
      CountBelowSplits(s, i - 1);
    } else {
      CountBelowSplits(s, 0);
    }
  }

  /** The buckets together hold every sample. */
  lemma {:induction false} AllCounted(s: seq<int>)
    ensures CountBelow(s, OVERFLOW + 1) == |s|
  {
    if s != [] {
      AllCounted(s[..|s| - 1]);
    }
  }

  lemma EverySampleCounted(buckets: seq<nat>, s: seq<int>)
    requires Counts(buckets, s)
    ensures Sum(buckets) == |s|
  {
    AllCounted(s);
    CumCounts(buckets, s, OVERFLOW + 1);
  }

  lemma {:induction false} CountBelowRemoves(s: seq<int>, k: nat, i: nat)
    requires k < |s|
    ensures CountBelow(s, i) == CountBelow(s[..k] + s[k + 1..], i) + if Bucket(s[k]) < i then 1 else 0
    decreases |s|
  {
    hide Bucket;
    var n := |s| - 1;
    var r := s[..k] + s[k + 1..];
    if k == n {
      assert r == s[..n];
    } else {
      CountBelowRemoves(s[..n], k, i);
      assert r[..n - 1] == s[..n][..k] + s[..n][k + 1..];
      assert r[n - 1] == s[n];
      assert |r| == n;
    }
  }

  /** The counts depend only on which samples there are, not on their order. */
  lemma {:induction false} CountBelowPermutes(s: seq<int>, t: seq<int>, i: nat)
    requires multiset(s) == multiset(t)
    ensures CountBelow(s, i) == CountBelow(t, i)
    decreases |s|
  {
    hide Bucket;
    if s == [] {
      assert |multiset(t)| == 0;
    } else {
      var n := |s| - 1;
      var k := Found(s, t);
      Removed(s, t, k);
      CountBelowPermutes(s[..n], t[..k] + t[k + 1..], i);
      CountBelowRemoves(t, k, i);
    }
  }

  lemma Found(s: seq<int>, t: seq<int>) returns (k: nat)
    requires multiset(s) == multiset(t) && s != []
    ensures k < |t| && t[k] == s[|s| - 1]
  {
    assert s[|s| - 1] in multiset(s);
    k :| 0 <= k < |t| && t[k] == s[|s| - 1];
  }

  lemma Removed(s: seq<int>, t: seq<int>, k: nat)
    requires multiset(s) == multiset(t) && s != []
    requires k < |t| && t[k] == s[|s| - 1]
    ensures multiset(s[..|s| - 1]) == multiset(t[..k] + t[k + 1..])
  {
    var u := t[..k] + t[k + 1..];
    assert t == t[..k] + [t[k]] + t[k + 1..];
    assert s == s[..|s| - 1] + [t[k]];
    assert multiset(t) == multiset(u) + multiset{t[k]};
    assert multiset(s) == multiset(s[..|s| - 1]) + multiset{t[k]};
    assert multiset(u) == multiset(t) - multiset{t[k]};
  }

  /** In a sorted list the samples of earlier buckets come first. */
  lemma {:induction false} SortedCount(t: seq<int>, k: nat, i: nat)
    requires Sorted(t) && k < |t|
    ensures Bucket(t[k]) < i <==> k < CountBelow(t, i)
    decreases |t|
  {
    hide Bucket;
    var n := |t| - 1;
    if k < n {
      SortedCount(t[..n], k, i);
      BucketIsMonotone(t[k], t[n]);
    } else if n > 0 {
      SortedCount(t[..n], n - 1, i);
      BucketIsMonotone(t[n - 1], t[n]);
      assert t[..n][n - 1] == t[n - 1];
    }
  }

  /**
   * For any samples and any rank the buckets reach, the sample of that rank (the k-th smallest,
   * k the least integer not below the rank) lies in the selected bucket, and so does the
   * estimate. The sample is between the ends used for its bucket unless it is negative or past
   * the top.
   */
  lemma RankBrackets(buckets: seq<nat>, s: seq<int>, t: seq<int>, rank: real, k: nat, e: real)
    requires Counts(buckets, s) && multiset(t) == multiset(s) && Sorted(t)
    requires 0.0 < rank <= |s| as real && (k - 1) as real < rank <= k as real
    requires ReportedAt(buckets, rank, e)
    ensures 0 < k <= |t| && Selected(buckets, rank, Bucket(t[k - 1]))
    ensures var i := Bucket(t[k - 1]);
            && Lo(i) as real < e <= Hi(i) as real
            && (Lo(i) <= t[k - 1] <= Hi(i) <==> 0 <= t[k - 1] <= OVERFLOW_TOP)
  {
    hide Bucket, Interpolate;
    assert |multiset(t)| == |multiset(s)|;
    assert k <= |t|;
    var x := t[k - 1];
    EverySampleCounted(buckets, s);
    var i: nat :| Selected(buckets, rank, i) && e == Interpolate(buckets, rank, i);
    CumCounts(buckets, s, i);
    CumCounts(buckets, s, i + 1);
    CountBelowPermutes(s, t, i);
    CountBelowPermutes(s, t, i + 1);
    SortedCount(t, k - 1, i);
    SortedCount(t, k - 1, i + 1);
    assert i > 0 ==> Cum(buckets, i) as real < rank;
    assert Bucket(x) == i;
    InterpolateInside(buckets, rank, i);
    BucketIsUnique(x, i);
    EndsHold(x, i);
  }

  lemma EndsHold(x: int, i: nat)
    requires Belongs(x, i)
    ensures Lo(i) <= x <= Hi(i) <==> 0 <= x <= OVERFLOW_TOP
  {
    assert BOUNDS[0] == 100 && BOUNDS[11] == 1_000_000;
    if i == OVERFLOW {
      assert Lo(i) == 1_000_000 < x;
      assert Hi(i) == 2_000_000;
    } else if i == 0 {
      assert Lo(i) == 0 && x <= Hi(i) == 100;
    } else {
      if i < OVERFLOW - 1 { BoundsIncrease(i, OVERFLOW - 1); }
      if i > 1 { BoundsIncrease(0, i - 1); }
      assert 100 <= Lo(i) < x <= Hi(i) <= 1_000_000;
    }
  }

  /**
   * The percentile of a registry whose requests have all reached the buckets brackets the true
   * order statistic of everything it observed.
   */
  lemma PercentileBrackets(p: real, buckets: seq<nat>, s: seq<int>, t: seq<int>, k: nat, e: real)
    requires Counts(buckets, s) && multiset(t) == multiset(s) && Sorted(t)
    requires 0.0 < p <= 1.0 && |s| > 0
    requires (k - 1) as real < p * |s| as real <= k as real
    requires Reported(p, buckets, |s|, e)
    ensures 0 < k <= |t|
    ensures var i := Bucket(t[k - 1]);
            && Selected(buckets, Rank(p, |s|), i)
            && Lo(i) as real < e <= Hi(i) as real
            && (Lo(i) <= t[k - 1] <= Hi(i) <==> 0 <= t[k - 1] <= OVERFLOW_TOP)
  {
    RankGrows(p, 1.0, |s|);
    assert Rank(p, |s|) == p * |s| as real;
    hide Rank, ReportedAt, Bucket, Selected, Counts;
    RankBrackets(buckets, s, t, Rank(p, |s|), k, e);
  }
}

/** What the rate limiter promises over whole runs: a bound for every window, and an eviction nobody can see. */
module RateLimitLaws {
  import opened RateLimit

  datatype Event = Take(key: string, now: int) | Sweep(now: int)

  function Step(m: Buckets, ev: Event, c: Limit): (Buckets, seq<Verdict>) {
    match ev
    case Take(key, now) => var (b, v) := TakeBy(m, key, now, c); (m[key := b], [v])
    case Sweep(now) => (Swept(m, now, c), [])
  }

  function Run(m: Buckets, evs: seq<Event>, c: Limit): Buckets
    decreases |evs|
  {
    if evs == [] then m else Run(Step(m, evs[0], c).0, evs[1..], c)
  }

  function Verdicts(m: Buckets, evs: seq<Event>, c: Limit): seq<Verdict>
    decreases |evs|
  {
    if evs == [] then [] else Step(m, evs[0], c).1 + Verdicts(Step(m, evs[0], c).0, evs[1..], c)
  }

  // ----- arithmetic -----

  lemma SecondsAdd(a: int, b: int)
    ensures Seconds(a + b) == Seconds(a) + Seconds(b)
  {
  }

  lemma Scale(a: real, b: real, r: real)
    requires a <= b && r >= 0.0
    ensures a * r <= b * r
  {
  }

  lemma Spread(a: real, b: real, r: real)
    ensures (a + b) * r == a * r + b * r
  {
  }

  /** Refill is additive in time. */
  lemma GainAdds(t0: int, t1: int, t2: int, r: real)
    ensures Seconds(t2 - t0) * r == Seconds(t1 - t0) * r + Seconds(t2 - t1) * r
  {
    SecondsAdd(t1 - t0, t2 - t1);
    Spread(Seconds(t1 - t0), Seconds(t2 - t1), r);
  }

  // ----- window bound -----

  function Admitted(m: Buckets, evs: seq<Event>, key: string, c: Limit): nat
    decreases |evs|
  {
    if evs == [] then 0
    else
      (if evs[0].Take? && evs[0].key == key && TakeBy(m, key, evs[0].now, c).1.allowed then 1 else 0)
      + Admitted(Step(m, evs[0], c).0, evs[1..], key, c)
  }

  /** The key's bucket is never evicted on the way. */
  ghost predicate Kept(m: Buckets, evs: seq<Event>, key: string, c: Limit)
    decreases |evs|
  {
    key in m && (evs == [] || Kept(Step(m, evs[0], c).0, evs[1..], key, c))
  }

  lemma OneTake(b: Bucket, m: Buckets, key: string, now: int, c: Limit)
    requires b == Found(m, key, now, c)
    ensures var (b', v) := TakeBy(m, key, now, c);
      && b'.last == now && b'.tokens <= c.burst
      && b'.tokens <= b.tokens + Seconds(now - b.last) * c.rate - (if v.allowed then 1.0 else 0.0)
      && (v.allowed ==> 0.0 <= b'.tokens <= c.burst - 1.0)
  {
  }

  /** Every admitted request is paid for by initial tokens or by elapsed time, in whatever order the clock
      readings come. */
  lemma {:induction false} Paid(m: Buckets, evs: seq<Event>, key: string, c: Limit)
    requires Kept(m, evs, key, c)
    ensures var m' := Run(m, evs, c);
      key in m' && m'[key].tokens <=
        m[key].tokens + Seconds(m'[key].last - m[key].last) * c.rate - Admitted(m, evs, key, c) as real
    decreases |evs|
  {
    hide TakeBy, Swept, Seconds;
    if evs == [] {
      assert Seconds(0) * c.rate == 0.0 by { SecondsZero(c.rate); }
    } else {
      var next := Step(m, evs[0], c).0;
      StepPaid(m, evs[0], key, c);
      Paid(next, evs[1..], key, c);
      GainAdds(m[key].last, next[key].last, Run(m, evs, c)[key].last, c.rate);
    }
  }

  lemma SecondsZero(r: real)
    ensures Seconds(0) * r == 0.0
  {
  }

  lemma StepPaid(m: Buckets, ev: Event, key: string, c: Limit)
    requires key in m && key in Step(m, ev, c).0
    ensures var next, paid := Step(m, ev, c).0,
        if ev.Take? && ev.key == key && TakeBy(m, key, ev.now, c).1.allowed then 1.0 else 0.0;
      next[key].tokens <= m[key].tokens + Seconds(next[key].last - m[key].last) * c.rate - paid
  {
    hide TakeBy, Seconds;
    SecondsZero(c.rate);
    if ev.Take? && ev.key == key {
      OneTake(m[key], m, key, ev.now, c);
    }
  }

  /** Window bound: from an admitted take at t1 to an admitted take at tn, at most Burst + rate * (tn - t1)
      requests of the key are admitted. */
  lemma WindowBound(m: Buckets, mid: seq<Event>, key: string, t1: int, tn: int, c: Limit)
    requires TakeBy(m, key, t1, c).1.allowed
    requires var m1 := Step(m, Take(key, t1), c).0;
      Kept(m1, mid, key, c) && TakeBy(Run(m1, mid, c), key, tn, c).1.allowed
    ensures var m1 := Step(m, Take(key, t1), c).0;
      2.0 + Admitted(m1, mid, key, c) as real <= c.burst + Seconds(tn - t1) * c.rate
  {
    hide TakeBy, Seconds;
    var m1 := Step(m, Take(key, t1), c).0;
    var m2 := Run(m1, mid, c);
    OneTake(Found(m, key, t1, c), m, key, t1, c);
    Paid(m1, mid, key, c);
    OneTake(m2[key], m2, key, tn, c);
    GainAdds(t1, m2[key].last, tn, c.rate);
  }

  // ----- the janitor -----

  /** What non-decreasing clock readings make of a bucket. */
  ghost predicate Sane(b: Bucket, now: int, c: Limit) {
    && b.last <= now && b.tokens <= c.burst
    && (if c.burst < 1.0 then b.tokens == c.burst else b.tokens >= 0.0)
  }

  /** Refilling the bucket now fills it up. */
  ghost predicate Full(b: Bucket, now: int, c: Limit) {
    b.tokens + Seconds(now - b.last) * c.rate >= c.burst
  }

  lemma TruncAbove(x: real)
    ensures Trunc(x) as real > x - 1.0
  {
  }

  /** A stale bucket has been idle longer than Burst/rate by more than 59 seconds. */
  lemma StaleIsIdle(b: Bucket, now: int, c: Limit)
    requires Stale(b, now, c)
    ensures Seconds(now - b.last) > c.burst / c.rate + 59.0
  {
    hide Trunc;
    TruncAbove(c.burst / c.rate);
    var n := Trunc(c.burst / c.rate);
    assert now - b.last > n * SECOND + MINUTE;
    assert Seconds(now - b.last) > n as real + 60.0;
  }

  lemma IdleFills(secs: real, c: Limit)
    requires secs > c.burst / c.rate
    ensures secs * c.rate >= c.burst
  {
    assert c.burst / c.rate * c.rate == c.burst;
  }

  lemma GainNonNegative(t0: int, t1: int, c: Limit)
    requires t0 <= t1
    ensures Seconds(t1 - t0) * c.rate >= 0.0
  {
  }

  lemma StaleIsFull(b: Bucket, now: int, c: Limit)
    requires Sane(b, now, c) && Stale(b, now, c)
    ensures Full(b, now, c)
  {
    hide Stale, Seconds;
    StaleIsIdle(b, now, c);
    IdleFills(Seconds(now - b.last), c);
    GainNonNegative(b.last, now, c);
  }

  lemma FullLater(b: Bucket, now: int, later: int, c: Limit)
    requires Full(b, now, c) && now <= later
    ensures Full(b, later, c)
  {
    hide Seconds;
    GainAdds(b.last, now, later, c.rate);
    GainNonNegative(now, later, c);
  }

  /** A limiter without eviction, and the same one some of whose full buckets were evicted. */
  ghost predicate Hidden(kept: Buckets, all: Buckets, now: int, c: Limit) {
    && (forall k :: k in kept ==> k in all && kept[k] == all[k])
    && (forall k :: k in all ==> Sane(all[k], now, c))
    && forall k :: k in all && k !in kept ==> Full(all[k], now, c)
  }

  lemma SpendSane(tokens: real, now: int, c: Limit)
    requires tokens <= c.burst && (if c.burst < 1.0 then tokens == c.burst else tokens >= 0.0)
    ensures Sane(Spend(tokens, now, c).0, now, c)
  {
  }

  lemma RefillSane(b: Bucket, now: int, c: Limit)
    requires Sane(b, now, c)
    ensures var t := Refilled(b, now, c);
      t <= c.burst && (if c.burst < 1.0 then t == c.burst else t >= 0.0) && (Full(b, now, c) ==> t == c.burst)
  {
    hide Seconds;
    GainNonNegative(b.last, now, c);
  }

  lemma NewBucket(now: int, c: Limit)
    ensures Refilled(Bucket(c.burst, now), now, c) == c.burst
  {
    hide Seconds;
    SecondsZero(c.rate);
  }

  lemma HiddenLater(kept: Buckets, all: Buckets, now: int, later: int, c: Limit)
    requires Hidden(kept, all, now, c) && now <= later
    ensures Hidden(kept, all, later, c)
  {
    hide Full, Seconds;
    forall k | k in all && k !in kept ensures Full(all[k], later, c) {
      FullLater(all[k], now, later, c);
    }
  }

  lemma TakeHidden(kept: Buckets, all: Buckets, key: string, now: int, c: Limit)
    requires Hidden(kept, all, now, c)
    ensures TakeBy(kept, key, now, c) == TakeBy(all, key, now, c)
    ensures var b := TakeBy(all, key, now, c).0; Hidden(kept[key := b], all[key := b], now, c)
  {
    hide Full, Sane, Spend, Refilled;
    var found := Found(all, key, now, c);
    NewBucket(now, c);
    if key in all {
      RefillSane(all[key], now, c);
    } else {
      BurstSane(now, c);
      RefillSane(found, now, c);
    }
    SpendSane(Refilled(found, now, c), now, c);
  }

  lemma BurstSane(now: int, c: Limit)
    ensures Sane(Bucket(c.burst, now), now, c)
  {
  }

  lemma SweepHidden(kept: Buckets, all: Buckets, now: int, c: Limit)
    requires Hidden(kept, all, now, c)
    ensures Hidden(Swept(kept, now, c), all, now, c)
  {
    hide Full, Stale, Sane;
    forall k | k in all && k !in Swept(kept, now, c) ensures Full(all[k], now, c) {
      if k in kept { StaleIsFull(all[k], now, c); }
    }
  }

  ghost predicate Ordered(evs: seq<Event>, from: int) {
    evs == [] || (from <= evs[0].now && Ordered(evs[1..], evs[0].now))
  }

  function TakesOnly(evs: seq<Event>): seq<Event> {
    if evs == [] then [] else (if evs[0].Take? then [evs[0]] else []) + TakesOnly(evs[1..])
  }

  lemma {:induction false} HiddenRun(kept: Buckets, all: Buckets, evs: seq<Event>, now: int, c: Limit)
    requires Hidden(kept, all, now, c) && Ordered(evs, now)
    ensures Verdicts(kept, evs, c) == Verdicts(all, TakesOnly(evs), c)
    decreases |evs|
  {
    hide Hidden, TakeBy, Swept;
    if evs != [] {
      var ev, rest := evs[0], TakesOnly(evs[1..]);
      HiddenLater(kept, all, now, ev.now, c);
      match ev
      case Take(key, t) =>
        TakeHidden(kept, all, key, t, c);
        var b := TakeBy(all, key, t, c).0;
        HiddenRun(kept[key := b], all[key := b], evs[1..], t, c);
        assert ([ev] + rest)[1..] == rest;
      case Sweep(t) =>
        SweepHidden(kept, all, t, c);
        HiddenRun(Swept(kept, t, c), all, evs[1..], t, c);
        assert [] + rest == rest && [] + Verdicts(Swept(kept, t, c), evs[1..], c) == Verdicts(Swept(kept, t, c), evs[1..], c);
    }
  }

  /** Eviction is unobservable: with non-decreasing clock readings, a limiter whose janitor fires at arbitrary
      moments answers every take exactly like one that never evicts. */
  lemma EvictionIsUnobservable(evs: seq<Event>, from: int, c: Limit)
    requires Ordered(evs, from)
    ensures Verdicts(map[], evs, c) == Verdicts(map[], TakesOnly(evs), c)
  {
    HiddenRun(map[], map[], evs, from, c);
  }

  // ----- Retry-After -----

  lemma WaitCovers(deficit: real, wait: int, elapsed: int, c: Limit)
    requires deficit > 0.0 && wait == Trunc(deficit / c.rate * SECOND as real)
    requires elapsed >= RetryAfter(wait) * SECOND + 1
    ensures Seconds(elapsed) * c.rate >= deficit
  {
    hide RetryAfter, Seconds;
    var ns := deficit / c.rate * SECOND as real;
    assert RetryAfter(wait) * SECOND >= wait by { CeilCovers(wait); }
    TruncAbove(ns);
    assert elapsed as real > ns;
    assert Seconds(elapsed) >= deficit / c.rate by { SecondsOver(elapsed, deficit / c.rate); }
    Scale(deficit / c.rate, Seconds(elapsed), c.rate);
    assert deficit / c.rate * c.rate == deficit;
  }

  lemma SecondsOver(elapsed: int, q: real)
    requires elapsed as real > q * SECOND as real
    ensures Seconds(elapsed) >= q
  {
  }

  lemma CeilCovers(wait: int)
    ensures RetryAfter(wait) * SECOND >= wait && RetryAfter(wait) >= 1
  {
  }

  /** A refused client that waits Retry-After seconds (and the nanosecond that truncation may have cost) is
      admitted, whenever the bucket can hold a token at all. */
  lemma RetryAfterSuffices(m: Buckets, key: string, now: int, later: int, c: Limit)
    requires var (b, v) := TakeBy(m, key, now, c); !v.allowed && later >= now + RetryAfter(v.wait) * SECOND + 1
    ensures TakeBy(Step(m, Take(key, now), c).0, key, later, c).1.allowed <==> c.burst >= 1.0
  {
    hide Seconds, RetryAfter, Trunc;
    var (b, v) := TakeBy(m, key, now, c);
    WaitCovers(1.0 - b.tokens, v.wait, later - now, c);
  }
}

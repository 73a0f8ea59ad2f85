/** What the rate limiter admits, exactly: every request that no window forbids. */
module RateLimitExact {
  import opened RateLimit
  import opened RateLimitLaws

  ghost predicate AllTakes(evs: seq<Event>) {
    forall i :: 0 <= i < |evs| ==> evs[i].Take?
  }

  /** How many takes of the key were admitted at the places from j up to i. */
  function Granted(evs: seq<Event>, vs: seq<Verdict>, key: string, j: nat, i: nat): nat
    requires j <= i <= |evs| && |vs| == |evs| && AllTakes(evs)
  {
    if i == j then 0
    else Granted(evs, vs, key, j, i - 1) + if evs[i - 1].key == key && vs[i - 1].allowed then 1 else 0
  }

  /** What a full bucket at place j leaves at time t, once the takes admitted from j up to i are paid for. */
  function Left(evs: seq<Event>, vs: seq<Verdict>, key: string, j: nat, i: nat, t: int, c: Limit): real
    requires j <= i <= |evs| && j < |evs| && |vs| == |evs| && AllTakes(evs)
  {
    c.burst + Seconds(t - evs[j].now) * c.rate - Granted(evs, vs, key, j, i) as real
  }

  /** x is the least of what is left, over the key's takes before place n. */
  ghost predicate Least(evs: seq<Event>, vs: seq<Verdict>, key: string, n: nat, i: nat, t: int, x: real, c: Limit)
    requires n <= |evs| && n <= i + 1 && i <= |evs| && |vs| == |evs| && AllTakes(evs)
  {
    && (forall j :: 0 <= j < n && j <= i && evs[j].key == key ==> x <= Left(evs, vs, key, j, i, t, c))
    && exists j :: 0 <= j < n && j <= i && evs[j].key == key && x == Left(evs, vs, key, j, i, t, c)
  }

  lemma {:induction false} RunSnoc(m: Buckets, evs: seq<Event>, i: nat, c: Limit)
    requires i < |evs|
    ensures Run(m, evs[..i + 1], c) == Step(Run(m, evs[..i], c), evs[i], c).0
    decreases i
  {
    hide Step;
    if i == 0 {
      assert evs[..1][1..] == [] && evs[..0] == [];
    } else {
      assert evs[..i + 1][1..] == evs[1..][..i] && evs[..i][1..] == evs[1..][..i - 1];
      RunSnoc(Step(m, evs[0], c).0, evs[1..], i - 1, c);
    }
  }

  lemma {:induction false} VerdictAt(m: Buckets, evs: seq<Event>, i: nat, c: Limit)
    requires AllTakes(evs)
    ensures |Verdicts(m, evs, c)| == |evs|
    ensures i < |evs| ==> Verdicts(m, evs, c)[i] == TakeBy(Run(m, evs[..i], c), evs[i].key, evs[i].now, c).1
    decreases |evs|
  {
    hide TakeBy;
    if evs != [] {
      VerdictAt(Step(m, evs[0], c).0, evs[1..], if i > 0 then i - 1 else 0, c);
      if 0 < i < |evs| {
        assert evs[..i][1..] == evs[1..][..i - 1];
      }
    }
  }

  /** Refilling adds the time since, and a full bucket caps it. */
  lemma RefillIsLeast(
    evs: seq<Event>, vs: seq<Verdict>, i: nat, b: Bucket, c: Limit)
    requires i < |evs| && |vs| == |evs| && AllTakes(evs)
    requires Least(evs, vs, evs[i].key, i, i, b.last, b.tokens, c)
    ensures Least(evs, vs, evs[i].key, i + 1, i, evs[i].now, Refilled(b, evs[i].now, c), c)
  {
    var key, now := evs[i].key, evs[i].now;
    var x := Refilled(b, now, c);
    var gain := Seconds(now - b.last) * c.rate;
    forall j | 0 <= j < i
      ensures Left(evs, vs, key, j, i, now, c) == Left(evs, vs, key, j, i, b.last, c) + gain
    {
      LeftLater(evs, vs, key, j, i, b.last, now, c);
    }
    LeftAtOnce(evs, vs, key, i, c);
    assert x == if c.burst <= b.tokens + gain then c.burst else b.tokens + gain;
    hide Left, Seconds, Refilled;
    var j :| 0 <= j < i && evs[j].key == key && b.tokens == Left(evs, vs, key, j, i, b.last, c);
    assert x == Left(evs, vs, key, if c.burst <= b.tokens + gain then i else j, i, now, c);
  }

  lemma LeftLater(evs: seq<Event>, vs: seq<Verdict>, key: string, j: nat, i: nat, t: int, t': int, c: Limit)
    requires j <= i <= |evs| && j < |evs| && |vs| == |evs| && AllTakes(evs)
    ensures Left(evs, vs, key, j, i, t', c) == Left(evs, vs, key, j, i, t, c) + Seconds(t' - t) * c.rate
  {
    hide Seconds, Granted;
    GainAdds(evs[j].now, t, t', c.rate);
  }

  lemma LeftAtOnce(evs: seq<Event>, vs: seq<Verdict>, key: string, i: nat, c: Limit)
    requires i < |evs| && |vs| == |evs| && AllTakes(evs)
    ensures Left(evs, vs, key, i, i, evs[i].now, c) == c.burst
  {
    SecondsZero(c.rate);
  }

  lemma NewIsLeast(evs: seq<Event>, vs: seq<Verdict>, i: nat, c: Limit)
    requires i < |evs| && |vs| == |evs| && AllTakes(evs) && forall j :: 0 <= j < i ==> evs[j].key != evs[i].key
    ensures Least(evs, vs, evs[i].key, i + 1, i, evs[i].now, Refilled(Bucket(c.burst, evs[i].now), evs[i].now, c), c)
  {
    SecondsZero(c.rate);
    NewBucket(evs[i].now, c);
    hide Refilled, Seconds;
    assert Left(evs, vs, evs[i].key, i, i, evs[i].now, c) == c.burst;
  }

  /** What take i finds is the least that any full bucket before it leaves. */
  lemma FoundIsLeast(evs: seq<Event>, vs: seq<Verdict>, i: nat, c: Limit)
    requires i < |evs| && AllTakes(evs) && vs == Verdicts(map[], evs, c) && |vs| == |evs|
    ensures var m := Run(map[], evs[..i], c);
      Least(evs, vs, evs[i].key, i + 1, i, evs[i].now,
        Refilled(Found(m, evs[i].key, evs[i].now, c), evs[i].now, c), c)
  {
    hide Least, Refilled;
    Tracked(evs, vs, i, evs[i].key, c);
    var m := Run(map[], evs[..i], c);
    if evs[i].key in m {
      RefillIsLeast(evs, vs, i, m[evs[i].key], c);
    } else {
      NewIsLeast(evs, vs, i, c);
    }
  }

  lemma SpendKeepsLeast(evs: seq<Event>, vs: seq<Verdict>, i: nat, x: real, c: Limit)
    requires i < |evs| && |vs| == |evs| && AllTakes(evs)
    requires Least(evs, vs, evs[i].key, i + 1, i, evs[i].now, x, c)
    ensures Least(evs, vs, evs[i].key, i + 1, i + 1, evs[i].now, x - (if vs[i].allowed then 1.0 else 0.0), c)
  {
    var key, now, paid := evs[i].key, evs[i].now, if vs[i].allowed then 1.0 else 0.0;
    forall j | 0 <= j <= i
      ensures Left(evs, vs, key, j, i + 1, now, c) == Left(evs, vs, key, j, i, now, c) - paid
    {
      hide Seconds;
    }
    hide Left;
    var j :| 0 <= j <= i && evs[j].key == key && x == Left(evs, vs, key, j, i, now, c);
    assert x - paid == Left(evs, vs, key, j, i + 1, now, c);
  }

  lemma OtherKeepsLeast(evs: seq<Event>, vs: seq<Verdict>, key: string, i: nat, t: int, x: real, c: Limit)
    requires i < |evs| && |vs| == |evs| && AllTakes(evs) && evs[i].key != key
    requires Least(evs, vs, key, i, i, t, x, c)
    ensures Least(evs, vs, key, i + 1, i + 1, t, x, c)
  {
    forall j | 0 <= j <= i
      ensures Left(evs, vs, key, j, i + 1, t, c) == Left(evs, vs, key, j, i, t, c)
    {
      hide Seconds;
    }
    hide Left;
    var j :| 0 <= j < i && evs[j].key == key && x == Left(evs, vs, key, j, i, t, c);
    assert x == Left(evs, vs, key, j, i + 1, t, c);
  }

  /** A bucket holds the least that any full bucket before it leaves. */
  lemma {:induction false} Tracked(evs: seq<Event>, vs: seq<Verdict>, i: nat, key: string, c: Limit)
    requires i <= |evs| && AllTakes(evs) && vs == Verdicts(map[], evs, c) && |vs| == |evs|
    ensures var m := Run(map[], evs[..i], c);
      && (key in m <==> exists j :: 0 <= j < i && evs[j].key == key)
      && (key in m ==> Least(evs, vs, key, i, i, m[key].last, m[key].tokens, c))
    decreases i, 0
  {
    if i > 0 {
      var n := i - 1;
      var m, ev := Run(map[], evs[..n], c), evs[n];
      RunSnoc(map[], evs, n, c);
      VerdictAt(map[], evs, n, c);
      Tracked(evs, vs, n, key, c);
      TakeSplits(m, ev.key, ev.now, c);
      hide Least, TakeBy, Refilled, Run, Verdicts;
      if ev.key != key {
        if key in m { OtherKeepsLeast(evs, vs, key, n, m[key].last, m[key].tokens, c); }
      } else if key in m {
        RefillIsLeast(evs, vs, n, m[key], c);
        SpendKeepsLeast(evs, vs, n, Refilled(m[key], ev.now, c), c);
      } else {
        NewIsLeast(evs, vs, n, c);
        SpendKeepsLeast(evs, vs, n, Refilled(Bucket(c.burst, ev.now), ev.now, c), c);
      }
    }
  }

  /** One take: what it asks of the refilled bucket, and what it leaves. */
  lemma TakeSplits(m: Buckets, key: string, now: int, c: Limit)
    ensures var (b, v) := TakeBy(m, key, now, c);
      var x := Refilled(Found(m, key, now, c), now, c);
      && b.last == now && b.tokens == x - (if v.allowed then 1.0 else 0.0)
      && (v.allowed <==> x >= 1.0) && (v.allowed ==> v.remaining == (x - 1.0).Floor) && (!v.allowed ==> v.remaining == 0)
  {
    hide Refilled;
  }

  /** No window that a full bucket could have opened forbids one more request at place i. */
  ghost predicate Affordable(evs: seq<Event>, vs: seq<Verdict>, i: nat, more: int, c: Limit)
    requires i < |evs| && |vs| == |evs| && AllTakes(evs)
  {
    forall j :: 0 <= j <= i && evs[j].key == evs[i].key ==>
      (Granted(evs, vs, evs[i].key, j, i) + more) as real <= c.burst + Seconds(evs[i].now - evs[j].now) * c.rate
  }

  lemma {:induction false} TakesOfTakes(evs: seq<Event>)
    ensures AllTakes(TakesOnly(evs))
  {
    if evs != [] {
      TakesOfTakes(evs[1..]);
    }
  }

  lemma AffordableIsLeast(evs: seq<Event>, vs: seq<Verdict>, i: nat, x: real, more: int, c: Limit)
    requires i < |evs| && |vs| == |evs| && AllTakes(evs) && Least(evs, vs, evs[i].key, i + 1, i, evs[i].now, x, c)
    ensures Affordable(evs, vs, i, more, c) <==> more as real <= x
  {
    hide Seconds, Granted;
    var key, now := evs[i].key, evs[i].now;
    assert forall j :: 0 <= j <= i && evs[j].key == key ==>
      ((Granted(evs, vs, key, j, i) + more) as real <= c.burst + Seconds(now - evs[j].now) * c.rate
       <==> more as real <= Left(evs, vs, key, j, i, now, c));
  }

  /** A take is admitted if and only if every window allows it: for each take of the key up to it, the requests
      admitted from that one on, and this one, number at most Burst + rate * time. It reports how many more the
      windows would allow at the same reading. The janitor may fire at arbitrary moments, as long as the clock
      readings do not decrease. */
  lemma AdmittedExactly(evs: seq<Event>, from: int, c: Limit, i: nat)
    requires Ordered(evs, from) && i < |TakesOnly(evs)|
    ensures var takes, vs := TakesOnly(evs), Verdicts(map[], evs, c);
      && AllTakes(takes) && |vs| == |takes|
      && (vs[i].allowed <==> Affordable(takes, vs, i, 1, c))
      && (vs[i].allowed ==> vs[i].remaining >= 0 && Affordable(takes, vs, i, 1 + vs[i].remaining, c))
      && (vs[i].allowed ==> !Affordable(takes, vs, i, 2 + vs[i].remaining, c))
      && (!vs[i].allowed ==> vs[i].remaining == 0)
  {
    hide Seconds, Verdicts, TakesOnly, Run;
    EvictionIsUnobservable(evs, from, c);
    TakesOfTakes(evs);
    NeverEvicting(TakesOnly(evs), Verdicts(map[], evs, c), c, i);
  }

  lemma NeverEvicting(takes: seq<Event>, vs: seq<Verdict>, c: Limit, i: nat)
    requires AllTakes(takes) && i < |takes| && vs == Verdicts(map[], takes, c)
    ensures |vs| == |takes|
    ensures vs[i].allowed <==> Affordable(takes, vs, i, 1, c)
    ensures vs[i].allowed ==> vs[i].remaining >= 0 && Affordable(takes, vs, i, 1 + vs[i].remaining, c)
    ensures vs[i].allowed ==> !Affordable(takes, vs, i, 2 + vs[i].remaining, c)
    ensures !vs[i].allowed ==> vs[i].remaining == 0
  {
    VerdictAt(map[], takes, i, c);
    FoundIsLeast(takes, vs, i, c);
    var m, key, now := Run(map[], takes[..i], c), takes[i].key, takes[i].now;
    var x := Refilled(Found(m, key, now, c), now, c);
    TakeSplits(m, key, now, c);
    hide Refilled, TakeBy, Run, Verdicts, Affordable, Least;
    AffordableIsLeast(takes, vs, i, x, 1, c);
    AffordableIsLeast(takes, vs, i, x, 1 + vs[i].remaining, c);
    AffordableIsLeast(takes, vs, i, x, 2 + vs[i].remaining, c);
  }

  // ----- a burst -----

  function Burst(key: string, now: int, n: nat): seq<Event> {
    seq(n, _ => Take(key, now))
  }

  lemma BurstIs(key: string, now: int, n: nat)
    ensures var evs := Burst(key, now, n);
      |evs| == n && AllTakes(evs) && forall i :: 0 <= i < n ==> evs[i] == Take(key, now)
  {
  }

  /** The first k verdicts: allowed while the burst lasts, with the number of remaining ones counting down. */
  ghost predicate CountsDown(vs: seq<Verdict>, burst: int, k: nat)
    requires k <= |vs|
  {
    forall i :: 0 <= i < k ==>
      (vs[i].allowed <==> i + 1 <= burst) && (vs[i].allowed ==> vs[i].remaining == burst - 1 - i)
  }

  /** A new key's burst at one reading: exactly floor(Burst) requests are admitted, the first ones, and the number
      of remaining ones counts down to zero. */
  lemma BurstExactly(key: string, now: int, n: nat, c: Limit)
    ensures var vs := Verdicts(map[], Burst(key, now, n), c);
      |vs| == n && CountsDown(vs, c.burst.Floor, n)
  {
    hide Verdicts, CountsDown;
    VerdictAt(map[], Burst(key, now, n), 0, c);
    BurstTo(key, now, n, c, n);
  }

  lemma {:induction false} BurstTo(key: string, now: int, n: nat, c: Limit, k: nat)
    requires k <= n && |Verdicts(map[], Burst(key, now, n), c)| == n
    ensures var evs, vs := Burst(key, now, n), Verdicts(map[], Burst(key, now, n), c);
      && CountsDown(vs, c.burst.Floor, k)
      && Granted(evs, vs, key, 0, k) == (if c.burst.Floor < 0 then 0 else if k <= c.burst.Floor then k else c.burst.Floor)
  {
    var evs, vs := Burst(key, now, n), Verdicts(map[], Burst(key, now, n), c);
    BurstIs(key, now, n);
    hide *;
    if k == 0 {
      NoneYet(evs, vs, key, c);
    } else {
      var i := k - 1;
      BurstTo(key, now, n, c, i);
      NeverEvicting(evs, vs, c, i);
      BurstAffords(evs, vs, key, now, i, 1, c);
      BurstAffords(evs, vs, key, now, i, 1 + vs[i].remaining, c);
      BurstAffords(evs, vs, key, now, i, 2 + vs[i].remaining, c);
      GrantedNext(evs, vs, key, i);
      OneDown(vs, c.burst.Floor, i);
    }
  }

  lemma NoneYet(evs: seq<Event>, vs: seq<Verdict>, key: string, c: Limit)
    requires |vs| == |evs| && AllTakes(evs)
    ensures CountsDown(vs, c.burst.Floor, 0) && Granted(evs, vs, key, 0, 0) == 0
  {
  }

  lemma OneDown(vs: seq<Verdict>, burst: int, k: nat)
    requires k < |vs| && CountsDown(vs, burst, k)
    requires (vs[k].allowed <==> k + 1 <= burst) && (vs[k].allowed ==> vs[k].remaining == burst - 1 - k)
    ensures CountsDown(vs, burst, k + 1)
  {
  }

  lemma GrantedNext(evs: seq<Event>, vs: seq<Verdict>, key: string, i: nat)
    requires i < |evs| == |vs| && AllTakes(evs) && evs[i].key == key
    ensures Granted(evs, vs, key, 0, i + 1) == Granted(evs, vs, key, 0, i) + if vs[i].allowed then 1 else 0
  {
  }

  lemma BurstAffords(evs: seq<Event>, vs: seq<Verdict>, key: string, now: int, i: nat, more: int, c: Limit)
    requires i < |evs| == |vs| && evs == Burst(key, now, |evs|)
    ensures Affordable(evs, vs, i, more, c) <==> Granted(evs, vs, key, 0, i) + more <= c.burst.Floor
  {
    SecondsZero(c.rate);
    forall j | 0 <= j <= i ensures Granted(evs, vs, key, j, i) <= Granted(evs, vs, key, 0, i) {
      GrantedFrom(evs, vs, key, j, i);
    }
    var g := Granted(evs, vs, key, 0, i) + more;
    assert g as real <= c.burst <==> g <= c.burst.Floor;
  }

  lemma {:induction false} GrantedFrom(evs: seq<Event>, vs: seq<Verdict>, key: string, j: nat, i: nat)
    requires j <= i <= |evs| && |vs| == |evs| && AllTakes(evs)
    ensures Granted(evs, vs, key, j, i) <= Granted(evs, vs, key, 0, i)
  {
    if j < i { GrantedFrom(evs, vs, key, j, i - 1); }
  }

  // ----- Retry-After and the janitor, from the other side -----

  /** No whole second less than Retry-After is enough: a refused client that comes back so early is refused again. */
  lemma RetryAfterIsLeast(m: Buckets, key: string, now: int, later: int, c: Limit)
    requires var (b, v) := TakeBy(m, key, now, c); !v.allowed && now <= later <= now + (RetryAfter(v.wait) - 1) * SECOND
    ensures !TakeBy(Step(m, Take(key, now), c).0, key, later, c).1.allowed
  {
    var (b, v) := TakeBy(m, key, now, c);
    var deficit := 1.0 - b.tokens;
    var ns := deficit / c.rate * SECOND as real;
    TooEarly(deficit, later - now, c);
  }

  lemma TooEarly(deficit: real, elapsed: int, c: Limit)
    requires deficit > 0.0
    requires 0 <= elapsed <= (RetryAfter(Trunc(deficit / c.rate * SECOND as real)) - 1) * SECOND
    ensures Seconds(elapsed) * c.rate < deficit
  {
    var q := deficit / c.rate;
    assert q > 0.0;
    var ns := q * SECOND as real;
    var wait := Trunc(ns);
    CeilIsLeast(wait);
    assert elapsed < wait || elapsed == 0;
    assert elapsed as real < ns;
    assert Seconds(elapsed) < q;
    ScaleStrictly(Seconds(elapsed), q, c.rate);
    assert q * c.rate == deficit;
  }

  lemma ScaleStrictly(a: real, b: real, r: real)
    requires a < b && r > 0.0
    ensures a * r < b * r
  {
  }

  lemma CeilIsLeast(wait: int)
    requires wait >= 0
    ensures RetryAfter(wait) > 1 ==> (RetryAfter(wait) - 1) * SECOND < wait
  {
  }

  /** The janitor leaves no bucket that has been idle longer than Burst / rate and a minute. */
  lemma SweptIsRecent(m: Buckets, key: string, now: int, c: Limit)
    requires key in Swept(m, now, c) && c.burst >= 0.0
    ensures Seconds(now - m[key].last) <= c.burst / c.rate + 60.0
  {
    var n := Trunc(c.burst / c.rate);
    assert c.burst / c.rate >= 0.0;
    assert n as real <= c.burst / c.rate;
    assert now - m[key].last <= n * SECOND + MINUTE;
    assert Seconds(now - m[key].last) <= n as real + 60.0;
  }
}

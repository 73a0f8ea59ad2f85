/** The lazy token bucket of middleware/ratelimit.go, with its janitor. Tokens are reals, times and durations
    whole nanoseconds. */
module RateLimit {
  const SECOND := 1_000_000_000
  const MINUTE := 60 * SECOND

  datatype Config = Config(rate: real, burst: real)
  type Limit = c: Config | c.rate > 0.0 witness Config(1.0, 1.0)

  datatype Bucket = Bucket(tokens: real, last: int)
  datatype Verdict = Verdict(allowed: bool, remaining: int, wait: int)
  type Buckets = map<string, Bucket>

  /** Conversion to an integer type: toward zero. */
  function Trunc(x: real): int {
    if x >= 0.0 then x.Floor else -(-x).Floor
  }

  function Seconds(d: int): real {
    d as real / SECOND as real
  }

  function Min(a: real, b: real): real {
    if a <= b then a else b
  }

  /** The bucket topped up for the time since it was last looked at. */
  function Refilled(b: Bucket, now: int, c: Limit): real {
    Min(c.burst, b.tokens + Seconds(now - b.last) * c.rate)
  }

  /** A key's bucket as take finds it. */
  function Found(m: Buckets, key: string, now: int, c: Limit): Bucket {
    if key in m then m[key] else Bucket(c.burst, now)
  }

  function Spend(tokens: real, now: int, c: Limit): (Bucket, Verdict) {
    if tokens >= 1.0 then (Bucket(tokens - 1.0, now), Verdict(true, Trunc(tokens - 1.0), 0))
    else (Bucket(tokens, now), Verdict(false, 0, Trunc((1.0 - tokens) / c.rate * SECOND as real)))
  }

  function TakeBy(m: Buckets, key: string, now: int, c: Limit): (Bucket, Verdict) {
    Spend(Refilled(Found(m, key, now, c), now, c), now, c)
  }

  function IdleLimit(c: Limit): int {
    Trunc(c.burst / c.rate) * SECOND + MINUTE
  }

  /** The janitor's test for a bucket that may go. */
  predicate Stale(b: Bucket, now: int, c: Limit) {
    b.last < now - IdleLimit(c)
  }

  function Swept(m: Buckets, now: int, c: Limit): Buckets {
    map k | k in m && !Stale(m[k], now, c) :: m[k]
  }

  /** Retry-After, in whole seconds. */
  function RetryAfter(wait: int): int {
    var ceiling := -((-wait) / SECOND);
    if ceiling < 1 then 1 else ceiling
  }

  // ----- the limiter object -----

  class Cell {
    var tokens: real
    var last: int

    constructor (tokens: real, last: int)
      ensures this.tokens == tokens && this.last == last
    {
      this.tokens, this.last := tokens, last;
    }

    function View(): Bucket
      reads this
    {
      Bucket(tokens, last)
    }
  }

  class RateLimiter {
    const cfg: Limit
    var buckets: map<string, Cell>

    constructor (cfg: Limit)
      ensures Valid() && View() == map[] && this.cfg == cfg
    {
      this.cfg, buckets := cfg, map[];
    }

    /** No two keys share a bucket. */
    ghost predicate Valid()
      reads this
    {
      forall k, l :: k in buckets && l in buckets && buckets[k] == buckets[l] ==> k == l
    }

    ghost function View(): Buckets
      reads this, buckets.Values
    {
      map k | k in buckets :: buckets[k].View()
    }

    method Take(key: string, now: int) returns (v: Verdict)
      requires Valid()
      modifies this, buckets.Values
      ensures Valid() && forall c | c in buckets.Values :: c in old(buckets.Values) || fresh(c)
      ensures var (b, verdict) := TakeBy(old(View()), key, now, cfg);
        v == verdict && View() == old(View())[key := b]
    {
      hide Refilled, Spend;
      if key !in buckets {
        var fresh' := new Cell(cfg.burst, now);
        buckets := buckets[key := fresh'];
      }
      var b := buckets[key];
      v := Refill(b, now);
    }

    /** The part of take under the key's bucket. */
    method Refill(b: Cell, now: int) returns (v: Verdict)
      modifies b
      ensures (b.View(), v) == Spend(Refilled(old(b.View()), now, cfg), now, cfg)
    {
      hide Refilled, Trunc;
      b.tokens := Refilled(b.View(), now, cfg);
      b.last := now;
      if b.tokens >= 1.0 {
        b.tokens := b.tokens - 1.0;
        return Verdict(true, Trunc(b.tokens), 0);
      }
      var deficit := 1.0 - b.tokens;
      v := Verdict(false, 0, Trunc(deficit / cfg.rate * SECOND as real));
    }

    /** One tick of the janitor. */
    method Sweep(now: int)
      requires Valid()
      modifies this
      ensures Valid() && buckets.Values <= old(buckets.Values) && View() == Swept(old(View()), now, cfg)
    {
      var cutoff := now - IdleLimit(cfg);
      var left := buckets.Keys;
      while left != {}
        invariant left <= old(buckets).Keys && buckets.Keys <= old(buckets).Keys
        invariant forall k :: k in buckets ==> buckets[k] == old(buckets)[k]
        invariant forall k :: k in old(buckets) ==>
          (k in buckets <==> k in left || !Stale(old(buckets)[k].View(), now, cfg))
        decreases left
      {
        var k :| k in left;
        left := left - {k};
        if buckets[k].last < cutoff {
          buckets := buckets - {k};
        }
      }
      assert buckets.Values <= old(buckets.Values) by {
        forall c | c in buckets.Values ensures c in old(buckets.Values) {
          var k :| k in buckets && buckets[k] == c;
          assert old(buckets)[k] == c;
        }
      }
    }
  }
}

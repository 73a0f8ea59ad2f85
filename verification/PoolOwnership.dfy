/** Connection ownership in proxy/proxy.go, over every interleaving of relays, health checks and Stop: a step
    system whose steps are the atomic actions of getConn, putConn, relayConn, relay and Handler. */
module PoolOwnership {
  // Relays and connections are numbered as they appear; upstreams are numbered by registration.
  datatype Phase =
    | Starting                             // before the select in getConn
    | Dialing                              // in net.DialTimeout
    | Using(conn: nat, reused: bool)       // inside relayConn
    | Ended(ok: bool)                      // relay has returned

  datatype Relay = Relay(upstream: nat, phase: Phase, dials: nat, exchanges: nat)

  datatype State = State(
    idle: seq<seq<nat>>,       // each upstream's channel of parked connections, oldest first
    active: seq<int>,          // each upstream's active counter
    healthy: seq<bool>,
    relays: map<nat, Relay>,   // relays in progress
    started: nat,              // how many relays there have been
    origin: seq<nat>,          // the upstream each dialled connection goes to
    closes: seq<nat>)          // how often each connection was closed

  datatype Step =
    | Begin(u: nat)            // Handler: active.Add(1), relay is called
    | TakeIdle(r: nat)         // getConn receives a parked connection
    | MissPool(r: nat)         // getConn's select takes its default
    | DialOk(r: nat)
    | DialFails(r: nat)
    | Park(r: nat)             // relayConn succeeds with a reusable connection: putConn
    | Close(r: nat, ok: bool)  // every other end of relayConn
    | Leave(r: nat)            // Handler: active.Add(-1), and the health flag on failure
    | StopOne(u: nat)          // Stop drains one parked connection
    | Health(u: nat, up: bool) // a health check's verdict

  function Initial(n: nat): State {
    State(seq(n, _ => []), seq(n, _ => 0), seq(n, _ => true), map[], 0, [], [])
  }

  predicate Enabled(s: State, step: Step, poolSize: nat)
    requires Shaped(s)
  {
    match step
    case Begin(u) => u < |s.idle|
    case TakeIdle(r) => r in s.relays && s.relays[r].phase.Starting? && s.idle[s.relays[r].upstream] != []
    case MissPool(r) => r in s.relays && s.relays[r].phase.Starting? && s.idle[s.relays[r].upstream] == []
    case DialOk(r) => r in s.relays && s.relays[r].phase.Dialing?
    case DialFails(r) => r in s.relays && s.relays[r].phase.Dialing?
    case Park(r) => r in s.relays && s.relays[r].phase.Using?
    case Close(r, _) => r in s.relays && s.relays[r].phase.Using?
    case Leave(r) => r in s.relays && s.relays[r].phase.Ended?
    case StopOne(u) => u < |s.idle| && s.idle[u] != []
    case Health(u, _) => u < |s.idle|
  }

  /** The state refers to upstreams and connections that exist. */
  ghost predicate Shaped(s: State) {
    && |s.active| == |s.idle| && |s.healthy| == |s.idle| && |s.closes| == |s.origin|
    && (forall r :: r in s.relays ==> s.relays[r].upstream < |s.idle|)
    && (forall r :: r in s.relays && s.relays[r].phase.Using? ==> s.relays[r].phase.conn < |s.origin|)
    && forall u, i :: 0 <= u < |s.idle| && 0 <= i < |s.idle[u]| ==> s.idle[u][i] < |s.origin|
  }

  function Apply(s: State, step: Step, poolSize: nat): State
    requires Shaped(s) && Enabled(s, step, poolSize)
  {
    match step
    case Begin(u) =>
      s.(active := s.active[u := s.active[u] + 1],
         relays := s.relays[s.started := Relay(u, Starting, 0, 0)], started := s.started + 1)
    case TakeIdle(r) =>
      var relay := s.relays[r];
      var q := s.idle[relay.upstream];
      s.(idle := s.idle[relay.upstream := q[1..]],
         relays := s.relays[r := relay.(phase := Using(q[0], true), exchanges := relay.exchanges + 1)])
    case MissPool(r) => s.(relays := s.relays[r := s.relays[r].(phase := Dialing)])
    case DialOk(r) =>
      var relay := s.relays[r];
      s.(origin := s.origin + [relay.upstream], closes := s.closes + [0],
         relays := s.relays[r := relay.(
           phase := Using(|s.origin|, false), dials := relay.dials + 1, exchanges := relay.exchanges + 1)])
    case DialFails(r) => s.(relays := s.relays[r := s.relays[r].(phase := Ended(false))])
    case Park(r) =>
      var relay := s.relays[r];
      var q := s.idle[relay.upstream];
      var done := s.relays[r := relay.(phase := Ended(true))];
      if |q| < poolSize then s.(idle := s.idle[relay.upstream := q + [relay.phase.conn]], relays := done)
      else s.(closes := s.closes[relay.phase.conn := s.closes[relay.phase.conn] + 1], relays := done)
    case Close(r, ok) =>
      var relay := s.relays[r];
      // A failure on a reused connection is retried on a fresh dial, exactly once.
      var next := if !ok && relay.phase.reused then Dialing else Ended(ok);
      s.(closes := s.closes[relay.phase.conn := s.closes[relay.phase.conn] + 1],
         relays := s.relays[r := relay.(phase := next)])
    case Leave(r) =>
      var u := s.relays[r].upstream;
      s.(active := s.active[u := s.active[u] - 1], relays := s.relays - {r},
         healthy := if s.relays[r].phase.ok then s.healthy else s.healthy[u := false])
    case StopOne(u) =>
      var c := s.idle[u][0];
      s.(idle := s.idle[u := s.idle[u][1..]], closes := s.closes[c := s.closes[c] + 1])
    case Health(u, up) => s.(healthy := s.healthy[u := up])
  }

  // ----- where a connection is -----

  ghost predicate InPool(s: State, c: nat, u: nat) {
    u < |s.idle| && c in s.idle[u]
  }

  ghost predicate HeldBy(s: State, c: nat, r: nat) {
    r in s.relays && s.relays[r].phase.Using? && s.relays[r].phase.conn == c
  }

  /** Every connection is in exactly one place: parked once in its own upstream's pool, held by one relay to that
      upstream, or closed once. */
  ghost predicate OnePlace(s: State, c: nat)
    requires c < |s.origin| == |s.closes|
  {
    var u := s.origin[c];
    || (InPool(s, c, u) && s.closes[c] == 0 && forall r :: !HeldBy(s, c, r))
    || (s.closes[c] == 0 && !InPool(s, c, u) && exists r :: HeldBy(s, c, r) && s.relays[r].upstream == u)
    || (s.closes[c] == 1 && !InPool(s, c, u) && forall r :: !HeldBy(s, c, r))
  }

  ghost predicate Exclusive(s: State)
    requires Shaped(s)
  {
    && (forall u, i, j :: 0 <= u < |s.idle| && 0 <= i < j < |s.idle[u]| ==> s.idle[u][i] != s.idle[u][j])
    && (forall u: nat, c: nat :: InPool(s, c, u) ==> s.origin[c] == u)
    && (forall c: nat, r: nat, q: nat :: HeldBy(s, c, r) && HeldBy(s, c, q) ==> r == q)
    && forall c :: 0 <= c < |s.origin| ==> OnePlace(s, c)
  }

  ghost predicate Bounded(s: State, poolSize: nat) {
    forall u :: 0 <= u < |s.idle| ==> |s.idle[u]| <= poolSize
  }

  /** A relay's own counts: one dial at most, and a second exchange only after a stale reuse. */
  ghost predicate Counted(relay: Relay) {
    match relay.phase
    case Starting => relay.dials == 0 && relay.exchanges == 0
    case Dialing => relay.dials == 0 && relay.exchanges <= 1
    case Using(_, reused) =>
      if reused then relay.dials == 0 && relay.exchanges == 1 else relay.dials == 1 && relay.exchanges <= 2
    case Ended(_) => relay.dials <= 1 && relay.exchanges <= 2
  }

  function On(s: State, u: nat): set<nat> {
    set r | r in s.relays && s.relays[r].upstream == u
  }

  ghost predicate Inv(s: State, poolSize: nat) {
    && Shaped(s) && Exclusive(s) && Bounded(s, poolSize)
    && (forall r :: r in s.relays ==> r < s.started && Counted(s.relays[r]))
    && forall u :: 0 <= u < |s.idle| ==> s.active[u] == |On(s, u)|
  }

  // ----- every step keeps it -----

  lemma InitialInv(n: nat, poolSize: nat)
    ensures Inv(Initial(n), poolSize)
  {
    assert forall u :: On(Initial(n), u) == {};
  }

  lemma ShapedStep(s: State, step: Step, poolSize: nat)
    requires Shaped(s) && Enabled(s, step, poolSize)
    ensures Shaped(Apply(s, step, poolSize))
  {
  }

  lemma BoundedStep(s: State, step: Step, poolSize: nat)
    requires Shaped(s) && Enabled(s, step, poolSize) && Bounded(s, poolSize)
    ensures Bounded(Apply(s, step, poolSize), poolSize)
  {
  }

  lemma CountedStep(s: State, step: Step, poolSize: nat)
    requires Shaped(s) && Enabled(s, step, poolSize)
    requires forall r :: r in s.relays ==> r < s.started && Counted(s.relays[r])
    ensures var s' := Apply(s, step, poolSize);
      forall r :: r in s'.relays ==> r < s'.started && Counted(s'.relays[r])
  {
  }

  lemma ActiveStep(s: State, step: Step, poolSize: nat, u: nat)
    requires Shaped(s) && Enabled(s, step, poolSize) && u < |s.idle| && s.active[u] == |On(s, u)|
    requires forall r :: r in s.relays ==> r < s.started
    ensures var s' := Apply(s, step, poolSize); s'.active[u] == |On(s', u)|
  {
    if step.Begin? && step.u == u {
      BeginJoins(s, u, poolSize);
    } else if step.Leave? && s.relays[step.r].upstream == u {
      LeaveParts(s, step.r, poolSize);
    } else {
      SameRelays(s, step, poolSize, u);
    }
    hide *;
  }

  lemma BeginJoins(s: State, u: nat, poolSize: nat)
    requires Shaped(s) && Enabled(s, Begin(u), poolSize) && u < |s.idle| && forall r :: r in s.relays ==> r < s.started
    ensures var s' := Apply(s, Begin(u), poolSize); s'.active[u] == s.active[u] + 1 && |On(s', u)| == |On(s, u)| + 1
  {
    assert On(Apply(s, Begin(u), poolSize), u) == On(s, u) + {s.started};
  }

  lemma LeaveParts(s: State, r: nat, poolSize: nat)
    requires Shaped(s) && Enabled(s, Leave(r), poolSize)
    ensures r in s.relays
    ensures var s', u := Apply(s, Leave(r), poolSize), s.relays[r].upstream;
      u < |s.idle| ==> s'.active[u] == s.active[u] - 1 && |On(s', u)| == |On(s, u)| - 1
  {
    var u := s.relays[r].upstream;
    assert On(Apply(s, Leave(r), poolSize), u) == On(s, u) - {r};
  }

  lemma SameRelays(s: State, step: Step, poolSize: nat, u: nat)
    requires Shaped(s) && Enabled(s, step, poolSize) && forall r :: r in s.relays ==> r < s.started
    requires !(step.Begin? && step.u == u) && !(step.Leave? && s.relays[step.r].upstream == u)
    ensures On(Apply(s, step, poolSize), u) == On(s, u)
    ensures u < |s.idle| ==> Apply(s, step, poolSize).active[u] == s.active[u]
  {
    var s' := Apply(s, step, poolSize);
    forall r ensures r in On(s', u) <==> r in On(s, u) {
    }
  }

  /** Nothing about connections changes. */
  lemma SamePlaces(s: State, s': State)
    requires Shaped(s) && Shaped(s') && Exclusive(s)
    requires s'.idle == s.idle && s'.origin == s.origin && s'.closes == s.closes
    requires forall c: nat, r: nat :: HeldBy(s', c, r) <==> HeldBy(s, c, r)
    requires forall c: nat, r: nat :: HeldBy(s, c, r) && HeldBy(s', c, r) ==> s'.relays[r].upstream == s.relays[r].upstream
    ensures Exclusive(s')
  {
    assert forall c: nat, u: nat :: InPool(s', c, u) <==> InPool(s, c, u);
    forall c | 0 <= c < |s.origin| ensures OnePlace(s', c) {
      assert OnePlace(s, c);
      if r :| HeldBy(s, c, r) { assert HeldBy(s', c, r); }
    }
  }

  /** One connection x leaves its place for another; every other one stays. */
  ghost predicate Moves(s: State, s': State, x: nat)
    requires Shaped(s) && Shaped(s')
  {
    && x < |s'.origin| && s.origin <= s'.origin && (s'.origin == s.origin || (x == |s.origin| && |s'.origin| == x + 1))
    && |s'.idle| == |s.idle|
    && (forall c: nat, u: nat :: c != x ==> (InPool(s', c, u) <==> InPool(s, c, u)))
    && (forall c: nat, r: nat :: c != x ==> (HeldBy(s', c, r) <==> HeldBy(s, c, r)))
    && (forall c: nat, r: nat :: c != x && HeldBy(s, c, r) && HeldBy(s', c, r) ==>
          s'.relays[r].upstream == s.relays[r].upstream)
    && forall c :: 0 <= c < |s.origin| && c != x ==> s'.closes[c] == s.closes[c]
  }

  lemma MovedExclusive(s: State, s': State, x: nat)
    requires Shaped(s) && Shaped(s') && Exclusive(s) && Moves(s, s', x)
    requires forall u, i, j :: 0 <= u < |s'.idle| && 0 <= i < j < |s'.idle[u]| ==> s'.idle[u][i] != s'.idle[u][j]
    requires forall u: nat :: InPool(s', x, u) ==> s'.origin[x] == u
    requires forall r: nat, q: nat :: HeldBy(s', x, r) && HeldBy(s', x, q) ==> r == q
    requires OnePlace(s', x)
    ensures Exclusive(s')
  {
    forall c | 0 <= c < |s'.origin| ensures OnePlace(s', c) {
      if c != x {
        assert c < |s.origin| && OnePlace(s, c);
        assert forall r: nat :: HeldBy(s', c, r) <==> HeldBy(s, c, r);
        if r :| HeldBy(s, c, r) { assert HeldBy(s', c, r); }
      }
    }
    forall u: nat, c: nat | InPool(s', c, u) ensures s'.origin[c] == u {
      if c != x { assert InPool(s, c, u); }
    }
    forall c: nat, r: nat, q: nat | HeldBy(s', c, r) && HeldBy(s', c, q) ensures r == q {
      if c != x { assert HeldBy(s, c, r) && HeldBy(s, c, q); }
    }
  }

  lemma HeadLeaves(q: seq<nat>, c: nat)
    requires q != [] && forall i, j :: 0 <= i < j < |q| ==> q[i] != q[j]
    ensures c in q[1..] <==> c in q && c != q[0]
  {
    assert q == [q[0]] + q[1..];
  }

  lemma TakeStep(s: State, r: nat, poolSize: nat)
    requires Shaped(s) && Enabled(s, TakeIdle(r), poolSize) && Exclusive(s)
    ensures Shaped(Apply(s, TakeIdle(r), poolSize)) && Exclusive(Apply(s, TakeIdle(r), poolSize))
  {
    var s' := Apply(s, TakeIdle(r), poolSize);
    var u := s.relays[r].upstream;
    var x := s.idle[u][0];
    ShapedStep(s, TakeIdle(r), poolSize);
    forall c: nat ensures c in s'.idle[u] <==> c in s.idle[u] && c != x {
      HeadLeaves(s.idle[u], c);
    }
    assert InPool(s, x, u) && OnePlace(s, x) && s.origin[x] == u;
    assert HeldBy(s', x, r);
    forall q: nat ensures HeldBy(s', x, q) <==> q == r {
      assert !HeldBy(s, x, q);
    }
    forall v: nat ensures !InPool(s', x, v) {
      if InPool(s, x, v) { assert v == u; }
    }
    MovedExclusive(s, s', x);
  }

  lemma DialStep(s: State, r: nat, poolSize: nat)
    requires Shaped(s) && Enabled(s, DialOk(r), poolSize) && Exclusive(s)
    ensures Shaped(Apply(s, DialOk(r), poolSize)) && Exclusive(Apply(s, DialOk(r), poolSize))
  {
    var s' := Apply(s, DialOk(r), poolSize);
    ShapedStep(s, DialOk(r), poolSize);
    assert HeldBy(s', |s.origin|, r);
    forall q: nat ensures HeldBy(s', |s.origin|, q) <==> q == r {
    }
    MovedExclusive(s, s', |s.origin|);
  }

  /** A held connection is in no pool, is open, and goes to its holder's upstream. */
  lemma HolderAlone(s: State, x: nat, r: nat)
    requires Shaped(s) && Exclusive(s) && HeldBy(s, x, r)
    ensures x < |s.origin| && s.closes[x] == 0 && s.origin[x] == s.relays[r].upstream
    ensures forall v: nat :: !InPool(s, x, v)
    ensures forall q: nat :: HeldBy(s, x, q) ==> q == r
  {
    var u := s.origin[x];
    assert OnePlace(s, x);
    assert forall v: nat :: InPool(s, x, v) ==> v == u;
  }

  lemma ParkStep(s: State, r: nat, poolSize: nat)
    requires Shaped(s) && Enabled(s, Park(r), poolSize) && Exclusive(s)
    ensures Shaped(Apply(s, Park(r), poolSize)) && Exclusive(Apply(s, Park(r), poolSize))
  {
    var s' := Apply(s, Park(r), poolSize);
    var u, x := s.relays[r].upstream, s.relays[r].phase.conn;
    ShapedStep(s, Park(r), poolSize);
    HolderAlone(s, x, r);
    var q := s.idle[u];
    assert !InPool(s, x, u);
    assert forall i :: 0 <= i < |q| ==> q[i] in q && q[i] != x;
    if |q| < poolSize {
      assert s'.idle[u] == q + [x] && (q + [x])[|q|] == x;
      assert InPool(s', x, u);
    }
    forall q: nat ensures !HeldBy(s', x, q) {
      if HeldBy(s, x, q) { assert q == r; }
    }
    forall v: nat ensures InPool(s', x, v) ==> v == u {
      assert !InPool(s, x, v);
    }
    MovedExclusive(s, s', x);
  }

  lemma CloseStep(s: State, r: nat, ok: bool, poolSize: nat)
    requires Shaped(s) && Enabled(s, Close(r, ok), poolSize) && Exclusive(s)
    ensures Shaped(Apply(s, Close(r, ok), poolSize)) && Exclusive(Apply(s, Close(r, ok), poolSize))
  {
    var s' := Apply(s, Close(r, ok), poolSize);
    var x := s.relays[r].phase.conn;
    ShapedStep(s, Close(r, ok), poolSize);
    HolderAlone(s, x, r);
    forall q: nat ensures !HeldBy(s', x, q) {
      if HeldBy(s, x, q) { assert q == r; }
    }
    forall v: nat ensures !InPool(s', x, v) {
      assert !InPool(s, x, v);
    }
    MovedExclusive(s, s', x);
  }

  lemma StopStep(s: State, u: nat, poolSize: nat)
    requires Shaped(s) && Enabled(s, StopOne(u), poolSize) && Exclusive(s)
    ensures Shaped(Apply(s, StopOne(u), poolSize)) && Exclusive(Apply(s, StopOne(u), poolSize))
  {
    var s' := Apply(s, StopOne(u), poolSize);
    var x := s.idle[u][0];
    ShapedStep(s, StopOne(u), poolSize);
    forall c: nat ensures c in s'.idle[u] <==> c in s.idle[u] && c != x {
      HeadLeaves(s.idle[u], c);
    }
    assert InPool(s, x, u) && OnePlace(s, x) && s.origin[x] == u;
    forall v: nat ensures !InPool(s', x, v) {
      if InPool(s, x, v) { assert v == u; }
    }
    forall q: nat ensures !HeldBy(s', x, q) {
      assert !HeldBy(s, x, q);
    }
    MovedExclusive(s, s', x);
  }

  lemma ExclusiveStep(s: State, step: Step, poolSize: nat)
    requires Shaped(s) && Enabled(s, step, poolSize) && Exclusive(s)
    requires forall r :: r in s.relays ==> r < s.started
    ensures Shaped(Apply(s, step, poolSize)) && Exclusive(Apply(s, step, poolSize))
  {
    hide Exclusive;
    match step
    case TakeIdle(r) => TakeStep(s, r, poolSize);
    case DialOk(r) => DialStep(s, r, poolSize);
    case Park(r) => ParkStep(s, r, poolSize);
    case Close(r, ok) => CloseStep(s, r, ok, poolSize);
    case StopOne(u) => StopStep(s, u, poolSize);
    case _ =>
      ShapedStep(s, step, poolSize);
      SamePlaces(s, Apply(s, step, poolSize));
  }

  lemma InvStep(s: State, step: Step, poolSize: nat)
    requires Inv(s, poolSize) && Enabled(s, step, poolSize)
    ensures Inv(Apply(s, step, poolSize), poolSize)
  {
    hide Exclusive, Apply, Enabled, Counted, On;
    ExclusiveStep(s, step, poolSize);
    BoundedStep(s, step, poolSize);
    CountedStep(s, step, poolSize);
    UpstreamsStay(s, step, poolSize);
    forall u | 0 <= u < |s.idle| ensures Apply(s, step, poolSize).active[u] == |On(Apply(s, step, poolSize), u)| {
      ActiveStep(s, step, poolSize, u);
    }
  }

  lemma UpstreamsStay(s: State, step: Step, poolSize: nat)
    requires Shaped(s) && Enabled(s, step, poolSize)
    ensures |Apply(s, step, poolSize).idle| == |s.idle|
  {
  }

  // ----- every run -----

  /** A run: each step is enabled where it happens. */
  ghost predicate IsRun(s: State, steps: seq<Step>, poolSize: nat)
    decreases |steps|
  {
    steps == [] || (Shaped(s) && Enabled(s, steps[0], poolSize) && IsRun(Apply(s, steps[0], poolSize), steps[1..], poolSize))
  }

  ghost function After(s: State, steps: seq<Step>, poolSize: nat): State
    requires IsRun(s, steps, poolSize)
    decreases |steps|
  {
    if steps == [] then s else After(Apply(s, steps[0], poolSize), steps[1..], poolSize)
  }

  lemma {:induction false} RunInv(s: State, steps: seq<Step>, poolSize: nat)
    requires Inv(s, poolSize) && IsRun(s, steps, poolSize)
    ensures Inv(After(s, steps, poolSize), poolSize)
    decreases |steps|
  {
    hide Inv, Apply, Enabled;
    if steps != [] {
      InvStep(s, steps[0], poolSize);
      RunInv(Apply(s, steps[0], poolSize), steps[1..], poolSize);
    }
  }

  /** Connection ownership: in every interleaving, each connection ever dialled is in exactly one place and was
      closed at most once, no pool outgrows PoolSize, no relay dials twice or exchanges more than twice, and each
      active counter is the number of relays in progress on its upstream. */
  lemma Ownership(n: nat, steps: seq<Step>, poolSize: nat)
    requires IsRun(Initial(n), steps, poolSize)
    ensures var s := After(Initial(n), steps, poolSize);
      && Shaped(s) && Bounded(s, poolSize)
      && (forall c :: 0 <= c < |s.origin| ==> OnePlace(s, c) && s.closes[c] <= 1)
      && (forall c: nat, r: nat, q: nat :: HeldBy(s, c, r) && HeldBy(s, c, q) ==> r == q)
      && (forall u: nat, v: nat, c: nat :: InPool(s, c, u) && InPool(s, c, v) ==> u == v)
      && (forall u, i, j :: 0 <= u < |s.idle| && 0 <= i < j < |s.idle[u]| ==> s.idle[u][i] != s.idle[u][j])
      && (forall r :: r in s.relays ==> s.relays[r].dials <= 1 && s.relays[r].exchanges <= 2)
      && forall u :: 0 <= u < |s.idle| ==> s.active[u] == |On(s, u)|
  {
    hide Apply, Enabled, On;
    InitialInv(n, poolSize);
    RunInv(Initial(n), steps, poolSize);
    var s := After(Initial(n), steps, poolSize);
    forall c | 0 <= c < |s.origin| ensures OnePlace(s, c) && s.closes[c] <= 1 {
      assert OnePlace(s, c);
    }
    assert forall r :: r in s.relays ==> Counted(s.relays[r]);
  }
}

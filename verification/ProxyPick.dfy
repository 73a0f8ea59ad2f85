/** Candidate selection of proxy/proxy.go: which upstreams a request may try, and in what order. */
module ProxyPick {
  import opened Text

  class Upstream {
    const addr: string
    var healthy: bool
    var active: int

    constructor (addr: string)
      ensures this.addr == addr && healthy && active == 0
    {
      this.addr, healthy, active := addr, true, 0;
    }
  }

  datatype Strategy = RoundRobin | LeastConnections

  // ----- arithmetic of the ticket -----

  /** Conversion of a uint64 to int. */
  function ToInt64(n: nat): int {
    if n < INT64_LIMIT then n else n - UINT64_LIMIT
  }

  /** Go's remainder, with the sign of the dividend. */
  function Rem(a: int, n: nat): int
    requires n > 0
  {
    if a >= 0 then a % n else -((-a) % n)
  }

  function Start(ticket: nat, n: nat): int
    requires n > 0
  {
    Rem(ToInt64(ticket), n)
  }

  /** The round-robin start is an index exactly while the counter is below 2^63, or when n happens to divide
      what the counter has wrapped to. */
  lemma StartIsIndex(ticket: nat, n: nat)
    requires 0 < n && ticket < UINT64_LIMIT
    ensures 0 <= Start(ticket, n) < n <==> ticket < INT64_LIMIT || (UINT64_LIMIT - ticket) % n == 0
    ensures ticket < INT64_LIMIT ==> Start(ticket, n) == ticket % n
  {
  }

  // ----- orders -----

  ghost predicate Apart<T>(s: seq<T>) {
    forall i, j :: 0 <= i < j < |s| ==> s[i] != s[j]
  }

  /** The upstreams whose flag is set, in registration order. */
  function Healthy<T>(ups: seq<T>, flags: seq<bool>): seq<T>
    requires |ups| == |flags|
  {
    if ups == [] then []
    else (if flags[0] then [ups[0]] else []) + Healthy(ups[1..], flags[1..])
  }

  /** How many flags are set. */
  function Raised(flags: seq<bool>): nat {
    if flags == [] then 0 else (if flags[0] then 1 else 0) + Raised(flags[1..])
  }

  /** The snapshot, on the flags: whoever's flag is set is there, behind those registered before whose flags are
      set, and nobody else is there. */
  lemma {:induction false} HealthyExactly<T>(ups: seq<T>, flags: seq<bool>, i: nat)
    requires |ups| == |flags|
    ensures |Healthy(ups, flags)| == Raised(flags)
    ensures i < |ups| && flags[i] ==> Raised(flags[..i]) < Raised(flags) && Healthy(ups, flags)[Raised(flags[..i])] == ups[i]
  {
    if ups != [] {
      HealthyExactly(ups[1..], flags[1..], if i > 0 then i - 1 else 0);
      if 0 < i < |ups| {
        assert flags[..i][1..] == flags[1..][..i - 1];
      }
    }
  }

  lemma {:induction false} HealthyMembers<T>(ups: seq<T>, flags: seq<bool>, u: T)
    requires |ups| == |flags|
    ensures u in Healthy(ups, flags) <==> exists i :: 0 <= i < |ups| && ups[i] == u && flags[i]
  {
    if ups != [] {
      var more, rest := ups[1..], flags[1..];
      HealthyMembers(more, rest, u);
      if i :| 0 <= i < |ups| && ups[i] == u && flags[i] {
        assert i > 0 ==> more[i - 1] == u && rest[i - 1];
      }
      if i :| 0 <= i < |more| && more[i] == u && rest[i] {
        assert ups[i + 1] == u && flags[i + 1];
      }
    }
  }

  lemma MembersFlagged<T>(o: seq<T>, ups: seq<T>, flags: seq<bool>)
    requires |ups| == |flags| && Apart(ups) && forall u :: u in o <==> u in Healthy(ups, flags)
    ensures forall i :: 0 <= i < |o| ==> o[i] in ups
    ensures forall i :: 0 <= i < |ups| ==> (ups[i] in o <==> flags[i])
  {
    hide Healthy;
    forall i | 0 <= i < |o| ensures o[i] in ups {
      HealthyMembers(ups, flags, o[i]);
    }
    forall i | 0 <= i < |ups| ensures ups[i] in o <==> flags[i] {
      HealthyMembers(ups, flags, ups[i]);
    }
  }

  lemma {:induction false} DistinctCount<T>(s: seq<T>, members: set<T>)
    requires Apart(s) && forall u :: u in members <==> u in s
    ensures |members| == |s|
  {
    if s == [] {
      assert members == {};
    } else {
      var n := |s| - 1;
      assert forall u :: u in s <==> u in s[..n] || u == s[n];
      DistinctCount(s[..n], members - {s[n]});
    }
  }

  function Rotate<T>(h: seq<T>, start: nat): seq<T>
    requires start <= |h|
  {
    h[start..] + h[..start]
  }

  /** The first place of a smallest load. */
  function LeastAt(loads: seq<int>): (i: nat)
    requires loads != []
    ensures i < |loads| && forall j :: 0 <= j < |loads| ==> loads[i] <= loads[j]
    ensures forall j :: 0 <= j < i ==> loads[i] < loads[j]
  {
    var n := |loads| - 1;
    if n == 0 then 0
    else
      var i := LeastAt(loads[..n]);
      if loads[n] < loads[i] then n else i
  }

  function Promote<T>(h: seq<T>, i: nat): seq<T>
    requires i < |h|
  {
    [h[i]] + h[..i] + h[i + 1..]
  }

  /** The round-robin start indexes the snapshot; if it is negative, the first index panics. */
  predicate Indexes(strategy: Strategy, ticket: nat, n: nat)
    requires n > 0
  {
    strategy.RoundRobin? ==> Start(ticket, n) >= 0
  }

  function Order<T>(h: seq<T>, loads: seq<int>, strategy: Strategy, ticket: nat): seq<T>
    requires h != [] && |loads| == |h| && Indexes(strategy, ticket, |h|)
  {
    match strategy
    case RoundRobin => StartInRange(ticket, |h|); Rotate(h, Start(ticket, |h|))
    case LeastConnections => Promote(h, LeastAt(loads))
  }

  lemma StartInRange(ticket: nat, n: nat)
    requires n > 0
    ensures Start(ticket, n) < n && Start(ticket, n) + n > 0
    ensures ticket < INT64_LIMIT ==> Start(ticket, n) == ticket % n
  {
  }

  /** Under both strategies every healthy upstream is a candidate exactly once. */
  lemma OrderPermutes<T>(h: seq<T>, loads: seq<int>, strategy: Strategy, ticket: nat)
    requires h != [] && |loads| == |h| && Indexes(strategy, ticket, |h|)
    ensures multiset(Order(h, loads, strategy, ticket)) == multiset(h)
  {
    match strategy
    case RoundRobin =>
      StartInRange(ticket, |h|);
      var k := Start(ticket, |h|);
      assert h == h[..k] + h[k..];
    case LeastConnections =>
      var k := LeastAt(loads);
      assert h == h[..k] + [h[k]] + h[k + 1..];
  }

  /** Under least-connections the head carries the smallest load. */
  lemma LeastIsMinimal<T>(h: seq<T>, loads: seq<int>, ticket: nat)
    requires h != [] && |loads| == |h|
    ensures exists i :: 0 <= i < |h| && Order(h, loads, LeastConnections, ticket)[0] == h[i]
                        && forall j :: 0 <= j < |h| ==> loads[i] <= loads[j]
  {
    var i := LeastAt(loads);
    assert Order(h, loads, LeastConnections, ticket)[0] == h[i];
  }

  // ----- fairness -----

  /** How many of the tickets from, from + 1, ..., from + count - 1 leave the remainder j. */
  function Residues(from: nat, count: nat, n: nat, j: nat): nat
    requires n > 0
    decreases count
  {
    if count == 0 then 0 else (if from % n == j then 1 else 0) + Residues(from + 1, count - 1, n, j)
  }

  lemma {:induction false} TimesSplit(from: nat, a: nat, b: nat, n: nat, j: nat)
    requires n > 0
    ensures Residues(from, a + b, n, j) == Residues(from, a, n, j) + Residues(from + a, b, n, j)
    decreases a
  {
    if a > 0 {
      TimesSplit(from + 1, a - 1, b, n, j);
      assert a - 1 + b == a + b - 1 && from + 1 + (a - 1) == from + a;
    }
  }

  lemma {:induction false} BelowRound(from: nat, count: nat, n: nat, j: nat)
    requires from + count <= n && j < n
    ensures Residues(from, count, n, j) == if from <= j < from + count then 1 else 0
    decreases count
  {
    if count > 0 {
      assert from % n == from by { SmallMod(from, n); }
      BelowRound(from + 1, count - 1, n, j);
    }
  }

  lemma SmallMod(a: nat, n: nat)
    requires a < n
    ensures a % n == a
  {
  }

  lemma MulMonotone(a: int, b: int, n: nat)
    requires a <= b
    ensures a * n <= b * n
  {
  }

  /** Quotient and remainder are determined by what they satisfy. */
  lemma DivModUnique(a: nat, n: nat, q: nat, r: nat)
    requires r < n && a == q * n + r
    ensures a / n == q && a % n == r
  {
    var q' := a / n;
    assert a == q' * n + a % n;
    if q' < q { MulMonotone(q' + 1, q, n); }
    if q < q' { MulMonotone(q + 1, q', n); }
  }

  lemma AddMod(a: nat, n: nat)
    requires n > 0
    ensures (a + n) % n == a % n && (a + n) / n == a / n + 1
  {
    assert a == a / n * n + a % n;
    DivModUnique(a + n, n, a / n + 1, a % n);
  }

  lemma {:induction false} ResiduesOfRound(from: nat, n: nat, j: nat)
    requires j < n
    ensures Residues(from, n, n, j) == 1
    decreases from
  {
    if from == 0 {
      BelowRound(0, n, n, j);
    } else {
      ResiduesOfRound(from - 1, n, j);
      TimesSplit(from - 1, 1, n, n, j);
      TimesSplit(from - 1, n, 1, n, j);
      AddMod(from - 1, n);
      assert Residues(from - 1, 1, n, j) == if (from - 1) % n == j then 1 else 0 by { OneTicket(from - 1, n, j); }
      OneTicket(from - 1 + n, n, j);
    }
  }

  lemma OneTicket(from: nat, n: nat, j: nat)
    requires n > 0
    ensures Residues(from, 1, n, j) == if from % n == j then 1 else 0
  {
    assert Residues(from + 1, 0, n, j) == 0;
  }

  lemma {:induction false} AtMostOnce(from: nat, count: nat, n: nat, j: nat)
    requires count <= n && j < n
    ensures Residues(from, count, n, j) <= 1
  {
    ResiduesOfRound(from, n, j);
    TimesSplit(from, count, n - count, n, j);
  }

  lemma DivStep(a: nat, n: nat)
    requires 0 < n <= a
    ensures (a - n) / n == a / n - 1 && (a - n) % n == a % n
  {
    AddMod(a - n, n);
  }

  lemma DivSmall(a: nat, n: nat)
    requires a < n
    ensures a / n == 0 && a % n == a
  {
  }

  lemma {:induction false} ResiduesAreFair(from: nat, count: nat, n: nat, j: nat)
    requires j < n
    ensures count / n <= Residues(from, count, n, j) <= count / n + (if count % n == 0 then 0 else 1)
    decreases count
  {
    if count < n {
      DivSmall(count, n);
      if count > 0 { AtMostOnce(from, count, n, j); }
    } else {
      ResiduesOfRound(from, n, j);
      TimesSplit(from, n, count - n, n, j);
      ResiduesAreFair(from + n, count - n, n, j);
      DivStep(count, n);
    }
  }

  /** The head of the candidate list for a ticket. */
  function Head<T>(h: seq<T>, loads: seq<int>, ticket: nat): T
    requires h != [] && |loads| == |h| && ticket < INT64_LIMIT
  {
    HeadIsTicket(h, loads, ticket);
    Order(h, loads, RoundRobin, ticket)[0]
  }

  /** The heads of the candidate lists for the tickets from, ..., from + count - 1. */
  function Heads<T>(h: seq<T>, loads: seq<int>, from: nat, count: nat): (heads: seq<T>)
    requires h != [] && |loads| == |h| && from + count <= INT64_LIMIT
    ensures |heads| == count
  {
    if count == 0 then [] else Heads(h, loads, from, count - 1) + [Head(h, loads, from + count - 1)]
  }

  lemma {:induction false} HeadsAreResidues<T>(h: seq<T>, loads: seq<int>, from: nat, count: nat, j: nat)
    requires Apart(h) && |loads| == |h| && from + count <= INT64_LIMIT && j < |h|
    ensures multiset(Heads(h, loads, from, count))[h[j]] == Residues(from, count, |h|, j)
  {
    hide Head, Heads, Residues, Leaves, Apart;
    if count == 0 {
      NoResidues(from, |h|, j);
    } else {
      var before, head := Heads(h, loads, from, count - 1), Head(h, loads, from + count - 1);
      HeadsAreResidues(h, loads, from, count - 1, j);
      ResiduesNext(from, count - 1, |h|, j);
      HeadLeaves(h, loads, from + count - 1, j);
      OneMore(before, head, h[j]);
      HeadsNext(h, loads, from, count);
    }
  }

  lemma HeadsNext<T>(h: seq<T>, loads: seq<int>, from: nat, count: nat)
    requires h != [] && |loads| == |h| && from + count <= INT64_LIMIT && count > 0
    ensures Heads(h, loads, from, count) == Heads(h, loads, from, count - 1) + [Head(h, loads, from + count - 1)]
  {
    hide Head;
  }

  predicate Leaves(ticket: nat, n: nat, j: nat)
    requires n > 0
  {
    ticket % n == j
  }

  lemma HeadLeaves<T>(h: seq<T>, loads: seq<int>, ticket: nat, j: nat)
    requires Apart(h) && |loads| == |h| && ticket < INT64_LIMIT && j < |h|
    ensures Head(h, loads, ticket) == h[j] <==> Leaves(ticket, |h|, j)
  {
    HeadIsTicket(h, loads, ticket);
    hide Order;
  }

  lemma NoResidues(from: nat, n: nat, j: nat)
    requires n > 0
    ensures Residues(from, 0, n, j) == 0
  {
  }

  lemma ResiduesNext(from: nat, count: nat, n: nat, j: nat)
    requires n > 0
    ensures Residues(from, count + 1, n, j) == Residues(from, count, n, j) + if Leaves(from + count, n, j) then 1 else 0
  {
    TimesSplit(from, count, 1, n, j);
    OneTicket(from + count, n, j);
    hide Residues;
  }

  lemma OneMore<T>(s: seq<T>, x: T, u: T)
    ensures multiset(s + [x])[u] == multiset(s)[u] + if x == u then 1 else 0
  {
  }

  lemma HeadIsTicket<T>(h: seq<T>, loads: seq<int>, ticket: nat)
    requires h != [] && |loads| == |h| && ticket < INT64_LIMIT
    ensures Indexes(RoundRobin, ticket, |h|) && Order(h, loads, RoundRobin, ticket) != []
    ensures 0 <= ticket % |h| < |h| && Order(h, loads, RoundRobin, ticket)[0] == h[ticket % |h|]
  {
    StartInRange(ticket, |h|);
    hide Start;
  }

  /** Any |h| consecutive tickets put each healthy upstream first exactly once. */
  lemma OncePerRound<T>(h: seq<T>, loads: seq<int>, from: nat, u: T)
    requires Apart(h) && |loads| == |h| && from + |h| <= INT64_LIMIT && u in h
    ensures multiset(Heads(h, loads, from, |h|))[u] == 1
  {
    var j :| 0 <= j < |h| && h[j] == u;
    HeadsAreResidues(h, loads, from, |h|, j);
    ResiduesOfRound(from, |h|, j);
  }

  /** Round-robin fairness: over any run of consecutive tickets each healthy upstream heads floor(count / n) or
      ceil(count / n) of the candidate lists. */
  lemma RoundRobinIsFair<T>(h: seq<T>, loads: seq<int>, from: nat, count: nat, u: T)
    requires Apart(h) && |loads| == |h| && from + count <= INT64_LIMIT && u in h
    ensures var n, times := |h|, multiset(Heads(h, loads, from, count))[u];
      count / n <= times <= count / n + (if count % n == 0 then 0 else 1)
  {
    var j :| 0 <= j < |h| && h[j] == u;
    HeadsAreResidues(h, loads, from, count, j);
    ResiduesAreFair(from, count, |h|, j);
  }

  // ----- the pool -----

  class Pool {
    const ups: seq<Upstream>
    const strategy: Strategy
    var next: nat

    constructor (ups: seq<Upstream>, strategy: Strategy)
      requires Apart(ups)
      ensures Valid() && this.ups == ups && this.strategy == strategy && next == 0
    {
      this.ups, this.strategy, next := ups, strategy, 0;
    }

    ghost predicate Valid()
      reads this
    {
      Apart(ups) && next < UINT64_LIMIT
    }

    ghost function Flags(): seq<bool>
      reads ups
    {
      seq(|ups|, i requires 0 <= i < |ups| reads ups => ups[i].healthy)
    }

    ghost function Snapshot(): seq<Upstream>
      reads ups
    {
      Healthy(ups, Flags())
    }

    /** Who is healthy, by the flags. */
    ghost function Alive(): set<Upstream>
      reads ups
    {
      set u | u in ups && u.healthy
    }

    lemma SnapshotIsAlive()
      requires Valid()
      ensures Apart(Snapshot()) && |Snapshot()| == |Alive()|
      ensures forall u :: u in Snapshot() <==> u in Alive()
    {
      HealthyDistinct(ups, Flags());
      forall u ensures u in Snapshot() <==> u in Alive() {
        HealthyMembers(ups, Flags(), u);
        if u in Alive() {
          var i :| 0 <= i < |ups| && ups[i] == u;
          assert Flags()[i];
        }
      }
      DistinctCount(Snapshot(), Alive());
    }

    /** An order of the snapshot is one of the upstreams whose flag is set. */
    lemma OrderIsAlive(ticket: nat)
      requires Valid() && Snapshot() != []
      ensures exists u :: u in ups && u.healthy
      ensures !Indexes(strategy, ticket, |Snapshot()|) ==> strategy.RoundRobin? && ticket >= INT64_LIMIT
      ensures Indexes(strategy, ticket, |Snapshot()|) ==>
        var o := Order(Snapshot(), Loads(Snapshot()), strategy, ticket);
        && Apart(o) && o != [] && (forall i :: 0 <= i < |o| ==> o[i] in ups)
        && (forall i :: 0 <= i < |ups| ==> (ups[i] in o <==> ups[i].healthy))
    {
      HealthyDistinct(ups, Flags());
      var h, loads := Snapshot(), Loads(Snapshot());
      PickLaw(h, loads, strategy, ticket);
      HealthyMembers(ups, Flags(), h[0]);
      hide Order, Indexes, Healthy;
      if Indexes(strategy, ticket, |h|) {
        MembersFlagged(Order(h, loads, strategy, ticket), ups, Flags());
      }
    }

    lemma HeadIsLeast(ticket: nat)
      requires Valid() && Snapshot() != [] && strategy.LeastConnections?
      ensures var o := Order(Snapshot(), Loads(Snapshot()), strategy, ticket);
        o != [] && forall i :: 0 <= i < |ups| && ups[i].healthy ==> o[0].active <= ups[i].active
    {
      var h, loads, flags := Snapshot(), Loads(Snapshot()), Flags();
      LeastIsMinimal(h, loads, ticket);
      hide Order, Healthy;
      forall i | 0 <= i < |ups| && ups[i].healthy
        ensures Order(h, loads, strategy, ticket)[0].active <= ups[i].active
      {
        HealthyMembers(ups, flags, ups[i]);
        assert flags[i];
        var j :| 0 <= j < |h| && h[j] == ups[i];
        assert loads[j] == ups[i].active;
      }
    }

    method HealthyOnes() returns (h: seq<Upstream>)
      requires Valid()
      ensures h == Snapshot()
    {
      h := [];
      ghost var flags := Flags();
      for i := 0 to |ups|
        invariant h + Healthy(ups[i..], flags[i..]) == Healthy(ups, flags)
      {
        assert ups[i..][1..] == ups[i + 1..] && flags[i..][1..] == flags[i + 1..];
        if ups[i].healthy {
          h := h + [ups[i]];
        }
      }
    }

    method Least(h: seq<Upstream>) returns (least: Upstream)
      requires h != []
      ensures least == h[LeastAt(Loads(h))]
    {
      least := h[0];
      ghost var loads := Loads(h);
      ghost var k := 0;
      for i := 1 to |h|
        invariant k < i && least == h[k] && k == LeastAt(loads[..i])
      {
        assert loads[..i + 1][..i] == loads[..i];
        if h[i].active < least.active {
          least, k := h[i], i;
        }
      }
      assert loads[..|h|] == loads;
    }

    /** The candidates in preference order: exactly the upstreams whose flag is set, each once. Under round-robin
        a counter from 2^63 on can make the first index negative, and the request's goroutine panics
        (StartIsIndex); under least-connections the head has the smallest load. */
    method Pick() returns (ordered: seq<Upstream>, crashed: bool)
      requires Valid()
      modifies this`next
      ensures Valid()
      ensures crashed <==> old(Snapshot() != [] && !Indexes(strategy, next, |Snapshot()|))
      ensures ordered == old(if Snapshot() == [] || !Indexes(strategy, next, |Snapshot()|) then []
        else Order(Snapshot(), Loads(Snapshot()), strategy, next))
      ensures next == old(if Snapshot() != [] && strategy.RoundRobin? then (next + 1) % UINT64_LIMIT else next)
      ensures !crashed ==> Apart(ordered) && forall u | u in ordered :: u in ups
      ensures !crashed ==> forall u | u in ups :: u in ordered <==> old(u.healthy)
      ensures crashed ==> strategy.RoundRobin? && old(next) >= INT64_LIMIT && exists u :: u in ups && old(u.healthy)
      ensures strategy.LeastConnections? && ordered != [] ==>
        forall u | u in ups && u.healthy :: ordered[0].active <= u.active
    {
      hide Healthy, LeastAt, Rotate, Promote, Start, Apart;
      SnapshotIsAlive();
      ghost var loads := Loads(Snapshot());
      if Snapshot() != [] {
        OrderIsAlive(next);
        if strategy.LeastConnections? { HeadIsLeast(next); }
      }
      var h := HealthyOnes();
      if |h| == 0 {
        assert forall i :: 0 <= i < |ups| && ups[i].healthy ==> ups[i] in Alive();
        return [], false;
      }
      HealthyDistinct(ups, Flags());
      assert h == old(Snapshot()) && Loads(h) == loads;
      match strategy
      case LeastConnections =>
        ordered := LeastFirst(h);
        assert ordered == Order(h, loads, strategy, next);
        crashed := false;
      case RoundRobin =>
        var ticket := next;
        next := (next + 1) % UINT64_LIMIT;
        if Start(ticket, |h|) < 0 {
          return [], true;
        }
        ordered := FromTicket(h, ticket);
        assert ordered == Order(h, loads, strategy, ticket);
        crashed := false;
    }

    /** Requests picked one after another while nobody's health or load changes. */
    method PickHeads(count: nat, ghost h: seq<Upstream>, ghost loads: seq<int>) returns (heads: seq<Upstream>)
      requires Valid() && strategy.RoundRobin? && h == Snapshot() != [] && loads == Loads(h)
      requires next + count <= INT64_LIMIT
      modifies this`next
      ensures Valid() && next == old(next) + count && heads == Heads(h, loads, old(next), count)
    {
      heads := [];
      hide Healthy, Order, Start;
      ghost var from := next;
      for i := 0 to count
        invariant next == from + i && h == Snapshot() && loads == Loads(h)
        invariant heads == Heads(h, loads, from, i)
      {
        HeadIsTicket(h, loads, next);
        var ordered, crashed := Pick();
        heads := heads + [ordered[0]];
      }
    }

    /** And the heads are shared out fairly among the upstreams whose flag is set. */
    method PickFairly(count: nat) returns (heads: seq<Upstream>)
      requires Valid() && strategy.RoundRobin? && Alive() != {} && next + count <= INT64_LIMIT
      modifies this`next
      ensures Valid() && |heads| == count
      ensures forall u | u in Alive() ::
        var n, times := |Alive()|, multiset(heads)[u];
        count / n <= times <= count / n + (if count % n == 0 then 0 else 1)
    {
      ghost var h, loads, from := Snapshot(), Loads(Snapshot()), next;
      SnapshotIsAlive();
      heads := PickHeads(count, h, loads);
      hide Healthy, Heads;
      forall u | u in h
        ensures var n, times := |h|, multiset(heads)[u];
          count / n <= times <= count / n + (if count % n == 0 then 0 else 1)
      {
        RoundRobinIsFair(h, loads, from, count, u);
      }
    }

    method LeastFirst(h: seq<Upstream>) returns (ordered: seq<Upstream>)
      requires h != [] && Apart(h)
      ensures ordered == Promote(h, LeastAt(Loads(h)))
    {
      hide LeastAt;
      var least := Least(h);
      ghost var k := LeastAt(Loads(h));
      ordered := [least];
      for i := 0 to |h|
        invariant ordered == [least] + (if i <= k then h[..i] else h[..k] + h[k + 1..i])
      {
        if h[i] != least {
          ordered := ordered + [h[i]];
        }
      }
    }

    method FromTicket(h: seq<Upstream>, ticket: nat) returns (ordered: seq<Upstream>)
      requires h != [] && Start(ticket, |h|) >= 0
      ensures Start(ticket, |h|) < |h| && ordered == Rotate(h, Start(ticket, |h|))
    {
      hide Start, Rotate;
      StartInRange(ticket, |h|);
      var start := Start(ticket, |h|);
      ordered := [];
      RotateAt(h, start, 0);
      for i := 0 to |h|
        invariant ordered == Rotate(h, start)[..i]
      {
        RotateAt(h, start, i);
        ordered := ordered + [h[(start + i) % |h|]];
      }
    }
  }

  /** What every order keeps of the snapshot. */
  lemma PickLaw(h: seq<Upstream>, loads: seq<int>, strategy: Strategy, ticket: nat)
    requires h != [] && Apart(h) && |loads| == |h|
    ensures !Indexes(strategy, ticket, |h|) ==> strategy.RoundRobin? && ticket >= INT64_LIMIT
    ensures Indexes(strategy, ticket, |h|) ==>
      var o := Order(h, loads, strategy, ticket);
      Apart(o) && |o| == |h| && forall u :: u in o <==> u in h
  {
    if Indexes(strategy, ticket, |h|) {
      OrderPermutes(h, loads, strategy, ticket);
      var o := Order(h, loads, strategy, ticket);
      SameMembers(o, h);
    } else {
      StartInRange(ticket, |h|);
    }
  }

  lemma SameMembers<T>(o: seq<T>, h: seq<T>)
    requires multiset(o) == multiset(h) && Apart(h)
    ensures Apart(o) && |o| == |h| && forall u :: u in o <==> u in h
  {
    assert |o| == |multiset(o)| && |h| == |multiset(h)|;
    forall u ensures u in o <==> u in h {
      assert u in o <==> u in multiset(o);
      assert u in h <==> u in multiset(h);
    }
    forall i, j | 0 <= i < j < |o| ensures o[i] != o[j] {
      if o[i] == o[j] {
        TwiceCounted(o, i, j);
        OnceCounted(h, o[i]);
      }
    }
  }

  lemma TwiceCounted<T>(s: seq<T>, i: nat, j: nat)
    requires i < j < |s| && s[i] == s[j]
    ensures multiset(s)[s[i]] >= 2
  {
    assert s == s[..j] + s[j..];
    assert s[..j][i] == s[i] && s[j..][0] == s[i];
    assert s[i] in multiset(s[..j]) && s[i] in multiset(s[j..]);
  }

  lemma {:induction false} OnceCounted<T>(s: seq<T>, u: T)
    requires Apart(s)
    ensures multiset(s)[u] <= 1
  {
    if s != [] {
      var n := |s| - 1;
      assert s == s[..n] + [s[n]];
      OnceCounted(s[..n], u);
      if u == s[n] { assert u !in s[..n]; }
    }
  }

  ghost function Loads(h: seq<Upstream>): seq<int>
    reads h
  {
    seq(|h|, i requires 0 <= i < |h| reads h => h[i].active)
  }

  lemma RotateAt<T>(h: seq<T>, start: nat, i: nat)
    requires start < |h| && i < |h|
    ensures Rotate(h, start)[i] == h[(start + i) % |h|]
    ensures |Rotate(h, start)| == |h|
  {
    if start + i < |h| {
      SmallMod(start + i, |h|);
    } else {
      AddMod(start + i - |h|, |h|);
      SmallMod(start + i - |h|, |h|);
    }
  }

  /** Behind the head of a round-robin list come the upstreams after it, in registration order and round the end. */
  lemma RoundRobinOrder<T>(h: seq<T>, loads: seq<int>, ticket: nat, i: nat)
    requires i < |h| == |loads| && ticket < INT64_LIMIT
    ensures Indexes(RoundRobin, ticket, |h|) && |Order(h, loads, RoundRobin, ticket)| == |h|
    ensures 0 <= (ticket + i) % |h| < |h| && Order(h, loads, RoundRobin, ticket)[i] == h[(ticket + i) % |h|]
  {
    StartInRange(ticket, |h|);
    RotateAt(h, Start(ticket, |h|), i);
    SumMod(ticket, i, |h|);
  }

  lemma SumMod(a: nat, b: nat, n: nat)
    requires n > 0
    ensures (a % n + b) % n == (a + b) % n
  {
    var q, r := a / n, a % n;
    assert a + b == q * n + (r + b);
    TimesMod(q, r + b, n);
  }

  lemma {:induction false} TimesMod(q: nat, x: nat, n: nat)
    requires n > 0
    ensures (q * n + x) % n == x % n
  {
    if q > 0 {
      TimesMod(q - 1, x, n);
      assert q * n + x == (q - 1) * n + x + n;
      AddMod((q - 1) * n + x, n);
    }
  }

  /** Behind the head of a least-connections list the others keep their registration order. */
  lemma LeastKeepsOrder<T>(h: seq<T>, loads: seq<int>, ticket: nat, a: nat, b: nat)
    requires a < b < |h| == |loads| && Apart(h)
    ensures var o := Order(h, loads, LeastConnections, ticket);
      |o| == |h| && (o[0] != h[a] && o[0] != h[b] ==> exists p, q :: 0 <= p < q < |o| && o[p] == h[a] && o[q] == h[b])
  {
    var o, k := Order(h, loads, LeastConnections, ticket), LeastAt(loads);
    hide LeastAt;
    if k != a && k != b {
      var p, q := if a < k then a + 1 else a, if b < k then b + 1 else b;
      assert o[p] == h[a] && o[q] == h[b];
    }
  }

  lemma {:induction false} HealthyIn<T>(ups: seq<T>, flags: seq<bool>)
    requires |ups| == |flags|
    ensures forall x | x in Healthy(ups, flags) :: x in ups
  {
    if ups != [] {
      HealthyIn(ups[1..], flags[1..]);
    }
  }

  /** The snapshot keeps upstreams apart. */
  lemma {:induction false} HealthyDistinct<T>(ups: seq<T>, flags: seq<bool>)
    requires |ups| == |flags| && Apart(ups)
    ensures Apart(Healthy(ups, flags))
  {
    if ups != [] {
      HealthyDistinct(ups[1..], flags[1..]);
      HealthyIn(ups[1..], flags[1..]);
      assert forall i :: 0 <= i < |ups| - 1 ==> ups[1..][i] == ups[i + 1];
      assert ups[0] !in ups[1..];
      var rest, h := Healthy(ups[1..], flags[1..]), Healthy(ups, flags);
      forall i, j | 0 <= i < j < |h| ensures h[i] != h[j] {
        if flags[0] {
          assert h[j] == rest[j - 1] && rest[j - 1] in rest;
          assert h[i] == if i == 0 then ups[0] else rest[i - 1];
        } else {
          assert h == rest;
        }
      }
    }
  }
}

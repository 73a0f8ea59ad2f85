/** The two models of serveConn agree: what the loop does with a byte stream is a run of the step system. */
module LoopProjection {
  import opened RequestWire
  import ResponseLaws
  import opened ServeConn
  import D = ServerDrain

  /** The draining flag is set at most once and never cleared. */
  ghost predicate Monotone(drain: nat -> bool) {
    forall i: nat, j: nat :: i <= j && drain(i) ==> drain(j)
  }

  /** Shutdown sets the flag just before the first look that sees it. */
  function Raise(was: bool, now: bool): seq<D.Step> {
    if now && !was then [D.StoreDraining] else []
  }

  function Turn(wantClose: bool, was: bool, later: bool, id: nat): seq<D.Step> {
    [D.ParseOk(id, wantClose), D.Handled(id)] + Raise(was, later) + [D.Decide(id), D.Write(id, true)]
  }

  /** The steps of connection id while the loop works on the stream s; draining is the flag at its start. */
  function Trace(
    s: string, c: Config, end: IoError, drain: nat -> bool, p: Progress, draining: bool, id: nat): seq<D.Step>
    decreases |s|
  {
    var now := drain(p.looks);
    Raise(draining, now) + [D.Top(id)] +
    if now && p.served > 0 then []
    else if s == "" then [D.PeekFails(id)]
    else
      match Parse(s, c.lim, end, c.remote)
      case Faulted(CleanClose) => [D.ParseFails(id, true)]
      case Faulted(AllocPanic) => []
      case Faulted(Refused(_, _)) => [D.ParseFails(id, false), D.Write(id, true)]
      case Parsed(req, n) =>
        var later := drain(p.looks + 1);
        Turn(WantClose(req), now, later, id)
        + if KeepAlive(req, later, p.served + 1, c.maxPerConn) then Trace(s[n..], c, end, drain, p.Next(), later, id) else []
  }

  function Labels(sent: seq<D.Sent>): seq<bool> {
    seq(|sent|, i requires 0 <= i < |sent| => sent[i].keepAlive)
  }

  function LabelsSent(sent: seq<ResponseLaws.Sent>): seq<bool> {
    seq(|sent|, i requires 0 <= i < |sent| => sent[i].keepAlive)
  }

  // ----- runs -----

  lemma RunCons(s: D.State, step: D.Step, rest: seq<D.Step>, max: int)
    requires D.Enabled(s, step) && D.IsRun(D.Apply(s, step, max), rest, max)
    ensures D.IsRun(s, [step] + rest, max)
    ensures D.After(s, [step] + rest, max) == D.After(D.Apply(s, step, max), rest, max)
  {
    hide D.Enabled, D.Apply;
    assert ([step] + rest)[1..] == rest;
  }

  lemma {:induction false} RunAppend(s: D.State, a: seq<D.Step>, b: seq<D.Step>, max: int)
    requires D.IsRun(s, a, max) && D.IsRun(D.After(s, a, max), b, max)
    ensures D.IsRun(s, a + b, max) && D.After(s, a + b, max) == D.After(D.After(s, a, max), b, max)
    decreases |a|
  {
    hide D.Enabled, D.Apply;
    if a == [] {
      assert a + b == b;
    } else {
      RunAppend(D.Apply(s, a[0], max), a[1..], b, max);
      assert a + b == [a[0]] + (a[1..] + b);
      RunCons(s, a[0], a[1..] + b, max);
    }
  }

  lemma RunOne(s: D.State, step: D.Step, max: int)
    requires D.Enabled(s, step)
    ensures D.IsRun(s, [step], max) && D.After(s, [step], max) == D.Apply(s, step, max)
  {
    RunCons(s, step, [], max);
    assert [step] + [] == [step];
  }

  /** s with connection id in this phase, and the flag set to draining. */
  function With(s: D.State, id: nat, conn: D.Conn, draining: bool): D.State
    requires id < |s.conns|
  {
    D.State(s.conns[id := conn], s.registered, draining, if draining && !s.draining then D.Stored else s.shutdown)
  }

  /** The flag can still be set. */
  predicate Free(s: D.State) {
    s.draining || s.shutdown.Running?
  }

  lemma RunRaise(s: D.State, id: nat, now: bool, max: int)
    requires id < |s.conns| && Free(s) && (s.draining ==> now)
    ensures D.IsRun(s, Raise(s.draining, now), max)
    ensures D.After(s, Raise(s.draining, now), max) == With(s, id, s.conns[id], now)
  {
    assert s.conns[id := s.conns[id]] == s.conns;
    if now && !s.draining {
      RunOne(s, D.StoreDraining, max);
    }
  }

  lemma RunTop(s: D.State, id: nat, now: bool, max: int)
    requires D.At(s, id, D.LoopTop) && Free(s) && (s.draining ==> now)
    ensures D.IsRun(s, Raise(s.draining, now) + [D.Top(id)], max)
    ensures var conn := s.conns[id];
      D.After(s, Raise(s.draining, now) + [D.Top(id)], max) ==
        With(s, id, conn.(phase := if now && conn.served > 0 then D.Leaving else D.Reading), now)
  {
    RunRaise(s, id, now, max);
    RunOne(With(s, id, s.conns[id], now), D.Top(id), max);
    RunAppend(s, Raise(s.draining, now), [D.Top(id)], max);
  }

  lemma RunRefused(s: D.State, id: nat, max: int)
    requires D.At(s, id, D.Reading)
    ensures D.IsRun(s, [D.ParseFails(id, false), D.Write(id, true)], max)
    ensures var conn := s.conns[id];
      D.After(s, [D.ParseFails(id, false), D.Write(id, true)], max) ==
        With(s, id, D.Conn(D.Leaving, conn.served, conn.sent + [D.Sent(false, s.draining)]), s.draining)
  {
    var t := D.Apply(s, D.ParseFails(id, false), max);
    RunOne(t, D.Write(id, true), max);
    RunCons(s, D.ParseFails(id, false), [D.Write(id, true)], max);
    assert [D.ParseFails(id, false)] + [D.Write(id, true)] == [D.ParseFails(id, false), D.Write(id, true)];
  }

  function Kept(wantClose: bool, later: bool, served: nat, max: int): bool {
    !wantClose && !later && (max == 0 || served < max)
  }

  lemma RunHandled(s: D.State, id: nat, wantClose: bool, max: int)
    requires D.At(s, id, D.Reading)
    ensures D.IsRun(s, [D.ParseOk(id, wantClose), D.Handled(id)], max)
    ensures var conn := s.conns[id];
      D.After(s, [D.ParseOk(id, wantClose), D.Handled(id)], max) ==
        With(s, id, D.Conn(D.Deciding(wantClose), conn.served + 1, conn.sent), s.draining)
  {
    var t := D.Apply(s, D.ParseOk(id, wantClose), max);
    RunOne(t, D.Handled(id), max);
    RunCons(s, D.ParseOk(id, wantClose), [D.Handled(id)], max);
    assert [D.ParseOk(id, wantClose)] + [D.Handled(id)] == [D.ParseOk(id, wantClose), D.Handled(id)];
  }

  lemma RunWritten(s: D.State, id: nat, max: int)
    requires id < |s.conns| && s.conns[id].phase.Deciding?
    ensures D.IsRun(s, [D.Decide(id), D.Write(id, true)], max)
    ensures var conn := s.conns[id];
      var k := Kept(conn.phase.wantClose, s.draining, conn.served, max);
      D.After(s, [D.Decide(id), D.Write(id, true)], max) ==
        With(s, id, D.Conn(if k then D.LoopTop else D.Leaving, conn.served, conn.sent + [D.Sent(k, s.draining)]), s.draining)
  {
    var t := D.Apply(s, D.Decide(id), max);
    RunOne(t, D.Write(id, true), max);
    RunCons(s, D.Decide(id), [D.Write(id, true)], max);
    assert [D.Decide(id)] + [D.Write(id, true)] == [D.Decide(id), D.Write(id, true)];
  }

  lemma WithWith(s: D.State, id: nat, a: D.Conn, b: D.Conn, now: bool, later: bool)
    requires id < |s.conns| && Free(s) && (s.draining ==> now) && (now ==> later)
    ensures With(With(s, id, a, now), id, b, later) == With(s, id, b, later)
    ensures With(s, id, a, now).conns[id] == a && Free(With(s, id, a, now)) && With(s, id, a, now).draining == now
    ensures |With(s, id, a, now).conns| == |s.conns|
  {
  }

  /** One request, from reading it to the loop's head or its end. */
  lemma RunTurn(s: D.State, id: nat, wantClose: bool, later: bool, max: int)
    requires D.At(s, id, D.Reading) && Free(s) && (s.draining ==> later)
    ensures D.IsRun(s, Turn(wantClose, s.draining, later, id), max)
    ensures var conn := s.conns[id];
      var k := Kept(wantClose, later, conn.served + 1, max);
      D.After(s, Turn(wantClose, s.draining, later, id), max) ==
        With(s, id, D.Conn(if k then D.LoopTop else D.Leaving, conn.served + 1, conn.sent + [D.Sent(k, later)]), later)
  {
    var conn := s.conns[id];
    var deciding := D.Conn(D.Deciding(wantClose), conn.served + 1, conn.sent);
    var k := Kept(wantClose, later, conn.served + 1, max);
    var done := D.Conn(if k then D.LoopTop else D.Leaving, conn.served + 1, conn.sent + [D.Sent(k, later)]);
    var t, u := With(s, id, deciding, s.draining), With(s, id, deciding, later);
    RunHandled(s, id, wantClose, max);
    WithWith(s, id, deciding, deciding, s.draining, later);
    RunRaise(t, id, later, max);
    WithWith(s, id, deciding, done, later, later);
    RunWritten(u, id, max);
    hide D.IsRun, D.After, With, Raise, Kept;
    var a, b := [D.ParseOk(id, wantClose), D.Handled(id)], Raise(s.draining, later);
    RunAppend(s, a, b, max);
    RunAppend(s, a + b, [D.Decide(id), D.Write(id, true)], max);
  }

  lemma LabelsAppend(a: seq<D.Sent>, k: bool, drained: bool)
    ensures Labels(a + [D.Sent(k, drained)]) == Labels(a) + [k]
  {
  }

  lemma LabelsBehind(first: ResponseLaws.Sent, b: Served)
    ensures LabelsSent(b.Behind(first).sent) == [first.keepAlive] + LabelsSent(b.sent)
    ensures LabelsSent([first]) == [first.keepAlive] && LabelsSent([]) == []
  {
  }

  predicate Idle(s: string, drain: nat -> bool, p: Progress) {
    (drain(p.looks) && p.served > 0) || s == ""
  }

  function TopSteps(drain: nat -> bool, p: Progress, draining: bool, id: nat): seq<D.Step> {
    Raise(draining, drain(p.looks)) + [D.Top(id)]
  }

  /** The trace and the responses when the loop ends at its head. */
  lemma TraceIdle(s: string, c: Config, end: IoError, drain: nat -> bool, p: Progress, draining: bool, id: nat)
    requires Idle(s, drain, p)
    ensures Serve(s, c, end, drain, p) == Served([], false)
    ensures Trace(s, c, end, drain, p, draining, id) ==
      TopSteps(drain, p, draining, id) + if drain(p.looks) && p.served > 0 then [] else [D.PeekFails(id)]
  {
    hide Parse, Turn, Raise;
  }

  function FaultSteps(fault: Fault, id: nat): seq<D.Step> {
    match fault
    case CleanClose => [D.ParseFails(id, true)]
    case AllocPanic => []
    case Refused(_, _) => [D.ParseFails(id, false), D.Write(id, true)]
  }

  lemma TraceFaulted(s: string, c: Config, end: IoError, drain: nat -> bool, p: Progress, draining: bool, id: nat, f: Fault)
    requires !Idle(s, drain, p) && Parse(s, c.lim, end, c.remote) == Faulted(f)
    ensures Trace(s, c, end, drain, p, draining, id) == TopSteps(drain, p, draining, id) + FaultSteps(f, id)
    ensures Serve(s, c, end, drain, p).crashed <==> f == AllocPanic
    ensures LabelsSent(Serve(s, c, end, drain, p).sent) == if f.Refused? then [false] else []
  {
    hide Parse, Turn, Raise, Refusal;
  }

  lemma TraceParsed(
    s: string, c: Config, end: IoError, drain: nat -> bool, p: Progress, draining: bool, id: nat, req: Request, n: nat)
    requires !Idle(s, drain, p) && Parse(s, c.lim, end, c.remote) == Parsed(req, n)
    ensures n <= |s|
    ensures var later := drain(p.looks + 1);
      var k := KeepAlive(req, later, p.served + 1, c.maxPerConn);
      Trace(s, c, end, drain, p, draining, id) ==
        TopSteps(drain, p, draining, id) + (Turn(WantClose(req), drain(p.looks), later, id)
        + if k then Trace(s[n..], c, end, drain, p.Next(), later, id) else [])
  {
    hide Parse, Turn, Raise, KeepAlive, WantClose;
  }

  lemma ServeParsed(s: string, c: Config, end: IoError, drain: nat -> bool, p: Progress, req: Request, n: nat)
    requires !Idle(s, drain, p) && Parse(s, c.lim, end, c.remote) == Parsed(req, n)
    ensures n <= |s|
    ensures var k := KeepAlive(req, drain(p.looks + 1), p.served + 1, c.maxPerConn);
      var served, rest := Serve(s, c, end, drain, p), Serve(s[n..], c, end, drain, p.Next());
      if k then LabelsSent(served.sent) == [true] + LabelsSent(rest.sent) && served.crashed == rest.crashed
      else LabelsSent(served.sent) == [false] && !served.crashed
  {
    hide Parse, KeepAlive, Handled;
    var first := ResponseLaws.Sent(Handled(c.handler(p.served, req), req.verb == "HEAD"), true, c.date);
    LabelsBehind(first, Serve(s[n..], c, end, drain, p.Next()));
  }

  // ----- the projection -----

  /** The run ends with connection id in conn, and nothing else touched but the draining flag. */
  ghost predicate EndsIn(st: D.State, steps: seq<D.Step>, id: nat, conn: D.Conn, now: bool, max: int)
    requires id < |st.conns|
  {
    D.IsRun(st, steps, max) && D.After(st, steps, max) == With(st, id, conn, now)
  }

  lemma EndsThen(st: D.State, a: seq<D.Step>, b: seq<D.Step>, id: nat,
                 mid: D.Conn, now: bool, conn: D.Conn, later: bool, max: int)
    requires id < |st.conns| && Free(st) && (st.draining ==> now) && (now ==> later)
    requires EndsIn(st, a, id, mid, now, max) && EndsIn(With(st, id, mid, now), b, id, conn, later, max)
    ensures EndsIn(st, a + b, id, conn, later, max)
  {
    hide D.IsRun, D.After, With;
    WithWith(st, id, mid, conn, now, later);
    RunAppend(st, a, b, max);
  }

  /** How the loop ends on a fault: the connection leaves, or stays where the panic struck. */
  lemma EndsFaulted(st: D.State, id: nat, f: Fault, max: int) returns (conn: D.Conn)
    requires D.At(st, id, D.Reading)
    ensures EndsIn(st, FaultSteps(f, id), id, conn, st.draining, max)
    ensures conn.phase == if f == AllocPanic then D.Reading else D.Leaving
    ensures Labels(conn.sent) == Labels(st.conns[id].sent) + if f.Refused? then [false] else []
  {
    var was := st.conns[id];
    match f
    case CleanClose =>
      conn := was.(phase := D.Leaving);
      RunOne(st, D.ParseFails(id, true), max);
      assert Labels(conn.sent) == Labels(was.sent) + [];
    case AllocPanic =>
      conn := was;
      assert st.conns[id := was] == st.conns;
      assert Labels(conn.sent) == Labels(was.sent) + [];
    case Refused(_, _) =>
      conn := D.Conn(D.Leaving, was.served, was.sent + [D.Sent(false, st.draining)]);
      RunRefused(st, id, max);
      LabelsAppend(was.sent, false, st.draining);
  }

  lemma EndsIdle(st: D.State, id: nat, max: int)
    requires D.At(st, id, D.Reading)
    ensures EndsIn(st, [D.PeekFails(id)], id, st.conns[id].(phase := D.Leaving), st.draining, max)
  {
    RunOne(st, D.PeekFails(id), max);
  }

  predicate Starts(st: D.State, id: nat, drain: nat -> bool, p: Progress) {
    D.At(st, id, D.LoopTop) && st.conns[id].served == p.served && Free(st) && (st.draining ==> drain(p.looks))
  }

  function TopConn(conn: D.Conn, drain: nat -> bool, p: Progress): D.Conn {
    conn.(phase := if drain(p.looks) && p.served > 0 then D.Leaving else D.Reading)
  }

  lemma EndsTop(st: D.State, id: nat, drain: nat -> bool, p: Progress, max: int)
    requires Starts(st, id, drain, p)
    ensures var top, t := TopConn(st.conns[id], drain, p), With(st, id, TopConn(st.conns[id], drain, p), drain(p.looks));
      && EndsIn(st, TopSteps(drain, p, st.draining, id), id, top, drain(p.looks), max)
      && t.conns[id] == top && id < |t.conns| && Free(t) && t.draining == drain(p.looks)
  {
    var top := TopConn(st.conns[id], drain, p);
    RunTop(st, id, drain(p.looks), max);
    WithWith(st, id, top, top, drain(p.looks), drain(p.looks));
  }

  lemma LoopIdle(st: D.State, id: nat, s: string, c: Config, end: IoError, drain: nat -> bool, p: Progress)
    returns (conn: D.Conn, now: bool)
    requires Starts(st, id, drain, p) && Idle(s, drain, p)
    ensures EndsIn(st, Trace(s, c, end, drain, p, st.draining, id), id, conn, now, c.maxPerConn)
    ensures (st.draining ==> now) && conn.phase == D.Leaving && !Serve(s, c, end, drain, p).crashed
    ensures Labels(conn.sent) == Labels(st.conns[id].sent) + LabelsSent(Serve(s, c, end, drain, p).sent)
  {
    var top, head, max := TopConn(st.conns[id], drain, p), TopSteps(drain, p, st.draining, id), c.maxPerConn;
    EndsTop(st, id, drain, p, max);
    TraceIdle(s, c, end, drain, p, st.draining, id);
    NoLabels(st.conns[id].sent);
    conn, now := top.(phase := D.Leaving), drain(p.looks);
    hide With, EndsIn, TopSteps, Trace, Serve, Labels, LabelsSent;
    if drain(p.looks) && p.served > 0 {
      assert head + [] == head && conn == top;
    } else {
      EndsIdle(With(st, id, top, now), id, max);
      EndsThen(st, head, [D.PeekFails(id)], id, top, now, conn, now, max);
    }
  }

  lemma LoopFaulted(
    st: D.State, id: nat, s: string, c: Config, end: IoError, drain: nat -> bool, p: Progress, f: Fault)
    returns (conn: D.Conn, now: bool)
    requires Starts(st, id, drain, p) && !Idle(s, drain, p) && Parse(s, c.lim, end, c.remote) == Faulted(f)
    ensures EndsIn(st, Trace(s, c, end, drain, p, st.draining, id), id, conn, now, c.maxPerConn)
    ensures (st.draining ==> now) && conn.phase == if Serve(s, c, end, drain, p).crashed then D.Reading else D.Leaving
    ensures Labels(conn.sent) == Labels(st.conns[id].sent) + LabelsSent(Serve(s, c, end, drain, p).sent)
  {
    var top, head, max := TopConn(st.conns[id], drain, p), TopSteps(drain, p, st.draining, id), c.maxPerConn;
    EndsTop(st, id, drain, p, max);
    now := drain(p.looks);
    hide With, EndsIn, TopSteps, Trace, Serve, Labels, LabelsSent, Parse, FaultSteps;
    TraceFaulted(s, c, end, drain, p, st.draining, id, f);
    conn := EndsFaulted(With(st, id, top, now), id, f, max);
    EndsThen(st, head, FaultSteps(f, id), id, top, now, conn, now, max);
  }

  /** One turn of the loop that gets a request, from head to head or end. */
  lemma TurnIsRun(
    st: D.State, id: nat, s: string, c: Config, drain: nat -> bool, p: Progress, req: Request)
    returns (mid: D.Conn)
    requires Monotone(drain) && Starts(st, id, drain, p) && !Idle(s, drain, p)
    ensures var later := drain(p.looks + 1);
      var k := KeepAlive(req, later, p.served + 1, c.maxPerConn);
      && mid == D.Conn(if k then D.LoopTop else D.Leaving, p.served + 1, st.conns[id].sent + [D.Sent(k, later)])
      && EndsIn(st, TopSteps(drain, p, st.draining, id) + Turn(WantClose(req), drain(p.looks), later, id), id,
           mid, later, c.maxPerConn)
  {
    var later, max := drain(p.looks + 1), c.maxPerConn;
    var k := KeepAlive(req, later, p.served + 1, max);
    var top, head := TopConn(st.conns[id], drain, p), TopSteps(drain, p, st.draining, id);
    EndsTop(st, id, drain, p, max);
    mid := D.Conn(if k then D.LoopTop else D.Leaving, p.served + 1, st.conns[id].sent + [D.Sent(k, later)]);
    hide With, EndsIn, TopSteps, Turn, WantClose;
    assert drain(p.looks) ==> later;
    EndsTurn(With(st, id, top, drain(p.looks)), id, WantClose(req), later, max);
    WithWith(st, id, top, mid, drain(p.looks), later);
    EndsThen(st, head, Turn(WantClose(req), drain(p.looks), later, id), id, top, drain(p.looks), mid, later, max);
  }

  /** What the keep-alive loop does with a stream is a run of the step system: the same Connection labels in
      the same order, the connection leaves exactly when no panic strikes, and nothing else changes. */
  lemma {:induction false} LoopIsRun(
    st: D.State, id: nat, s: string, c: Config, end: IoError, drain: nat -> bool, p: Progress)
    returns (conn: D.Conn, now: bool)
    requires Monotone(drain) && Starts(st, id, drain, p)
    ensures EndsIn(st, Trace(s, c, end, drain, p, st.draining, id), id, conn, now, c.maxPerConn)
    ensures (st.draining ==> now) && conn.phase == if Serve(s, c, end, drain, p).crashed then D.Reading else D.Leaving
    ensures Labels(conn.sent) == Labels(st.conns[id].sent) + LabelsSent(Serve(s, c, end, drain, p).sent)
    decreases |s|
  {
    hide With, EndsIn, TopSteps, Trace, Serve, Labels, LabelsSent, Parse, Turn, WantClose, KeepAlive, Idle;
    if Idle(s, drain, p) {
      conn, now := LoopIdle(st, id, s, c, end, drain, p);
    } else {
      var out := Parse(s, c.lim, end, c.remote);
      match out
      case Faulted(f) =>
        conn, now := LoopFaulted(st, id, s, c, end, drain, p, f);
      case Parsed(req, n) =>
        var later := drain(p.looks + 1);
        var k := KeepAlive(req, later, p.served + 1, c.maxPerConn);
        var mid := TurnIsRun(st, id, s, c, drain, p, req);
        TraceParsed(s, c, end, drain, p, st.draining, id, req, n);
        ServeParsed(s, c, end, drain, p, req, n);
        LabelsAppend(st.conns[id].sent, k, later);
        var head, turn := TopSteps(drain, p, st.draining, id), Turn(WantClose(req), drain(p.looks), later, id);
        if k {
          WithWith(st, id, mid, mid, later, later);
          assert drain(p.looks + 2) || !later;
          conn, now := LoopIsRun(With(st, id, mid, later), id, s[n..], c, end, drain, p.Next());
          var rest := Trace(s[n..], c, end, drain, p.Next(), later, id);
          EndsThen(st, head + turn, rest, id, mid, later, conn, now, c.maxPerConn);
          assert head + (turn + rest) == head + turn + rest;
        } else {
          conn, now := mid, later;
          assert turn + [] == turn;
        }
    }
  }

  lemma NoLabels(sent: seq<D.Sent>)
    ensures Labels(sent) + LabelsSent([]) == Labels(sent)
  {
  }

  lemma EndsTurn(st: D.State, id: nat, wantClose: bool, later: bool, max: int)
    requires D.At(st, id, D.Reading) && Free(st) && (st.draining ==> later)
    ensures var conn := st.conns[id];
      var k := Kept(wantClose, later, conn.served + 1, max);
      EndsIn(st, Turn(wantClose, st.draining, later, id), id,
        D.Conn(if k then D.LoopTop else D.Leaving, conn.served + 1, conn.sent + [D.Sent(k, later)]), later, max)
  {
    RunTurn(st, id, wantClose, later, max);
  }

  const OPENING: seq<D.Step> := [D.Accept, D.Track(0), D.Register(0)]

  lemma OpeningRun(max: int)
    ensures D.IsRun(D.INITIAL, OPENING, max)
    ensures D.After(D.INITIAL, OPENING, max) == D.State([D.Conn(D.LoopTop, 0, [])], {0}, false, D.Running)
  {
    var a := D.Apply(D.INITIAL, D.Accept, max);
    var b := D.Apply(a, D.Track(0), max);
    RunOne(b, D.Register(0), max);
    RunCons(a, D.Track(0), [D.Register(0)], max);
    RunCons(D.INITIAL, D.Accept, [D.Track(0)] + [D.Register(0)], max);
    assert OPENING == [D.Accept] + ([D.Track(0)] + [D.Register(0)]);
  }

  /** So the safety of every run is the safety of what is sent: of the responses to any stream, at most one is
      written after draining is set. */
  lemma BytesDrainSafely(s: string, c: Config, end: IoError, drain: nat -> bool)
    requires Monotone(drain)
    ensures var run := OPENING + Trace(s, c, end, drain, START, false, 0);
      && D.IsRun(D.INITIAL, run, c.maxPerConn)
      && var conns := D.After(D.INITIAL, run, c.maxPerConn).conns;
      && |conns| == 1 && D.Drained(conns[0].sent) <= 1
      && Labels(conns[0].sent) == LabelsSent(Serve(s, c, end, drain, START).sent)
  {
    var st := D.State([D.Conn(D.LoopTop, 0, [])], {0}, false, D.Running);
    var trace := Trace(s, c, end, drain, START, false, 0);
    OpeningRun(c.maxPerConn);
    var conn, now := LoopIsRun(st, 0, s, c, end, drain, START);
    RunAppend(D.INITIAL, OPENING, trace, c.maxPerConn);
    hide Trace, Serve, D.IsRun, D.After, D.Drained, LabelsSent, Labels;
    D.DrainSafety(OPENING + trace, c.maxPerConn);
    NothingLabelled();
    assert [] + LabelsSent(Serve(s, c, end, drain, START).sent) == LabelsSent(Serve(s, c, end, drain, START).sent);
  }

  lemma NothingLabelled()
    ensures Labels([]) == []
  {
  }
}

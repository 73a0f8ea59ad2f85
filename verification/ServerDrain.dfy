/** The keep-alive loop of httpcore/server.go interleaved with Shutdown, as a step system over all connections. */
module ServerDrain {
  // Where a connection's goroutine is.
  datatype Phase =
    | Accepted                    // returned by Accept
    | Tracked                     // in the conns map, before wg.Add
    | LoopTop                     // before the drain test of the loop
    | Reading                     // waiting for a request, or reading it
    | Handling(wantClose: bool)   // in safeHandle
    | Deciding(wantClose: bool)   // before keepAlive is computed
    | Writing(keepAlive: bool)    // in serialize
    | Leaving                     // serveConn has returned
    | Gone                        // after wg.Done

  /** A response written: its Connection label, and whether draining was already set. */
  datatype Sent = Sent(keepAlive: bool, drained: bool)

  datatype Conn = Conn(phase: Phase, served: nat, sent: seq<Sent>)

  datatype Shutdown = Running | Stored | Waiting(waitedFor: set<nat>) | Returned(waitedFor: set<nat>)

  datatype State = State(conns: seq<Conn>, registered: set<nat>, draining: bool, shutdown: Shutdown)

  datatype Step =
    | Accept
    | Track(c: nat)
    | Register(c: nat)                    // wg.Add(1)
    | Top(c: nat)                         // the drain test
    | PeekFails(c: nat)
    | ParseOk(c: nat, wantClose: bool)
    | ParseFails(c: nat, silent: bool)    // errCleanClose, or an error to answer
    | Handled(c: nat)                     // the handler returned, or panicked into a 500
    | Decide(c: nat)
    | Write(c: nat, ok: bool)
    | Finish(c: nat)                      // close, untrack, wg.Done
    | StoreDraining                       // Shutdown: draining.Store(true)
    | StartWait                           // Shutdown: wg.Wait begins
    | WaitEnds                            // the counter is zero

  const INITIAL := State([], {}, false, Running)

  predicate At(s: State, c: nat, phase: Phase) {
    c < |s.conns| && s.conns[c].phase == phase
  }

  predicate Enabled(s: State, step: Step) {
    match step
    case Accept => true
    case Track(c) => At(s, c, Accepted)
    case Register(c) => At(s, c, Tracked)
    case Top(c) => At(s, c, LoopTop)
    case PeekFails(c) => At(s, c, Reading)
    case ParseOk(c, _) => At(s, c, Reading)
    case ParseFails(c, _) => At(s, c, Reading)
    case Handled(c) => c < |s.conns| && s.conns[c].phase.Handling?
    case Decide(c) => c < |s.conns| && s.conns[c].phase.Deciding?
    case Write(c, _) => c < |s.conns| && s.conns[c].phase.Writing?
    case Finish(c) => At(s, c, Leaving)
    case StoreDraining => s.shutdown.Running?
    case StartWait => s.shutdown.Stored?
    case WaitEnds => s.shutdown.Waiting? && s.registered == {}
  }

  function Moved(s: State, c: nat, phase: Phase): State
    requires c < |s.conns|
  {
    s.(conns := s.conns[c := s.conns[c].(phase := phase)])
  }

  function Apply(s: State, step: Step, maxPerConn: int): State
    requires Enabled(s, step)
  {
    match step
    case Accept => s.(conns := s.conns + [Conn(Accepted, 0, [])])
    case Track(c) => Moved(s, c, Tracked)
    case Register(c) => Moved(s, c, LoopTop).(registered := s.registered + {c})
    case Top(c) => Moved(s, c, if s.draining && s.conns[c].served > 0 then Leaving else Reading)
    case PeekFails(c) => Moved(s, c, Leaving)
    case ParseOk(c, wantClose) => Moved(s, c, Handling(wantClose))
    case ParseFails(c, silent) => Moved(s, c, if silent then Leaving else Writing(false))
    case Handled(c) =>
      var conn := s.conns[c];
      s.(conns := s.conns[c := conn.(phase := Deciding(conn.phase.wantClose), served := conn.served + 1)])
    case Decide(c) =>
      var conn := s.conns[c];
      Moved(s, c, Writing(!conn.phase.wantClose && !s.draining && (maxPerConn == 0 || conn.served < maxPerConn)))
    case Write(c, ok) =>
      var conn := s.conns[c];
      s.(conns := s.conns[c := conn.(
        phase := if ok && conn.phase.keepAlive then LoopTop else Leaving,
        sent := conn.sent + [Sent(conn.phase.keepAlive, s.draining)])])
    case Finish(c) => Moved(s, c, Gone).(registered := s.registered - {c})
    case StoreDraining => s.(draining := true, shutdown := Stored)
    case StartWait => s.(shutdown := Waiting(s.registered))
    case WaitEnds => s.(shutdown := Returned(s.shutdown.waitedFor))
  }

  // ----- the invariant -----

  /** Every response but the last was labelled keep-alive and written before the drain. */
  ghost predicate Continued(sent: seq<Sent>) {
    forall i :: 0 <= i < |sent| - 1 ==> sent[i].keepAlive && !sent[i].drained
  }

  /** Nothing was written yet that would make a further response wrong. */
  ghost predicate Open(conn: Conn) {
    forall i :: 0 <= i < |conn.sent| ==> conn.sent[i].keepAlive && !conn.sent[i].drained
  }

  ghost predicate ConnInv(conn: Conn, draining: bool, maxPerConn: int) {
    && Continued(conn.sent)
    && (maxPerConn > 0 ==> conn.served <= maxPerConn)
    && match conn.phase
       case Accepted => conn.served == 0 && conn.sent == []
       case Tracked => conn.served == 0 && conn.sent == []
       case LoopTop => (Open(conn) || (draining && conn.served > 0)) && (maxPerConn > 0 ==> conn.served < maxPerConn)
       case Reading => Open(conn) && (maxPerConn > 0 ==> conn.served < maxPerConn)
       case Handling(_) => Open(conn) && (maxPerConn > 0 ==> conn.served < maxPerConn)
       case Deciding(_) => Open(conn) && conn.served > 0
       case Writing(keepAlive) => Open(conn) && (keepAlive ==> conn.served > 0 && (maxPerConn > 0 ==> conn.served < maxPerConn))
       case Leaving => true
       case Gone => true
  }

  /** In the wait group: from wg.Add to wg.Done. */
  predicate InGroup(phase: Phase) {
    !phase.Accepted? && !phase.Tracked? && !phase.Gone?
  }

  ghost predicate Inv(s: State, maxPerConn: int) {
    && (forall c :: 0 <= c < |s.conns| ==> ConnInv(s.conns[c], s.draining, maxPerConn))
    && (forall c: nat :: c in s.registered <==> c < |s.conns| && InGroup(s.conns[c].phase))
    && (s.shutdown.Waiting? || s.shutdown.Returned? ==>
          forall c: nat | c in s.shutdown.waitedFor :: c < |s.conns| && !s.conns[c].phase.Accepted? && !s.conns[c].phase.Tracked?)
    && (s.shutdown.Returned? ==> forall c: nat | c in s.shutdown.waitedFor :: At(s, c, Gone))
  }

  lemma ConnStep(s: State, step: Step, maxPerConn: int, c: nat)
    requires Enabled(s, step) && c < |s.conns| && ConnInv(s.conns[c], s.draining, maxPerConn)
    ensures var s' := Apply(s, step, maxPerConn); ConnInv(s'.conns[c], s'.draining, maxPerConn)
  {
  }

  lemma GroupStep(s: State, step: Step, maxPerConn: int)
    requires Enabled(s, step)
    requires forall c: nat :: c in s.registered <==> c < |s.conns| && InGroup(s.conns[c].phase)
    ensures var s' := Apply(s, step, maxPerConn);
      forall c: nat :: c in s'.registered <==> c < |s'.conns| && InGroup(s'.conns[c].phase)
  {
  }

  lemma InvStep(s: State, step: Step, maxPerConn: int)
    requires Inv(s, maxPerConn) && Enabled(s, step)
    ensures Inv(Apply(s, step, maxPerConn), maxPerConn)
  {
    var s' := Apply(s, step, maxPerConn);
    forall c | 0 <= c < |s'.conns| ensures ConnInv(s'.conns[c], s'.draining, maxPerConn) {
      if c < |s.conns| { ConnStep(s, step, maxPerConn, c); }
    }
    GroupStep(s, step, maxPerConn);
  }

  // ----- every run -----

  ghost predicate IsRun(s: State, steps: seq<Step>, maxPerConn: int)
    decreases |steps|
  {
    steps == [] || (Enabled(s, steps[0]) && IsRun(Apply(s, steps[0], maxPerConn), steps[1..], maxPerConn))
  }

  ghost function After(s: State, steps: seq<Step>, maxPerConn: int): State
    requires IsRun(s, steps, maxPerConn)
    decreases |steps|
  {
    if steps == [] then s else After(Apply(s, steps[0], maxPerConn), steps[1..], maxPerConn)
  }

  lemma {:induction false} RunInv(s: State, steps: seq<Step>, maxPerConn: int)
    requires Inv(s, maxPerConn) && IsRun(s, steps, maxPerConn)
    ensures Inv(After(s, steps, maxPerConn), maxPerConn)
    decreases |steps|
  {
    hide Inv, Apply, Enabled;
    if steps != [] {
      InvStep(s, steps[0], maxPerConn);
      RunInv(Apply(s, steps[0], maxPerConn), steps[1..], maxPerConn);
    }
  }

  function Drained(sent: seq<Sent>): nat {
    if sent == [] then 0 else (if sent[0].drained then 1 else 0) + Drained(sent[1..])
  }

  lemma {:induction false} OnlyLastDrained(sent: seq<Sent>)
    requires Continued(sent)
    ensures Drained(sent) <= 1
    ensures (forall i :: 0 <= i < |sent| ==> !sent[i].drained) ==> Drained(sent) == 0
  {
    if sent != [] {
      assert forall i :: 0 <= i < |sent| - 1 ==> sent[1..][i] == sent[i + 1];
      OnlyLastDrained(sent[1..]);
      if |sent| == 1 { assert Drained(sent[1..]) == 0; }
    }
  }

  /** Drain and keep-alive safety over all interleavings with Shutdown. */
  lemma DrainSafety(steps: seq<Step>, maxPerConn: int)
    requires IsRun(INITIAL, steps, maxPerConn)
    ensures var s := After(INITIAL, steps, maxPerConn);
      // after draining is set, a connection writes at most one more response
      && (forall c :: 0 <= c < |s.conns| ==> Drained(s.conns[c].sent) <= 1)
      // a response labelled close is the connection's last
      && (forall c, i :: 0 <= c < |s.conns| && 0 <= i < |s.conns[c].sent| - 1 ==> s.conns[c].sent[i].keepAlive)
      // MaxRequestsPerConn, when positive, bounds the requests handled
      && (forall c :: 0 <= c < |s.conns| && maxPerConn > 0 ==> s.conns[c].served <= maxPerConn)
      // Shutdown returns only after everything registered before its wait has finished
      && (s.shutdown.Returned? ==> forall c: nat | c in s.shutdown.waitedFor :: At(s, c, Gone))
  {
    hide Apply, Enabled;
    RunInv(INITIAL, steps, maxPerConn);
    var s := After(INITIAL, steps, maxPerConn);
    forall c | 0 <= c < |s.conns| ensures Drained(s.conns[c].sent) <= 1 && Continued(s.conns[c].sent) {
      assert ConnInv(s.conns[c], s.draining, maxPerConn);
      OnlyLastDrained(s.conns[c].sent);
    }
  }
}

/** serveConn of httpcore/server.go over one connection: requests in, responses out, in order. */
module ServeConn {
  import opened Text
  import opened HeaderFields
  import opened RequestWire
  import opened RequestLaws
  import opened Responses
  import opened ResponseLaws

  /** What a handler leaves in the response writer, whether frozen, and whether it panics afterwards. */
  datatype Reply = Reply(status: int, fields: Fields, body: string, frozen: bool, panics: bool)

  /** The handler, and the settings and clock text it runs under. The handler may answer the n-th request of
      the connection in any way, so equal requests need not get equal replies. */
  datatype Config = Config(
    handler: (nat, Request) -> Reply, lim: Limits, maxPerConn: int, date: string, remote: string)

  /** How many times the draining flag was read, and how many requests were served, so far. */
  datatype Progress = Progress(looks: nat, served: nat) {
    function Next(): Progress { Progress(looks + 2, served + 1) }
  }

  const START := Progress(0, 0)

  predicate WantClose(req: Request) {
    || ContainsToken(req.headers, "Connection", "close")
    || (req.proto == "HTTP/1.0" && !ContainsToken(req.headers, "Connection", "keep-alive"))
  }

  function KeepAlive(req: Request, draining: bool, served: nat, maxPerConn: int): bool {
    !WantClose(req) && !draining && (maxPerConn == 0 || served < maxPerConn)
  }

  /** The response after safeHandle: a panic becomes a 500 that replaces the body. */
  function Handled(reply: Reply, isHead: bool): Response {
    var r := Response(reply.status, reply.fields, reply.body, isHead);
    if reply.panics then ErrorView(r, false, 500, "internal error") else r
  }

  /** The status writeError answers a refused request with. */
  function RefusalStatus(status: int, cause: Cause): int {
    if cause == Io(Timeout) then 408 else status
  }

  function Refusal(status: int): Response {
    var r := ErrorView(Response(200, [], "", false), false, status, "");
    if status == 408 || status == 503 then r.(fields := Set(r.fields, "Retry-After", "1")) else r
  }

  /** What one connection sends; crashed means a request made the goroutine panic outside safeHandle. */
  datatype Served = Served(sent: seq<Sent>, crashed: bool) {
    function Behind(first: Sent): Served {
      Served([first] + sent, crashed)
    }
  }

  /** The loop, when drain(k) is what the k-th read of the draining flag sees. */
  function Serve(s: string, c: Config, end: IoError, drain: nat -> bool, p: Progress): Served
    decreases |s|
  {
    if (drain(p.looks) && p.served > 0) || s == "" then Served([], false)
    else
      match Parse(s, c.lim, end, c.remote)
      case Faulted(CleanClose) => Served([], false)
      case Faulted(AllocPanic) => Served([], true)
      case Faulted(Refused(status, cause)) =>
        Served([Sent(Refusal(RefusalStatus(status, cause)), false, c.date)], false)
      case Parsed(req, n) =>
        var keepAlive := KeepAlive(req, drain(p.looks + 1), p.served + 1, c.maxPerConn);
        var first := Sent(Handled(c.handler(p.served, req), req.verb == "HEAD"), keepAlive, c.date);
        if keepAlive then Serve(s[n..], c, end, drain, p.Next()).Behind(first) else Served([first], false)
  }

  // ----- the loop itself -----

  method SafeHandle(c: Config, served: nat, req: Request) returns (w: ResponseWriter)
    requires WellFormed(c.handler(served, req).fields)
    ensures fresh(w) && fresh(w.headers) && fresh(w.body) && w.Valid()
    ensures w.View() == Handled(c.handler(served, req), req.verb == "HEAD")
  {
    hide WellFormed, Flatten, AddAll, Set;
    w := new ResponseWriter();
    w.isHead := req.verb == "HEAD";
    var reply := c.handler(served, req);
    AddLines(w, reply.fields);
    w.WriteHeader(reply.status);
    w.Write(reply.body);
    assert w.Body() == "" + reply.body == reply.body;
    if reply.frozen {
      w.Hijack();
    }
    if reply.panics {
      w.hijacked := false;
      w.Error(500, "internal error");
    }
  }

  method WriteError(c: Config, status: int) returns (wire: string)
    ensures wire == Serialized(Refusal(status), "HTTP/1.1", false, c.date)
  {
    hide Set, Serialized;
    var w := new ResponseWriter();
    w.Error(status, "");
    if status == 408 || status == 503 {
      w.headers.SetKey("Retry-After", "1");
    }
    wire := w.Serialize("HTTP/1.1", false, c.date);
  }

  /** One turn of the loop after Peek: what is sent, and whether the loop goes on. */
  datatype Turn = Turn(sent: seq<Sent>, goOn: bool, crashed: bool, used: nat)

  function NextTurn(s: string, c: Config, end: IoError, draining: bool, served: nat): (t: Turn)
    ensures t.goOn ==> 0 < t.used <= |s| && |t.sent| == 1 && t.sent[0].keepAlive && !t.crashed
    ensures t.goOn && c.maxPerConn > 0 ==> served + 1 < c.maxPerConn
  {
    match Parse(s, c.lim, end, c.remote)
    case Faulted(CleanClose) => Turn([], false, false, 0)
    case Faulted(AllocPanic) => Turn([], false, true, 0)
    case Faulted(Refused(status, cause)) =>
      Turn([Sent(Refusal(RefusalStatus(status, cause)), false, c.date)], false, false, 0)
    case Parsed(req, n) =>
      var keepAlive := KeepAlive(req, draining, served + 1, c.maxPerConn);
      Turn([Sent(Handled(c.handler(served, req), req.verb == "HEAD"), keepAlive, c.date)], keepAlive, false, n)
  }

  method ServeOne(r: Reader, c: Config, draining: bool, served: nat) returns (out: string, goOn: bool, crashed: bool)
    requires r.Valid() && forall n, req :: WellFormed(c.handler(n, req).fields)
    modifies r`pos
    ensures r.Valid()
    ensures var t := NextTurn(old(r.Rest()), c, r.ending, draining, served);
      && out == StreamOf(t.sent) && goOn == t.goOn && crashed == t.crashed
      && (goOn ==> r.Rest() == old(r.Rest())[t.used..])
  {
    hide Parse, KeepAlive, Refusal, Handled, Serialized, StreamOf;
    var parsed := ParseRequest(r, c.lim, c.remote);
    match parsed
    case Faulted(CleanClose) => return StreamOf([]), false, false;
    case Faulted(AllocPanic) => return StreamOf([]), false, true;
    case Faulted(Refused(status, cause)) =>
      LastSent(Sent(Refusal(RefusalStatus(status, cause)), false, c.date));
      out := WriteError(c, RefusalStatus(status, cause));
      goOn, crashed := false, false;
    case Parsed(req, _) =>
      var w := SafeHandle(c, served, req);
      goOn := KeepAlive(req, draining, served + 1, c.maxPerConn);
      LastSent(Sent(w.View(), goOn, c.date));
      out := w.Serialize("HTTP/1.1", goOn, c.date);
      crashed := false;
  }

  lemma ServeUnfolds(s: string, c: Config, end: IoError, drain: nat -> bool, p: Progress)
    ensures var stop := (drain(p.looks) && p.served > 0) || s == "";
      var t := NextTurn(s, c, end, drain(p.looks + 1), p.served);
      Serve(s, c, end, drain, p) ==
        if stop then Served([], false)
        else if t.goOn then Serve(s[t.used..], c, end, drain, p.Next()).Behind(t.sent[0])
        else Served(t.sent, t.crashed)
  {
    hide Parse, KeepAlive, Refusal, Handled;
  }

  method ServeLoop(r: Reader, c: Config, drain: nat -> bool) returns (out: string, crashed: bool)
    requires r.Valid() && forall n, req :: WellFormed(c.handler(n, req).fields)
    modifies r`pos
    ensures r.Valid()
    ensures var session := Serve(old(r.Rest()), c, r.ending, drain, START);
      out == StreamOf(session.sent) && crashed == session.crashed
  {
    hide Serve, NextTurn, Serialized, KeepAlive;
    ghost var goal := Serve(r.Rest(), c, r.ending, drain, START);
    var p := START;
    out, crashed := "", false;
    while true
      invariant r.Valid()
      invariant var rest := Serve(r.Rest(), c, r.ending, drain, p);
        StreamOf(goal.sent) == out + StreamOf(rest.sent) && goal.crashed == rest.crashed
      invariant !crashed
      decreases |r.Rest()|
    {
      ServeUnfolds(r.Rest(), c, r.ending, drain, p);
      if (drain(p.looks) && p.served > 0) || r.pos == |r.stream| {
        return;
      }
      ghost var t := NextTurn(r.Rest(), c, r.ending, drain(p.looks + 1), p.served);
      var wire, goOn;
      wire, goOn, crashed := ServeOne(r, c, drain(p.looks + 1), p.served);
      if !goOn {
        out := out + wire;
        return;
      }
      p := p.Next();
      assert t.sent == [t.sent[0]];
      LastSent(t.sent[0]);
      ghost var rest := Serve(r.Rest(), c, r.ending, drain, p).sent;
      MoreSent(t.sent[0], rest);
      Regroup(out, wire, StreamOf(rest));
      out := out + wire;
    }
  }

  lemma LastSent(x: Sent)
    ensures StreamOf([x]) == Serialized(x.r, "HTTP/1.1", x.keepAlive, x.date)
  {
    hide Serialized;
    assert [x][1..] == [];
  }

  lemma MoreSent(x: Sent, xs: seq<Sent>)
    ensures StreamOf([x] + xs) == Serialized(x.r, "HTTP/1.1", x.keepAlive, x.date) + StreamOf(xs)
  {
    hide Serialized;
    assert ([x] + xs)[1..] == xs;
  }

  // ----- end to end -----

  /** The response to the n-th request of the connection. */
  function Answer(n: nat, x: Exchange, keepAlive: bool, c: Config): Sent {
    Sent(Handled(c.handler(n, x.req), x.req.verb == "HEAD"), keepAlive, c.date)
  }

  /** Draining is seen at the head of the loop, after at least one request. */
  predicate Halts(drain: nat -> bool, p: Progress) {
    drain(p.looks) && p.served > 0
  }

  predicate Keeps(x: Exchange, c: Config, drain: nat -> bool, p: Progress) {
    KeepAlive(x.req, drain(p.looks + 1), p.served + 1, c.maxPerConn)
  }

  /** The responses to a list of requests on one connection. */
  function Answers(xs: seq<Exchange>, c: Config, drain: nat -> bool, p: Progress): seq<Sent>
    decreases |xs|
  {
    if xs == [] || Halts(drain, p) then []
    else
      [Answer(p.served, xs[0], Keeps(xs[0], c, drain, p), c)]
      + if Keeps(xs[0], c, drain, p) then Answers(xs[1..], c, drain, p.Next()) else []
  }

  /** The loop survives all of them. */
  predicate GoesOn(xs: seq<Exchange>, c: Config, drain: nat -> bool, p: Progress)
    decreases |xs|
  {
    xs == [] || (!Halts(drain, p) && Keeps(xs[0], c, drain, p) && GoesOn(xs[1..], c, drain, p.Next()))
  }

  function Later(p: Progress, n: nat): Progress {
    Progress(p.looks + 2 * n, p.served + n)
  }

  function Then(a: seq<Sent>, b: Served): Served {
    Served(a + b.sent, b.crashed)
  }

  lemma ThenLaw(first: Sent, a: seq<Sent>, b: Served)
    ensures Then([first] + a, b) == Then(a, b).Behind(first)
  {
    assert [first] + (a + b.sent) == [first] + a + b.sent;
  }

  lemma ThenNothing(b: Served)
    ensures Then([], b) == b
    ensures b == Served([], false) ==> forall a :: Then(a, b) == Served(a, false)
  {
    assert [] + b.sent == b.sent;
    forall a: seq<Sent> ensures b.sent == [] ==> a + b.sent == a {}
  }

  lemma LaterLaw(p: Progress, n: nat)
    ensures Later(p, 0) == p && Later(p.Next(), n) == Later(p, n + 1)
  {
  }

  lemma WiresCons(xs: seq<Exchange>, tail: string)
    requires xs != []
    ensures Wires(xs) + tail == xs[0].wire + (Wires(xs[1..]) + tail)
  {
    assert Wires(xs) == xs[0].wire + Wires(xs[1..]);
    Regroup(xs[0].wire, Wires(xs[1..]), tail);
  }

  lemma ServeHalted(s: string, c: Config, end: IoError, drain: nat -> bool, p: Progress)
    requires Halts(drain, p) || s == ""
    ensures Serve(s, c, end, drain, p) == Served([], false)
  {
  }

  lemma ServeAccepted(x: Exchange, more: string, c: Config, end: IoError, drain: nat -> bool, p: Progress)
    requires Accepted(x, c.lim, c.remote) && !Halts(drain, p)
    ensures Serve(x.wire + more, c, end, drain, p) ==
      if Keeps(x, c, drain, p) then Serve(more, c, end, drain, p.Next()).Behind(Answer(p.served, x, true, c))
      else Served([Answer(p.served, x, false, c)], false)
  {
    hide Parse, Handled, KeepAlive;
    assert Shares(x.wire, x.wire + more, |x.wire|);
    ParseLocal(x.wire, x.wire + more, c.lim, EOF, end, c.remote);
    assert (x.wire + more)[|x.wire|..] == more;
    AcceptedNonempty(x, c.lim, c.remote);
  }

  /** Pipelined requests are served each once and in order until one closes the connection or the drain is
      seen, and whatever follows them is served as if it had come on its own. */
  lemma {:induction false} PipelineServed(
    xs: seq<Exchange>, tail: string, c: Config, end: IoError, drain: nat -> bool, p: Progress)
    requires forall x | x in xs :: Accepted(x, c.lim, c.remote)
    ensures Serve(Wires(xs) + tail, c, end, drain, p) ==
      if GoesOn(xs, c, drain, p) then Then(Answers(xs, c, drain, p), Serve(tail, c, end, drain, Later(p, |xs|)))
      else Served(Answers(xs, c, drain, p), false)
    decreases |xs|
  {
    hide Accepted, Keeps, Halts, Answer, Serve, Wires, Then, Later;
    LaterLaw(p, if |xs| > 0 then |xs| - 1 else 0);
    var rest := Serve(tail, c, end, drain, Later(p, |xs|));
    if xs == [] {
      assert Wires(xs) == "" by { NoWires(); }
      assert "" + tail == tail;
      ThenNothing(rest);
    } else if Halts(drain, p) {
      ServeHalted(Wires(xs) + tail, c, end, drain, p);
    } else {
      WiresCons(xs, tail);
      ServeAccepted(xs[0], Wires(xs[1..]) + tail, c, end, drain, p);
      if Keeps(xs[0], c, drain, p) {
        PipelineServed(xs[1..], tail, c, end, drain, p.Next());
        ThenLaw(Answer(p.served, xs[0], true, c), Answers(xs[1..], c, drain, p.Next()), rest);
      }
    }
  }

  lemma NoWires()
    ensures Wires([]) == ""
  {
  }

  lemma AcceptedNonempty(x: Exchange, lim: Limits, remote: string)
    requires Accepted(x, lim, remote)
    ensures x.wire != ""
  {
    hide Parse;
  }

  lemma FirstAnswer(xs: seq<Exchange>, c: Config, drain: nat -> bool, p: Progress)
    ensures var a := Answers(xs, c, drain, p);
      a != [] ==>
        && xs != [] && !Halts(drain, p) && a[0] == Answer(p.served, xs[0], Keeps(xs[0], c, drain, p), c)
        && (|a| > 1 ==> Keeps(xs[0], c, drain, p))
        && a[1..] == if Keeps(xs[0], c, drain, p) then Answers(xs[1..], c, drain, p.Next()) else []
  {
    hide Keeps, Answer, Halts;
  }

  /** Response i is the i-th request's, and no drain was seen before it. */
  lemma {:induction false} AnswerAt(xs: seq<Exchange>, c: Config, drain: nat -> bool, p: Progress, i: nat)
    requires i < |Answers(xs, c, drain, p)|
    ensures i < |xs| && !Halts(drain, Later(p, i))
    ensures Answers(xs, c, drain, p)[i] == Answer(Later(p, i).served, xs[i], Keeps(xs[i], c, drain, Later(p, i)), c)
    ensures i < |Answers(xs, c, drain, p)| - 1 ==> Keeps(xs[i], c, drain, Later(p, i))
    decreases |xs|
  {
    LaterLaw(p, if i > 0 then i - 1 else 0);
    FirstAnswer(xs, c, drain, p);
    hide *;
    if i > 0 {
      var a, more := Answers(xs, c, drain, p), xs[1..];
      assert a[1..] == Answers(more, c, drain, p.Next());
      AnswerAt(more, c, drain, p.Next(), i - 1);
      var b := Answers(more, c, drain, p.Next());
      assert b[i - 1] == a[i] && more[i - 1] == xs[i] && |b| == |a| - 1;
    }
  }

  /** Where the responses end. */
  lemma {:induction false} AnswersEnd(xs: seq<Exchange>, c: Config, drain: nat -> bool, p: Progress)
    ensures var a := Answers(xs, c, drain, p);
      && |a| <= |xs|
      && (|a| < |xs| ==> (|a| > 0 && !a[|a| - 1].keepAlive) || Halts(drain, Later(p, |a|)))
      && (GoesOn(xs, c, drain, p) <==> |a| == |xs| && (a != [] ==> a[|a| - 1].keepAlive))
    decreases |xs|
  {
    if xs != [] { AnswerLabel(p.served, xs[0], Keeps(xs[0], c, drain, p), c); }
    LaterLaw(p, 0);
    hide Keeps, Answer, Halts, Later;
    if xs != [] && !Halts(drain, p) && Keeps(xs[0], c, drain, p) {
      AnswersEnd(xs[1..], c, drain, p.Next());
      LaterLaw(p, |Answers(xs[1..], c, drain, p.Next())|);
    }
  }

  /** Which requests are answered, and how: the first n, where n is the number of all of them, or the first
      place after a response labelled close, or the first place where the drain is seen. */
  lemma AnswersLaw(xs: seq<Exchange>, c: Config, drain: nat -> bool, p: Progress)
    ensures var a := Answers(xs, c, drain, p);
      && |a| <= |xs|
      && (forall i :: 0 <= i < |a| ==>
            !Halts(drain, Later(p, i)) && a[i] == Answer(Later(p, i).served, xs[i], Keeps(xs[i], c, drain, Later(p, i)), c))
      && (forall i :: 0 <= i < |a| - 1 ==> a[i].keepAlive)
      && (|a| < |xs| ==> (|a| > 0 && !a[|a| - 1].keepAlive) || Halts(drain, Later(p, |a|)))
      && (GoesOn(xs, c, drain, p) <==> |a| == |xs| && (a != [] ==> a[|a| - 1].keepAlive))
  {
    hide *;
    var a := Answers(xs, c, drain, p);
    AnswersEnd(xs, c, drain, p);
    forall i | 0 <= i < |a|
      ensures !Halts(drain, Later(p, i))
      ensures a[i] == Answer(Later(p, i).served, xs[i], Keeps(xs[i], c, drain, Later(p, i)), c)
      ensures i < |a| - 1 ==> a[i].keepAlive
    {
      AnswerAt(xs, c, drain, p, i);
      AnswerLabel(Later(p, i).served, xs[i], Keeps(xs[i], c, drain, Later(p, i)), c);
    }
  }

  /** A client that pipelines accepted non-HEAD requests reads back exactly the statuses of the responses to the
      first n of them, in order, with nothing left over; n is what AnswersLaw says. */
  lemma EndToEnd(xs: seq<Exchange>, c: Config, end: IoError, drain: nat -> bool)
    requires forall x | x in xs :: Accepted(x, c.lim, c.remote)
    requires forall i :: 0 <= i < |xs| ==>
      xs[i].req.verb != "HEAD" && Sendable(Handled(c.handler(i, xs[i].req), false), c.date)
    ensures var session := Serve(Wires(xs), c, end, drain, START);
      && !session.crashed && session.sent == Answers(xs, c, drain, START)
      && ReadMany(StreamOf(session.sent), |session.sent|) == Some((Statuses(session.sent), ""))
  {
    hide *;
    PipelineServed(xs, "", c, end, drain, START);
    assert Wires(xs) + "" == Wires(xs);
    ServeHalted("", c, end, drain, Later(START, |xs|));
    ThenNothing(Served([], false));
    AnswersReadBack(xs, c, drain);
  }

  lemma AnswersReadBack(xs: seq<Exchange>, c: Config, drain: nat -> bool)
    requires forall i :: 0 <= i < |xs| ==>
      xs[i].req.verb != "HEAD" && Sendable(Handled(c.handler(i, xs[i].req), false), c.date)
    ensures var ys := Answers(xs, c, drain, START);
      ReadMany(StreamOf(ys), |ys|) == Some((Statuses(ys), ""))
  {
    hide *;
    AnswersLaw(xs, c, drain, START);
    var ys := Answers(xs, c, drain, START);
    forall y | y in ys ensures Sendable(y.r, y.date) && !y.r.isHead {
      var i :| 0 <= i < |ys| && ys[i] == y;
      StartLaw(i);
      AnswerOf(i, xs[i], Keeps(xs[i], c, drain, Later(START, i)), c);
    }
    StreamRoundTrip(ys, "");
    assert StreamOf(ys) + "" == StreamOf(ys);
  }

  lemma StartLaw(i: nat)
    ensures Later(START, i) == Progress(2 * i, i)
  {
  }

  lemma AnswerOf(n: nat, x: Exchange, keepAlive: bool, c: Config)
    requires x.req.verb != "HEAD"
    ensures var y := Answer(n, x, keepAlive, c);
      y.r == Handled(c.handler(n, x.req), false) && y.date == c.date && !y.r.isHead
  {
    hide Handled;
    HandledHead(c.handler(n, x.req), false);
  }

  lemma HandledHead(reply: Reply, isHead: bool)
    ensures Handled(reply, isHead).isHead == isHead
  {
    hide Set;
  }

  /** With no drain, nobody asking to close before the last, and room under the limit, every one is answered. */
  lemma AllAnswered(xs: seq<Exchange>, c: Config, drain: nat -> bool)
    requires forall i :: 0 <= i < |xs| - 1 ==> !WantClose(xs[i].req)
    requires (c.maxPerConn == 0 || |xs| <= c.maxPerConn) && forall k :: !drain(k)
    ensures |Answers(xs, c, drain, START)| == |xs|
  {
    hide *;
    var a := Answers(xs, c, drain, START);
    AnswersLaw(xs, c, drain, START);
    NeverHalts(drain, Later(START, |a|));
    if 0 < |a| < |xs| {
      var i := |a| - 1;
      KeptOpen(xs[i], c, drain, i);
      AnswerLabel(Later(START, i).served, xs[i], Keeps(xs[i], c, drain, Later(START, i)), c);
    }
  }

  lemma NeverHalts(drain: nat -> bool, p: Progress)
    requires !drain(p.looks)
    ensures !Halts(drain, p)
  {
  }

  lemma AnswerLabel(n: nat, x: Exchange, keepAlive: bool, c: Config)
    ensures Answer(n, x, keepAlive, c).keepAlive == keepAlive
  {
    hide Handled;
  }

  lemma KeptOpen(x: Exchange, c: Config, drain: nat -> bool, i: nat)
    requires !WantClose(x.req) && !drain(2 * i + 1)
    requires c.maxPerConn == 0 || i + 1 < c.maxPerConn
    ensures Keeps(x, c, drain, Later(START, i))
  {
    hide WantClose;
    assert Later(START, i) == Progress(2 * i, i);
  }

  /** Whatever arrives: at most MaxRequestsPerConn requests are answered when it is positive, and every response
      but the last is labelled keep-alive. */
  lemma {:induction false} LabelsAreKept(s: string, c: Config, end: IoError, drain: nat -> bool, p: Progress)
    requires c.maxPerConn > 0 ==> p.served < c.maxPerConn
    ensures var sent := Serve(s, c, end, drain, p).sent;
      && (forall i :: 0 <= i < |sent| - 1 ==> sent[i].keepAlive)
      && (c.maxPerConn > 0 ==> |sent| <= c.maxPerConn - p.served)
    decreases |s|
  {
    hide Serve;
    ServeUnfolds(s, c, end, drain, p);
    if !((drain(p.looks) && p.served > 0) || s == "") {
      var t := NextTurn(s, c, end, drain(p.looks + 1), p.served);
      TurnSize(s, c, end, drain(p.looks + 1), p.served);
      if t.goOn {
        hide NextTurn;
        LabelsAreKept(s[t.used..], c, end, drain, p.Next());
        var rest, all := Serve(s[t.used..], c, end, drain, p.Next()).sent, Serve(s, c, end, drain, p).sent;
        assert all == [t.sent[0]] + rest;
      }
    }
  }

  lemma TurnSize(s: string, c: Config, end: IoError, draining: bool, served: nat)
    ensures |NextTurn(s, c, end, draining, served).sent| <= 1
  {
    hide Parse, Handled, Refusal;
  }
}

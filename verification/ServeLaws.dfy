/** What a connection's responses say, in terms of what the client sent: labels, panics, refusals. */
module ServeLaws {
  import opened Text
  import opened HeaderFields
  import opened RequestWire
  import opened RequestLaws
  import opened Responses
  import ResponseLaws
  import opened ServeConn
  import Refusals

  // ----- the Connection field -----

  lemma FieldsStay(r: Response, date: string)
    requires WellFormed(r.fields)
    ensures WellFormed(Framed(Defaulted(Defaulted(r.fields, "Date", date), "Server", "PulseHTTP/1.0"), r.status, |r.body|))
  {
    hide WellFormed, Set, Has, Del, Itoa;
    DefaultedStays(r.fields, "Date", date);
    var fs := Defaulted(r.fields, "Date", date);
    DefaultedStays(fs, "Server", "PulseHTTP/1.0");
    var fs' := Defaulted(fs, "Server", "PulseHTTP/1.0");
    SetLaw(fs', "Content-Length", Itoa(|r.body|), "");
    DelLaw(fs', "Content-Length", "");
    hide Defaulted;
  }

  lemma DefaultedStays(fs: Fields, key: string, value: string)
    requires WellFormed(fs)
    ensures WellFormed(Defaulted(fs, key, value))
  {
    hide WellFormed, Set, Has;
    SetLaw(fs, key, value, "");
  }

  /** The Connection field on the wire says what becomes of the connection. */
  lemma LabelIsWritten(r: Response, keepAlive: bool, date: string)
    requires WellFormed(r.fields)
    ensures Values(FinalFields(r, keepAlive, date), "Connection") == [if keepAlive then "keep-alive" else "close"]
  {
    FieldsStay(r, date);
    hide WellFormed, Set, Framed, Defaulted;
    var fs := Framed(Defaulted(Defaulted(r.fields, "Date", date), "Server", "PulseHTTP/1.0"), r.status, |r.body|);
    SetLaw(fs, "Connection", if keepAlive then "keep-alive" else "close", "Connection");
  }

  // ----- the responses to a stream -----

  ghost predicate SaneHandler(c: Config) {
    forall n, req :: WellFormed(c.handler(n, req).fields)
  }

  /** Response i to any stream is the one to the i-th request read off it; behind them comes at most a refusal. */
  lemma SentAre(s: string, c: Config, end: IoError, drain: nat -> bool, i: nat)
    ensures var all, sent := ParseAll(s, c.lim, end, c.remote), Serve(s, c, end, drain, START).sent;
      i < |sent| && i < |all.read| ==>
            && sent[i] == ServeConn.Answer(i, all.read[i], Keeps(all.read[i], c, drain, Progress(2 * i, i)), c)
            && (!sent[i].keepAlive ==> |sent| == i + 1)
            && (sent[i].keepAlive && i + 1 < |all.read| ==> (i + 1 < |sent| <==> !drain(2 * (i + 1))))
  {
    hide *;
    var all := ParseAll(s, c.lim, end, c.remote);
    var a := Answers(all.read, c, drain, START);
    Unpipelining(s, c.lim, end, c.remote);
    PipelineServed(all.read, all.left, c, end, drain, START);
    AnswersLaw(all.read, c, drain, START);
    ThenIs(a, Serve(all.left, c, end, drain, Later(START, |all.read|)));
    if i < |a| {
      StartLaw(i);
      LabelOf(i, all.read[i], Keeps(all.read[i], c, drain, Later(START, i)), c);
      StartLaw(|a|);
      HaltsIs(drain, Later(START, |a|));
    }
    StartLaw(|a|);
    HaltsIs(drain, Later(START, |a|));
    if i + 1 < |a| {
      StartLaw(i + 1);
      HaltsIs(drain, Later(START, i + 1));
    }
    assert |a| == |all.read| && !GoesOn(all.read, c, drain, START) ==> a != [] && !a[|a| - 1].keepAlive;
  }

  /** The first request on a connection is answered even during a drain. */
  lemma FirstIsAnswered(s: string, c: Config, end: IoError, drain: nat -> bool)
    requires ParseAll(s, c.lim, end, c.remote).read != []
    ensures Serve(s, c, end, drain, START).sent != []
  {
    hide *;
    var all := ParseAll(s, c.lim, end, c.remote);
    Unpipelining(s, c.lim, end, c.remote);
    PipelineServed(all.read, all.left, c, end, drain, START);
    AnswersLaw(all.read, c, drain, START);
    ThenIs(Answers(all.read, c, drain, START), Serve(all.left, c, end, drain, Later(START, |all.read|)));
    LaterLaw(START, 0);
    HaltsIs(drain, START);
    FreshStart();
  }

  lemma FreshStart()
    ensures START == Progress(0, 0)
  {
  }

  lemma ThenIs(a: seq<ResponseLaws.Sent>, b: Served)
    ensures Then(a, b).sent == a + b.sent
  {
  }

  lemma LabelOf(n: nat, x: Exchange, keepAlive: bool, c: Config)
    ensures ServeConn.Answer(n, x, keepAlive, c).keepAlive == keepAlive
  {
    hide Handled;
  }

  lemma HaltsIs(drain: nat -> bool, p: Progress)
    ensures Halts(drain, p) <==> drain(p.looks) && p.served > 0
  {
  }

  /** The label of a response, in terms of its request, for any stream: keep-alive if and only if the client did not
      ask to close, no drain is seen and the limit has room. A client asks to close with the token close in a
      Connection field, or by speaking HTTP/1.0 without the token keep-alive. After a response labelled close nothing
      is sent; after one labelled keep-alive the next request is answered, unless a drain is seen before it. */
  lemma LabelExactly(s: string, c: Config, end: IoError, drain: nat -> bool, i: nat)
    requires SaneHandler(c)
    requires i < |ParseAll(s, c.lim, end, c.remote).read| && i < |Serve(s, c, end, drain, START).sent|
    ensures var all, sent := ParseAll(s, c.lim, end, c.remote), Serve(s, c, end, drain, START).sent;
      var req := all.read[i].req;
      var close := ContainsToken(req.headers, "Connection", "close")
        || (req.proto == "HTTP/1.0" && !ContainsToken(req.headers, "Connection", "keep-alive"));
      && (sent[i].keepAlive <==> !close && !drain(2 * i + 1) && (c.maxPerConn == 0 || i + 1 < c.maxPerConn))
      && Values(FinalFields(sent[i].r, sent[i].keepAlive, c.date), "Connection")
           == [if sent[i].keepAlive then "keep-alive" else "close"]
      && (!sent[i].keepAlive ==> |sent| == i + 1)
      && (sent[i].keepAlive && i + 1 < |all.read| ==> (i + 1 < |sent| <==> !drain(2 * (i + 1))))
  {
    hide *;
    var all, sent := ParseAll(s, c.lim, end, c.remote), Serve(s, c, end, drain, START).sent;
    var x, keepAlive := all.read[i], Keeps(all.read[i], c, drain, Progress(2 * i, i));
    SentAre(s, c, end, drain, i);
    LabelOf(i, x, keepAlive, c);
    KeepsExactly(x, c, drain, i);
    AnswerFields(i, x, keepAlive, c);
    LabelIsWritten(sent[i].r, sent[i].keepAlive, c.date);
  }

  lemma KeepsExactly(x: Exchange, c: Config, drain: nat -> bool, i: nat)
    ensures Keeps(x, c, drain, Progress(2 * i, i)) <==>
      && !ContainsToken(x.req.headers, "Connection", "close")
      && (x.req.proto == "HTTP/1.0" ==> ContainsToken(x.req.headers, "Connection", "keep-alive"))
      && !drain(2 * i + 1) && (c.maxPerConn == 0 || i + 1 < c.maxPerConn)
  {
    hide ContainsToken;
  }

  lemma AnswerFields(n: nat, x: Exchange, keepAlive: bool, c: Config)
    requires SaneHandler(c)
    ensures WellFormed(ServeConn.Answer(n, x, keepAlive, c).r.fields)
  {
    hide WellFormed, Set;
    SetLaw(c.handler(n, x.req).fields, "Content-Type", "text/plain; charset=utf-8", "");
  }

  // ----- what the client is shown -----

  /** A handler's response goes out as it left it; a handler that panics makes a 500 that says so, whatever it had
      written or frozen, and the fields it had set stay, but for Content-Type. */
  lemma PanicIsShown(s: string, c: Config, end: IoError, drain: nat -> bool, i: nat, name: string)
    requires SaneHandler(c)
    requires i < |ParseAll(s, c.lim, end, c.remote).read| && i < |Serve(s, c, end, drain, START).sent|
    ensures var req, r := ParseAll(s, c.lim, end, c.remote).read[i].req, Serve(s, c, end, drain, START).sent[i].r;
      var reply := c.handler(i, req);
      && r.isHead == (req.verb == "HEAD")
      && (!reply.panics ==> r.status == reply.status && r.fields == reply.fields && r.body == reply.body)
      && (reply.panics ==> r.status == 500 && r.body == "500 internal error\n")
      && (reply.panics ==>
            Values(r.fields, name) ==
              if Canonical(name) == Canonical("Content-Type") then ["text/plain; charset=utf-8"]
              else Values(reply.fields, name))
  {
    SentAre(s, c, end, drain, i);
    hide ParseAll, Serve, Canonical, Values, WellFormed, Answers, GoesOn, Keeps, Set;
    var req := ParseAll(s, c.lim, end, c.remote).read[i].req;
    SetLaw(c.handler(i, req).fields, "Content-Type", "text/plain; charset=utf-8", name);
    FiveHundred();
    hide ErrorText;
  }

  lemma FiveHundred()
    ensures ErrorText(500, "internal error") == "500 internal error\n"
  {
    assert Digits(5, 10) == "5" && Digits(50, 10) == "50" && Itoa(500) == "500";
  }

  /** The last response to a stream, if it is not one to a request: a refusal of what could not be read, with that
      status, or with 408 when reading ran into a timeout; it is labelled close, and has Retry-After exactly with
      408. It is sent whenever the requests before it all kept the connection alive and no drain is seen. */
  lemma RefusalIsShown(s: string, c: Config, end: IoError, drain: nat -> bool)
    ensures var all, sent := ParseAll(s, c.lim, end, c.remote), Serve(s, c, end, drain, START).sent;
      var n := |all.read|;
      && (n < |sent| ==>
            && |sent| == n + 1 && all.fault.Refused? && !sent[n].keepAlive
            && sent[n].r.status == (if all.fault.cause == Io(Timeout) then 408 else all.fault.status)
            && Values(sent[n].r.fields, "Retry-After") == if sent[n].r.status == 408 then ["1"] else [])
      && (all.fault.Refused? && all.left != "" && (n > 0 ==> |sent| >= n && sent[n - 1].keepAlive && !drain(2 * n)) ==>
            |sent| == n + 1)
  {
    var all, sent := ParseAll(s, c.lim, end, c.remote), Serve(s, c, end, drain, START).sent;
    var n := |all.read|;
    hide *;
    Unpipelining(s, c.lim, end, c.remote);
    TailIs(s, c, end, drain);
    LastServed(all.left, c, end, drain, n, all.fault);
    if all.fault.Refused? {
      Refusals.StatusOf(all.left, c.lim, end, c.remote);
      RefusalFields(all.fault.status, all.fault.cause);
    }
  }

  /** What follows the responses to the requests read. */
  lemma TailIs(s: string, c: Config, end: IoError, drain: nat -> bool)
    ensures var all, sent := ParseAll(s, c.lim, end, c.remote), Serve(s, c, end, drain, START).sent;
      var n := |all.read|; var rest := Serve(all.left, c, end, drain, Later(START, n)).sent;
      var kept := n == 0 || (|sent| >= n && sent[n - 1].keepAlive);
      && (kept ==> n <= |sent| && sent[n..] == rest)
      && (!kept ==> |sent| <= n)
  {
    hide *;
    var all := ParseAll(s, c.lim, end, c.remote);
    var a := Answers(all.read, c, drain, START);
    Unpipelining(s, c.lim, end, c.remote);
    PipelineServed(all.read, all.left, c, end, drain, START);
    AnswersEnd(all.read, c, drain, START);
    ThenIs(a, Serve(all.left, c, end, drain, Later(START, |all.read|)));
    NoneToAnswer(c, drain);
  }

  lemma NoneToAnswer(c: Config, drain: nat -> bool)
    ensures Answers([], c, drain, START) == [] && GoesOn([], c, drain, START)
  {
  }

  lemma LastServed(s: string, c: Config, end: IoError, drain: nat -> bool, n: nat, fault: Fault)
    requires Parse(s, c.lim, end, c.remote) == Faulted(fault)
    ensures Serve(s, c, end, drain, Later(START, n)).sent ==
      if (drain(2 * n) && n > 0) || s == "" || !fault.Refused? then []
      else [ResponseLaws.Sent(Refusal(RefusalStatus(fault.status, fault.cause)), false, c.date)]
  {
    hide Parse, Refusal, RefusalStatus;
    StartLaw(n);
  }

  lemma RefusalFields(status: int, cause: Cause)
    requires status in {400, 413, 414, 431, 501, 505}
    ensures var r := Refusal(RefusalStatus(status, cause));
      && r.status == (if cause == Io(Timeout) then 408 else status)
      && Values(r.fields, "Retry-After") == if r.status == 408 then ["1"] else []
  {
    hide Canonical, ErrorText, Itoa;
    CanonicalLength("Retry-After");
    CanonicalLength("Content-Type");
    var fs := Set([], "Content-Type", "text/plain; charset=utf-8");
    SetLaw([], "Content-Type", "text/plain; charset=utf-8", "Retry-After");
    SetLaw(fs, "Retry-After", "1", "Retry-After");
    assert Values([], "Retry-After") == [];
    hide Values, Set, WellFormed;
  }

  /** A client that stops in the middle of a request line until the read times out is told so. */
  lemma TimeoutIsShown(s: string, c: Config, drain: nat -> bool)
    requires s != "" && LF !in s && |s| <= c.lim.maxRequestLine
    ensures var sent := Serve(s, c, Timeout, drain, START).sent;
      |sent| == 1 && sent[0].r.status == 408 && Values(sent[0].r.fields, "Retry-After") == ["1"] && !sent[0].keepAlive
  {
    hide *;
    HalfLineTimesOut(s, c);
    RefusalFields(400, Io(Timeout));
    LaterLaw(START, 0);
    LastServed(s, c, Timeout, drain, 0, Refused(400, Io(Timeout)));
  }

  lemma HalfLineTimesOut(s: string, c: Config)
    requires LF !in s && |s| <= c.lim.maxRequestLine
    ensures Parse(s, c.lim, Timeout, c.remote) == Faulted(Refused(400, Io(Timeout)))
  {
    LineOpen(s, s, c.lim.maxRequestLine);
    hide LineOf;
  }
}

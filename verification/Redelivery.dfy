/** How often one client request reaches upstream servers. */
module Redelivery {
  import opened Text
  import opened HeaderFields
  import opened RequestWire
  import opened RequestLaws
  import opened Responses
  import opened ResponseLaws
  import opened Decoders
  import opened RelayRequest
  import opened RelayLaws
  import opened RelayAnswerLaws
  import opened ProxyHandler
  import opened Proxied
  import opened ServeConn

  /** How many connections took all the bytes of the request. */
  function Deliveries(ws: seq<Wire>): nat {
    if ws == [] then 0 else (if ws[0].accepts then 1 else 0) + Deliveries(ws[1..])
  }

  lemma {:induction false} DeliveredTwice(ws: seq<Wire>)
    ensures Deliveries(ws) > 0 <==> exists i :: 0 <= i < |ws| && ws[i].accepts
    ensures Deliveries(ws) > 1 <==> (exists i, j :: 0 <= i < j < |ws| && ws[i].accepts && ws[j].accepts)
  {
    if ws != [] {
      var rest := ws[1..];
      DeliveredTwice(rest);
      assert forall i :: 0 <= i < |rest| ==> rest[i] == ws[i + 1];
      if i :| 0 <= i < |rest| && rest[i].accepts {
        assert ws[i + 1].accepts;
      }
      if i, j :| 0 <= i < j < |rest| && rest[i].accepts && rest[j].accepts {
        assert ws[i + 1].accepts && ws[j + 1].accepts;
      }
      if i, j :| 0 <= i < j < |ws| && ws[i].accepts && ws[j].accepts {
        assert rest[j - 1].accepts;
        if i > 0 { assert rest[i - 1].accepts; }
      }
    }
  }

  /** Every connection but the last took nothing, or gave no answer that decodes. */
  ghost predicate OnlyLastAnswers(ws: seq<Wire>, cap: int) {
    forall i :: 0 <= i < |ws| - 1 ==> ExchangeOn(ws[i], cap).RelayError?
  }

  lemma RelayOnlyLast(a: Attempt, cap: int)
    ensures OnlyLastAnswers(RelayWires(a, cap), cap)
    ensures RelayOutcome(a, cap).RelayError? ==>
      forall i :: 0 <= i < |RelayWires(a, cap)| ==> ExchangeOn(RelayWires(a, cap)[i], cap).RelayError?
  {
    hide ExchangeOn;
  }

  lemma {:induction false} WiresOnlyLast(env: nat -> Attempt, cap: int, n: nat, from: nat)
    requires from <= n
    ensures OnlyLastAnswers(WiresFrom(env, cap, n, from), cap)
    decreases n - from
  {
    hide ExchangeOn, RelayOutcome, RelayWires;
    if from < n {
      RelayOnlyLast(env(from), cap);
      var first := RelayWires(env(from), cap);
      if RelayOutcome(env(from), cap).Answer? {
        assert first + [] == first;
      } else {
        WiresOnlyLast(env, cap, n, from + 1);
      }
    }
  }

  /** It took the bytes of the request and gave no answer that decodes. */
  predicate TookAndFailed(w: Wire, cap: int) {
    w.accepts && RelayDecode(w.stream, cap, w.ending).RelayError?
  }

  /** One relay delivers a request twice if and only if a pooled connection took its bytes and gave no answer that
      decodes, and the fresh connection dialled for the retry took them again. */
  lemma RelayTwiceExactly(a: Attempt, cap: int)
    ensures Deliveries(RelayWires(a, cap)) > 1 <==>
      a.pooled.Some? && TookAndFailed(a.pooled.value, cap) && a.dialed.Some? && a.dialed.value.accepts
  {
    hide RelayDecode;
    DeliveredTwice(RelayWires(a, cap));
    var ws := RelayWires(a, cap);
    assert |ws| == 2 ==> ws[0] == a.pooled.value && ws[1] == a.dialed.value;
  }

  /** The handler delivers a request more than once if and only if some connection, pooled or of an earlier
      candidate, took its bytes and gave no answer that decodes, and a later one took them again. The method of
      the request plays no part. */
  lemma RedeliveredExactly(env: nat -> Attempt, cap: int, n: nat)
    ensures var ws := WiresFrom(env, cap, n, 0);
      Deliveries(ws) > 1 <==> (exists i, j :: 0 <= i < j < |ws| && TookAndFailed(ws[i], cap) && ws[j].accepts)
  {
    hide RelayDecode, WiresFrom;
    var ws := WiresFrom(env, cap, n, 0);
    WiresOnlyLast(env, cap, n, 0);
    DeliveredTwice(ws);
    if i, j :| 0 <= i < j < |ws| && ws[i].accepts && ws[j].accepts {
      assert ExchangeOn(ws[i], cap).RelayError?;
    }
  }

  // ----- at one input -----

  /** A pooled connection that takes the request and is closed before the answer arrives, and a fresh one. */
  function LostAnswer(answer: string): Attempt {
    Attempt(Some(Wire(true, "", EOF)), Some(Wire(true, answer, EOF)))
  }

  lemma LostAnswerLaw(answer: string, cap: int)
    ensures var a := LostAnswer(answer);
      Deliveries(RelayWires(a, cap)) == 2 && RelayOutcome(a, cap) == RelayDecode(answer, cap, EOF)
  {
    RawLineMissing("");
    assert RelayDecode("", cap, EOF).RelayError?;
    hide RelayDecode;
    var w0, w1 := Wire(true, "", EOF), Wire(true, answer, EOF);
    assert RelayWires(LostAnswer(answer), cap) == [w0, w1];
    assert [w0, w1][1..] == [w1] && [w1][1..] == [];
    assert Deliveries([w1]) == 1;
  }

  /** What an upstream server sends on a connection that brings it the relayed request and nothing else. */
  function Sends(req: Request, host: string, up: Config, drain: nat -> bool, p: Progress): seq<ResponseLaws.Sent> {
    Serve(RelayBytes(req, host), up, EOF, drain, p).sent
  }

  /** Any request whose answer is lost on a pooled connection, whatever its method. Both connections lead to the
      same upstream server; on each the server takes the bytes for one request, and its handler is given the same
      relayed request. The client sees the second response only. */
  lemma HandledTwice(req: Request, host: string, up: Config, drain: nat -> bool, p: Progress, cap: int)
    requires Sound(req) && HostOk(host) && Fits(req, host, up.lim) && Has(req.headers, "Host") && !Halts(drain, p)
    requires Carried(UpstreamResponse(req, host, up, 0), up.date, cap)
    ensures var first := Sends(req, host, up, drain, p);
      |first| == 1 && first[0].r == UpstreamResponse(req, host, up, p.served)
    ensures var second := Sends(req, host, up, drain, START);
      |second| == 1 && second[0].r == UpstreamResponse(req, host, up, 0)
    ensures var a := LostAnswer(StreamOf(Sends(req, host, up, drain, START)));
      Deliveries(RelayWires(a, cap)) == 2 && Shows(a, UpstreamResponse(req, host, up, 0), cap)
  {
    hide *;
    var second := Sends(req, host, up, drain, START);
    FreshStart(drain);
    FirstIsAnswered(req, host, up, drain, p);
    FirstIsAnswered(req, host, up, drain, START);
    LostAnswerLaw(StreamOf(second), cap);
    assert second == [second[0]];
    OneDecodes(second[0], LostAnswer(StreamOf(second)), cap);
  }

  /** The relay's client is given that status and that body. */
  predicate Shows(a: Attempt, r: Response, cap: int) {
    var out := RelayOutcome(a, cap);
    out.Answer? && out.status == r.status && out.body == r.body
  }

  lemma FreshStart(drain: nat -> bool)
    ensures !Halts(drain, START) && START.served == 0
  {
  }

  lemma OneDecodes(x: ResponseLaws.Sent, a: Attempt, cap: int)
    requires Carried(x.r, x.date, cap) && RelayOutcome(a, cap) == RelayDecode(StreamOf([x]), cap, EOF)
    ensures Shows(a, x.r, cap)
  {
    hide Sendable, TrimmedFields, Trimmed, Bodyless, FinalFields, PassedOn, Flatten, Serialized, RelayDecode, StreamOf;
    hide RelayOutcome;
    LastSent(x);
    var wire := Serialized(x.r, "HTTP/1.1", x.keepAlive, x.date);
    assert wire + "" == wire;
    RelayReadsServer(x.r, x.keepAlive, x.date, "", cap, EOF);
  }

  /** The relayed bytes alone get one answer, the handler's. */
  lemma FirstIsAnswered(req: Request, host: string, up: Config, drain: nat -> bool, p: Progress)
    requires Sound(req) && HostOk(host) && Fits(req, host, up.lim) && Has(req.headers, "Host") && !Halts(drain, p)
    ensures var sent := Sends(req, host, up, drain, p);
      |sent| == 1 && sent[0].r == UpstreamResponse(req, host, up, p.served) && sent[0].date == up.date
  {
    var x := Exchange(RelayBytes(req, host), Relayed(req, host, up.remote));
    RelayReframes(req, host, "", up.lim, EOF, up.remote);
    hide *;
    assert x.wire + "" == x.wire;
    assert Accepted(x, up.lim, up.remote) by { AsAccepted(x, up.lim, up.remote); }
    ServeAccepted(x, "", up, EOF, drain, p);
    ServeHalted("", up, EOF, drain, p.Next());
    AnswerIs(req, host, up, p.served, Keeps(x, up, drain, p));
    SendsIs(req, host, up, drain, p);
  }

  lemma SendsIs(req: Request, host: string, up: Config, drain: nat -> bool, p: Progress)
    ensures Sends(req, host, up, drain, p) == Serve(RelayBytes(req, host), up, EOF, drain, p).sent
  {
    hide Serve, RelayBytes;
  }

  lemma AsAccepted(x: Exchange, lim: Limits, remote: string)
    requires Parse(x.wire, lim, EOF, remote) == Parsed(x.req, |x.wire|)
    ensures Accepted(x, lim, remote)
  {
    hide Parse;
  }

  lemma AnswerIs(req: Request, host: string, up: Config, n: nat, keepAlive: bool)
    ensures var y := ServeConn.Answer(n, Exchange(RelayBytes(req, host), Relayed(req, host, up.remote)), keepAlive, up);
      y.r == UpstreamResponse(req, host, up, n) && y.date == up.date
  {
    hide Handled, RelayBytes, Relayed;
    RelayedVerb(req, host, up.remote);
  }
}

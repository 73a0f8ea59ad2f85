/** A request through the whole proxy: client bytes, relay, upstream server, relay, client response. */
module Proxied {
  import opened Text
  import opened HeaderFields
  import opened RequestWire
  import opened RequestLaws
  import opened Responses
  import opened ResponseLaws
  import opened Decoders
  import opened RelayRequest
  import opened RelayLaws
  import opened RelayAnswerLaws
  import opened ServeConn
  import ProxyHandler

  /** The response the upstream's handler gives to the relayed request, when it is the n-th of its connection. */
  function UpstreamResponse(req: Request, host: string, up: Config, n: nat): Response {
    Handled(up.handler(n, Relayed(req, host, up.remote)), req.verb == "HEAD")
  }

  /** The upstream's loop takes the relayed bytes for one request and answers it first. */
  lemma UpstreamAnswers(req: Request, host: string, up: Config, more: string, end: IoError, drain: nat -> bool, p: Progress)
    returns (keepAlive: bool, rest: seq<ResponseLaws.Sent>)
    requires Sound(req) && HostOk(host) && Fits(req, host, up.lim) && Has(req.headers, "Host") && !Halts(drain, p)
    ensures StreamOf(Serve(RelayBytes(req, host) + more, up, end, drain, p).sent) ==
      Serialized(UpstreamResponse(req, host, up, p.served), "HTTP/1.1", keepAlive, up.date) + StreamOf(rest)
  {
    var x := Exchange(RelayBytes(req, host), Relayed(req, host, up.remote));
    RelayReframes(req, host, "", up.lim, EOF, up.remote);
    hide Parse, Handled, Relayed, RelayBytes, Serve, Serialized, Keeps, Sound, Fits;
    assert x.wire + "" == x.wire;
    assert Accepted(x, up.lim, up.remote);
    ServeAccepted(x, more, up, end, drain, p);
    keepAlive := Keeps(x, up, drain, p);
    RelayedVerb(req, host, up.remote);
    if keepAlive {
      rest := Serve(more, up, end, drain, p.Next()).sent;
      MoreSent(ServeConn.Answer(p.served, x, true, up), rest);
    } else {
      rest := [];
      LastSent(ServeConn.Answer(p.served, x, false, up));
      var wire := Serialized(UpstreamResponse(req, host, up, p.served), "HTTP/1.1", false, up.date);
      assert wire + StreamOf([]) == wire;
    }
  }

  lemma RelayedVerb(req: Request, host: string, remote: string)
    ensures Relayed(req, host, remote).verb == req.verb
  {
  }

  /** What the upstream's handler has to give for its response to be carried unharmed. */
  ghost predicate Carried(r: Response, date: string, cap: int) {
    && Sendable(r, date) && TrimmedFields(r.fields) && Trimmed(date, SPACES)
    && !r.isHead && !Bodyless(r.status) && |r.body| <= cap
  }

  /** End to end: whatever else is on the upstream connection, the relay decodes the upstream handler's own
      response and parks the connection; the client's response then has that status, that body and, of every
      header the handler set except the six withheld, the last value; and the handler was asked what the client had asked. */
  lemma ProxiedEndToEnd(
    s: string, lim: Limits, end: IoError, remote: string, host: string,
    up: Config, more: string, upEnd: IoError, drain: nat -> bool, p: Progress,
    cap: int, relayEnd: IoError, v: Response, key: string)
    returns (out: RelayOut)
    requires Parse(s, lim, end, remote).Parsed? && HostOk(host) && !Halts(drain, p)
    requires var req := Parse(s, lim, end, remote).req;
      && Fits(req, host, up.lim) && Has(req.headers, "Host")
      && Carried(UpstreamResponse(req, host, up, p.served), up.date, cap)
    requires WellFormed(v.fields)
    ensures var req := Parse(s, lim, end, remote).req;
      out == RelayDecode(StreamOf(Serve(RelayBytes(req, host) + more, up, upEnd, drain, p).sent), cap, relayEnd)
    ensures var r := UpstreamResponse(Parse(s, lim, end, remote).req, host, up, p.served);
      && out.Answer? && out.reusable
      && var got := ProxyHandler.AnsweredView(v, false, out);
      && got.status == r.status && got.body == r.body
      && Values(got.fields, key) ==
           var vs := Values(r.fields, key);
           if !Withheld(Canonical(key)) && vs != [] then [vs[|vs| - 1]] else Values(v.fields, key)
    ensures var req, asked := Parse(s, lim, end, remote).req, Relayed(Parse(s, lim, end, remote).req, host, up.remote);
      && asked.verb == req.verb && asked.rawTarget == req.rawTarget && asked.path == req.path
      && asked.query == req.query && asked.body == req.body
      && Values(asked.headers, key) == RelayedValues(req.headers, host, |req.body|, Canonical(key))
  {
    hide *;
    var req := Parse(s, lim, end, remote).req;
    AcceptedIsSound(s, lim, end, remote);
    SoundHeaders(req);
    var r := UpstreamResponse(req, host, up, p.served);
    var keepAlive, rest := UpstreamAnswers(req, host, up, more, upEnd, drain, p);
    out := RelayDecode(StreamOf(Serve(RelayBytes(req, host) + more, up, upEnd, drain, p).sent), cap, relayEnd);
    CarriedParts(r, up.date, cap);
    RelayReadsServer(r, keepAlive, up.date, StreamOf(rest), cap, relayEnd);
    CanonicalIdempotent(key);
    RelayKeepsHeaders(r, keepAlive, up.date, v.fields, Canonical(key));
    AnsweredParts(v, out, key, r.fields);
    RelayedLookup(req.headers, host, |req.body|, Canonical(key));
    RelayedParts(req, host, up.remote, key);
  }

  lemma SoundHeaders(req: Request)
    requires Sound(req)
    ensures WellFormed(req.headers)
  {
  }

  lemma CarriedParts(r: Response, date: string, cap: int)
    requires Carried(r, date, cap)
    ensures Sendable(r, date) && TrimmedFields(r.fields) && Trimmed(date, SPACES)
    ensures !r.isHead && !Bodyless(r.status) && |r.body| <= cap
  {
  }

  lemma AnsweredParts(v: Response, out: RelayOut, key: string, fs: Fields)
    requires out.Answer?
    ensures var got := ProxyHandler.AnsweredView(v, false, out);
      got.status == out.status && got.body == out.body
      && Values(got.fields, key) == ValuesAt(SetAll(v.fields, out.headers), Canonical(key))
    ensures Values(v.fields, key) == ValuesAt(v.fields, Canonical(key)) && Values(fs, key) == ValuesAt(fs, Canonical(key))
  {
    hide SetAll, Canonical, ValuesAt;
  }

  lemma RelayedParts(req: Request, host: string, remote: string, key: string)
    ensures var asked := Relayed(req, host, remote);
      && asked.verb == req.verb && asked.rawTarget == req.rawTarget && asked.path == req.path
      && asked.query == req.query && asked.body == req.body
      && Values(asked.headers, key) == ValuesAt(RelayFields(req.headers, host, |req.body|), Canonical(key))
  {
    hide RelayFields, Canonical, ValuesAt;
  }

  // ----- whole responses of a pipeline -----

  /** Up to n answers read one after another with the relay's decoder: statuses and bodies, and what is left. */
  function DecodeMany(s: string, n: nat, cap: int, end: IoError): Option<(seq<(int, string)>, string)>
    decreases n
  {
    if n == 0 then Some(([], s))
    else
      match RelayDecode(s, cap, end)
      case RelayError => None
      case Answer(status, _, body, used, _) =>
        if used > |s| then None
        else
          match DecodeMany(s[used..], n - 1, cap, end)
          case None => None
          case Some((more, left)) => Some(([(status, body)] + more, left))
  }

  function Contents(xs: seq<ResponseLaws.Sent>): seq<(int, string)> {
    seq(|xs|, i requires 0 <= i < |xs| => (xs[i].r.status, xs[i].r.body))
  }

  /** A stream of responses comes back whole: every status with its body, in order, and what follows them. */
  lemma {:induction false} StreamDecodes(xs: seq<ResponseLaws.Sent>, rest: string, cap: int, end: IoError)
    requires forall x | x in xs :: Carried(x.r, x.date, cap)
    ensures DecodeMany(StreamOf(xs) + rest, |xs|, cap, end) == Some((Contents(xs), rest))
    decreases |xs|
  {
    hide Serialized, RelayDecode, Sendable, TrimmedFields, Trimmed, Bodyless, FinalFields, PassedOn, Flatten;
    if xs == [] {
      assert "" + rest == rest;
    } else {
      var x, more := xs[0], StreamOf(xs[1..]) + rest;
      var wire := Serialized(x.r, "HTTP/1.1", x.keepAlive, x.date);
      assert Carried(x.r, x.date, cap);
      Regroup(wire, StreamOf(xs[1..]), rest);
      RelayReadsServer(x.r, x.keepAlive, x.date, more, cap, end);
      assert (wire + more)[|wire|..] == more;
      StreamDecodes(xs[1..], rest, cap, end);
      assert Contents(xs) == [(x.r.status, x.r.body)] + Contents(xs[1..]);
    }
  }

  /** A client that pipelines requests and decodes what comes back gets, for the first n of them, exactly the
      status and the body that the handler gave to each, in order, with nothing left over. */
  lemma PipelineComesBack(xs: seq<Exchange>, c: Config, end: IoError, drain: nat -> bool, cap: int, clientEnd: IoError)
    requires forall x | x in xs :: Accepted(x, c.lim, c.remote)
    requires forall i :: 0 <= i < |xs| ==>
      xs[i].req.verb != "HEAD" && Carried(Handled(c.handler(i, xs[i].req), false), c.date, cap)
    ensures var sent := Serve(Wires(xs), c, end, drain, START).sent;
      && |sent| <= |xs|
      && (forall i :: 0 <= i < |sent| ==> sent[i].r == Handled(c.handler(i, xs[i].req), false))
      && DecodeMany(StreamOf(sent), |sent|, cap, clientEnd) == Some((Contents(sent), ""))
  {
    hide *;
    PipelineServed(xs, "", c, end, drain, START);
    assert Wires(xs) + "" == Wires(xs);
    ServeHalted("", c, end, drain, Later(START, |xs|));
    ThenNothing(Served([], false));
    AnswersLaw(xs, c, drain, START);
    var sent := Answers(xs, c, drain, START);
    forall i | 0 <= i < |sent|
      ensures sent[i].r == Handled(c.handler(i, xs[i].req), false) && Carried(sent[i].r, sent[i].date, cap)
    {
      StartLaw(i);
      AnswerOf(i, xs[i], Keeps(xs[i], c, drain, Later(START, i)), c);
    }
    StreamDecodes(sent, "", cap, clientEnd);
    assert StreamOf(sent) + "" == StreamOf(sent);
  }
}

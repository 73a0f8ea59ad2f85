/** The relaying handler of proxy/proxy.go: one request, several candidates, all-or-nothing failover. */
module ProxyHandler {
  import opened Text
  import opened HeaderFields
  import opened RequestWire
  import opened Responses
  import opened Decoders
  import opened RelayRequest
  import opened ProxyPick

  /** One upstream connection: whether it takes the request's bytes, and what it answers. */
  datatype Wire = Wire(accepts: bool, stream: string, ending: IoError)

  /** What a relay meets: an idle pooled connection, if there is one, and what dialling gives, if it works. */
  datatype Attempt = Attempt(pooled: Option<Wire>, dialed: Option<Wire>)

  function ExchangeOn(wire: Wire, cap: int): RelayOut {
    if wire.accepts then RelayDecode(wire.stream, cap, wire.ending) else RelayError
  }

  function DialAndExchange(a: Attempt, cap: int): RelayOut {
    match a.dialed
    case None => RelayError
    case Some(wire) => ExchangeOn(wire, cap)
  }

  /** A relay: a stale pooled connection gets one retry on a fresh dial. */
  function RelayOutcome(a: Attempt, cap: int): RelayOut {
    match a.pooled
    case None => DialAndExchange(a, cap)
    case Some(wire) =>
      var out := ExchangeOn(wire, cap);
      if out.Answer? then out else DialAndExchange(a, cap)
  }

  function DialWires(a: Attempt): seq<Wire> {
    if a.dialed.None? then [] else [a.dialed.value]
  }

  /** The connections that a relay writes the request to, in order. */
  function RelayWires(a: Attempt, cap: int): seq<Wire> {
    match a.pooled
    case None => DialWires(a)
    case Some(wire) => [wire] + if ExchangeOn(wire, cap).Answer? then [] else DialWires(a)
  }

  /** The same for the candidates from, from + 1, ... below n, until one answers. */
  function WiresFrom(env: nat -> Attempt, cap: int, n: nat, from: nat): seq<Wire>
    requires from <= n
    decreases n - from
  {
    if from == n then []
    else
      RelayWires(env(from), cap)
      + if RelayOutcome(env(from), cap).Answer? then [] else WiresFrom(env, cap, n, from + 1)
  }

  /** The connections of the first n attempts, one attempt after another. */
  function AllWires(env: nat -> Attempt, cap: int, n: nat): seq<Wire> {
    if n == 0 then [] else AllWires(env, cap, n - 1) + RelayWires(env(n - 1), cap)
  }

  lemma {:induction false} WiresSuffix(env: nat -> Attempt, cap: int, n: nat, from: nat)
    requires from <= n
    ensures var k := FirstFrom(Outcomes(env, cap), n, from);
      AllWires(env, cap, from) + WiresFrom(env, cap, n, from) == AllWires(env, cap, if k < n then k + 1 else n)
    decreases n - from
  {
    hide RelayOutcome, RelayWires;
    if from < n {
      var first, more := RelayWires(env(from), cap), WiresFrom(env, cap, n, from + 1);
      assert AllWires(env, cap, from) + (first + []) == AllWires(env, cap, from) + first;
      if !RelayOutcome(env(from), cap).Answer? {
        WiresSuffix(env, cap, n, from + 1);
        assert AllWires(env, cap, from) + (first + more) == AllWires(env, cap, from) + first + more;
      }
    } else {
      assert AllWires(env, cap, from) + [] == AllWires(env, cap, from);
    }
  }

  /** The request is written to the connections of every attempt up to the first that answers, and to no other. */
  lemma WiresExactly(env: nat -> Attempt, cap: int, n: nat)
    ensures var k := FirstAnswer(Outcomes(env, cap), n);
      WiresFrom(env, cap, n, 0) == AllWires(env, cap, if k < n then k + 1 else n)
  {
    hide Outcomes, FirstFrom;
    WiresSuffix(env, cap, n, 0);
    Starts(Outcomes(env, cap), n);
    assert [] + WiresFrom(env, cap, n, 0) == WiresFrom(env, cap, n, 0);
  }

  /** The client's response once an upstream has answered. */
  function AnsweredView(v: Response, hijacked: bool, out: RelayOut): Response
    requires out.Answer?
  {
    Response(if hijacked then v.status else out.status, SetAll(v.fields, out.headers), out.body, v.isHead)
  }

  method RelayConn(wire: Wire, req: Request, headers: Headers, host: string, cap: int, w: ResponseWriter)
    returns (out: RelayOut, sent: string)
    requires w.Valid() && headers.Valid() && headers.Contents() == req.headers && headers != w.headers
    modifies w, w.headers, w.body
    ensures w.Valid() && (w.body == old(w.body) || fresh(w.body)) && w.hijacked == old(w.hijacked)
    ensures sent == RelayBytes(req, host) && out == ExchangeOn(wire, cap)
    ensures w.View() == if out.Answer? then AnsweredView(old(w.View()), w.hijacked, out) else old(w.View())
    ensures out.RelayError? ==> w.body == old(w.body)
  {
    hide RelayDecode, SetAll, RelayBytes;
    sent := WriteRequest(req, headers, host);
    if !wire.accepts {
      return RelayError, sent;
    }
    var r := new Reader(wire.stream, wire.ending);
    out := ReadAnswer(r, cap, w);
  }

  method Dial(a: Attempt, req: Request, headers: Headers, host: string, cap: int, w: ResponseWriter)
    returns (out: RelayOut, ghost wires: seq<Wire>)
    requires w.Valid() && headers.Valid() && headers.Contents() == req.headers && headers != w.headers
    modifies w, w.headers, w.body
    ensures w.Valid() && (w.body == old(w.body) || fresh(w.body)) && w.hijacked == old(w.hijacked)
    ensures out == DialAndExchange(a, cap) && wires == DialWires(a)
    ensures w.View() == if out.Answer? then AnsweredView(old(w.View()), w.hijacked, out) else old(w.View())
  {
    hide ExchangeOn, AnsweredView;
    if a.dialed.None? {
      return RelayError, [];
    }
    var sent;
    out, sent := RelayConn(a.dialed.value, req, headers, host, cap, w);
    wires := [a.dialed.value];
  }

  method Relay(a: Attempt, req: Request, headers: Headers, host: string, cap: int, w: ResponseWriter)
    returns (out: RelayOut, ghost wires: seq<Wire>)
    requires w.Valid() && headers.Valid() && headers.Contents() == req.headers && headers != w.headers
    modifies w, w.headers, w.body
    ensures w.Valid() && (w.body == old(w.body) || fresh(w.body)) && w.hijacked == old(w.hijacked)
    ensures out == RelayOutcome(a, cap) && wires == RelayWires(a, cap)
    ensures w.View() == if out.Answer? then AnsweredView(old(w.View()), w.hijacked, out) else old(w.View())
  {
    hide ExchangeOn, DialAndExchange, DialWires, AnsweredView;
    wires := [];
    if a.pooled.Some? {
      var sent;
      out, sent := RelayConn(a.pooled.value, req, headers, host, cap, w);
      wires := [a.pooled.value];
      if out.Answer? {
        return;
      }
    }
    ghost var more;
    out, more := Dial(a, req, headers, host, cap, w);
    wires := wires + more;
  }

  /** The first of n outcomes that is an answer, or n. */
  function FirstAnswer(outs: nat -> RelayOut, n: nat): (k: nat)
    ensures k <= n && forall i :: 0 <= i < k ==> outs(i).RelayError?
    ensures k < n ==> outs(k).Answer?
  {
    FirstFrom(outs, n, 0)
  }

  function FirstFrom(outs: nat -> RelayOut, n: nat, from: nat): (k: nat)
    requires from <= n
    ensures from <= k <= n && forall i :: from <= i < k ==> outs(i).RelayError?
    ensures k < n ==> outs(k).Answer?
    decreases n - from
  {
    if from == n || outs(from).Answer? then from else FirstFrom(outs, n, from + 1)
  }

  /** How each candidate's relay would end. */
  function Outcomes(env: nat -> Attempt, cap: int): nat -> RelayOut {
    (i: nat) => RelayOutcome(env(i), cap)
  }

  function Attempts(maxAttempts: int, candidates: nat): nat {
    if maxAttempts < 0 then 0 else if maxAttempts <= candidates then maxAttempts else candidates
  }

  /** How a request ends: a panic in pick, nobody to ask, every attempt failed, or the k-th candidate answered. */
  datatype Verdict = Crashed | NoneHealthy | AllFailed | AnsweredBy(k: nat)

  function VerdictOf(healthy: nat, indexes: bool, outs: nat -> RelayOut, maxAttempts: int): Verdict {
    if healthy == 0 then NoneHealthy
    else if !indexes then Crashed
    else
      var n := Attempts(maxAttempts, healthy);
      var k := FirstAnswer(outs, n);
      if k == n then AllFailed else AnsweredBy(k)
  }

  /** The client's response. */
  function HandledView(
    v: Response, hijacked: bool, addrs: seq<string>, outs: nat -> RelayOut, verdict: Verdict, failText: string): Response
    requires verdict.AnsweredBy? ==> verdict.k < |addrs| && outs(verdict.k).Answer?
  {
    match verdict
    case Crashed => v
    case NoneHealthy => ErrorView(v.(fields := Set(v.fields, "Retry-After", "2")), hijacked, 503, "no healthy upstreams")
    case AllFailed => ErrorView(v, hijacked, 502, failText)
    case AnsweredBy(k) =>
      var answered := AnsweredView(v, hijacked, outs(k));
      answered.(fields := Set(answered.fields, "X-Upstream", addrs[k]))
  }

  /** Which end it is, exactly. */
  ghost predicate Exactly(verdict: Verdict, healthy: nat, indexes: bool, outs: nat -> RelayOut, maxAttempts: int) {
    var n := Attempts(maxAttempts, healthy);
    && (verdict.NoneHealthy? <==> healthy == 0)
    && (verdict.Crashed? <==> healthy > 0 && !indexes)
    && (verdict.AllFailed? <==> healthy > 0 && indexes && forall i :: 0 <= i < n ==> outs(i).RelayError?)
    && forall k: nat :: verdict == AnsweredBy(k) <==>
         indexes && k < n && outs(k).Answer? && forall i :: 0 <= i < k ==> outs(i).RelayError?
  }

  /** All-or-nothing failover: the client gets the answer of the first candidate to give one among the first
      min(MaxAttempts, candidates), 502 exactly when all of those fail, and 503 exactly when there is none. */
  lemma FailoverExactly(healthy: nat, indexes: bool, outs: nat -> RelayOut, maxAttempts: int)
    ensures Exactly(VerdictOf(healthy, indexes, outs, maxAttempts), healthy, indexes, outs, maxAttempts)
  {
    var n := Attempts(maxAttempts, healthy);
    var j, verdict := FirstAnswer(outs, n), VerdictOf(healthy, indexes, outs, maxAttempts);
    forall k: nat
      ensures verdict == AnsweredBy(k) <==>
              indexes && k < n && outs(k).Answer? && forall i :: 0 <= i < k ==> outs(i).RelayError?
    {
      assert k < j ==> outs(k).RelayError?;
      assert j < k && j < n ==> outs(j).Answer?;
    }
  }

  ghost predicate IsFirstAnswer(outs: nat -> RelayOut, k: nat) {
    outs(k).Answer? && forall i :: 0 <= i < k ==> outs(i).RelayError?
  }

  /** And what the client is shown at each end: 503 and Retry-After exactly when nobody is healthy, 502 exactly when
      the first maxAttempts of the candidates fail, else the status and the body of the first answer, under the
      name of the upstream that gave it. */
  lemma FailoverShows(
    v: Response, addrs: seq<string>, outs: nat -> RelayOut, indexes: bool, maxAttempts: int, failText: string)
    requires WellFormed(v.fields)
    ensures addrs == [] ==> var r := HandledView(v, false, addrs, outs, VerdictOf(0, indexes, outs, maxAttempts), failText);
      r.status == 503 && Values(r.fields, "Retry-After") == ["2"]
    ensures addrs != [] && indexes && (forall i: nat :: i < |addrs| && i < maxAttempts ==> outs(i).RelayError?) ==>
      var r := HandledView(v, false, addrs, outs, VerdictOf(|addrs|, indexes, outs, maxAttempts), failText);
      r.status == 502
    ensures forall k: nat :: indexes && k < |addrs| && k < maxAttempts && IsFirstAnswer(outs, k) ==>
      VerdictOf(|addrs|, indexes, outs, maxAttempts) == AnsweredBy(k) &&
      var r := HandledView(v, false, addrs, outs, AnsweredBy(k), failText);
      r.status == outs(k).status && r.body == outs(k).body && Values(r.fields, "X-Upstream") == [addrs[k]]
  {
    hide SetAll, Canonical, FirstAnswer, VerdictOf, ValuesAt, ErrorText, AnsweredView;
    FailoverExactly(|addrs|, indexes, outs, maxAttempts);
    var tagged := Set(v.fields, "Retry-After", "2");
    SetLaw(v.fields, "Retry-After", "2", "Retry-After");
    CanonicalLength("Retry-After");
    CanonicalLength("Content-Type");
    SetLaw(tagged, "Content-Type", "text/plain; charset=utf-8", "Retry-After");
    forall k: nat | indexes && k < |addrs| && outs(k).Answer?
      ensures var r := HandledView(v, false, addrs, outs, AnsweredBy(k), failText);
        r.status == outs(k).status && r.body == outs(k).body && Values(r.fields, "X-Upstream") == [addrs[k]]
    {
      AnswerShows(v, outs(k), addrs[k]);
    }
  }

  lemma AnswerShows(v: Response, out: RelayOut, addr: string)
    requires WellFormed(v.fields) && out.Answer?
    ensures var got := AnsweredView(v, false, out);
      got.status == out.status && got.body == out.body && Values(Set(got.fields, "X-Upstream", addr), "X-Upstream") == [addr]
  {
    hide SetAll, Canonical, ValuesAt;
    SetAllWellFormed(v.fields, out.headers);
    SetLaw(SetAll(v.fields, out.headers), "X-Upstream", addr, "X-Upstream");
  }

  lemma {:induction false} SetAllWellFormed(fs: Fields, hs: seq<Header>)
    requires WellFormed(fs)
    ensures WellFormed(SetAll(fs, hs))
    decreases |hs|
  {
    hide WellFormed, Set;
    if hs != [] {
      SetLaw(fs, hs[0].name, hs[0].value, "");
      SetAllWellFormed(Set(fs, hs[0].name, hs[0].value), hs[1..]);
    }
  }

  ghost function Addrs(us: seq<Upstream>): seq<string> {
    seq(|us|, i requires 0 <= i < |us| => us[i].addr)
  }

  /** One turn of the candidate loop. */
  method TryOne(u: Upstream, a: Attempt, req: Request, headers: Headers, host: string, cap: int, w: ResponseWriter)
    returns (out: RelayOut, ghost wires: seq<Wire>)
    requires w.Valid() && headers.Valid() && headers.Contents() == req.headers && headers != w.headers
    modifies u, w, w.headers, w.body
    ensures w.Valid() && (w.body == old(w.body) || fresh(w.body)) && w.hijacked == old(w.hijacked)
    ensures out == RelayOutcome(a, cap) && wires == RelayWires(a, cap)
    ensures w.View() == if out.Answer? then AnsweredView(old(w.View()), w.hijacked, out) else old(w.View())
    ensures u.active == old(u.active) && u.healthy == (old(u.healthy) && out.Answer?)
  {
    hide RelayOutcome, RelayWires, AnsweredView;
    u.active := u.active + 1;
    out, wires := Relay(a, req, headers, host, cap, w);
    u.active := u.active - 1;
    if out.RelayError? {
      u.healthy := false;
    }
  }

  /** The active count and health of each upstream. */
  ghost function Marks(us: seq<Upstream>): seq<(int, bool)>
    reads us
  {
    seq(|us|, i requires 0 <= i < |us| reads us => (us[i].active, us[i].healthy))
  }

  /** The first k marked unhealthy. */
  ghost function Marked(marks: seq<(int, bool)>, k: nat): seq<(int, bool)> {
    seq(|marks|, i requires 0 <= i < |marks| => (marks[i].0, marks[i].1 && i >= k))
  }

  lemma MarkedNext(marks: seq<(int, bool)>, k: nat)
    requires k < |marks|
    ensures |Marked(marks, k)| == |marks|
    ensures var (active, healthy) := Marked(marks, k)[k];
      && Marked(marks, k)[k := (active, healthy)] == Marked(marks, k)
      && Marked(marks, k)[k := (active, false)] == Marked(marks, k + 1)
  {
  }

  /** The same for candidate k, when those before it have failed and wires is what they were tried on. */
  method TryAt(candidates: seq<Upstream>, k: nat, env: nat -> Attempt, req: Request, headers: Headers, host: string,
    cap: int, w: ResponseWriter, ghost n: nat, ghost marks: seq<(int, bool)>, ghost wires: seq<Wire>)
    returns (out: RelayOut, ghost more: seq<Wire>)
    requires w.Valid() && headers.Valid() && headers.Contents() == req.headers && headers != w.headers
    requires k < n <= |candidates| == |marks| && Apart(candidates) && Marks(candidates) == Marked(marks, k)
    requires WrittenSoFar(env, cap, n, k, wires)
    modifies candidates, w, w.headers, w.body
    ensures w.Valid() && (w.body == old(w.body) || fresh(w.body)) && w.hijacked == old(w.hijacked)
    ensures out == Outcomes(env, cap)(k)
    ensures FirstFrom(Outcomes(env, cap), n, k) == if out.Answer? then k else FirstFrom(Outcomes(env, cap), n, k + 1)
    ensures if out.Answer? then more == WiresFrom(env, cap, n, 0) else WrittenSoFar(env, cap, n, k + 1, more)
    ensures w.View() == if out.Answer? then AnsweredView(old(w.View()), w.hijacked, out) else old(w.View())
    ensures Marks(candidates) == Marked(marks, if out.Answer? then k else k + 1)
  {
    hide RelayOutcome, RelayWires, WiresFrom, AnsweredView, Outcomes, FirstFrom, WrittenSoFar, Agree, Proper, Zip;
    assert (candidates[k].active, candidates[k].healthy) == Marks(candidates)[k];
    MarkedNext(marks, k);
    Advances(env, cap, n, k);
    WiresNext(env, cap, n, k, wires);
    ghost var written;
    out, written := TryOne(candidates[k], env(k), req, headers, host, cap, w);
    more := wires + written;
  }

  /** The candidate loop. Every failed candidate is marked unhealthy and nothing else about the pool changes:
      each active count is back where it was. */
  method TryEach(candidates: seq<Upstream>, env: nat -> Attempt, req: Request, headers: Headers, host: string, cap: int,
    n: nat, w: ResponseWriter) returns (k: nat, ghost wires: seq<Wire>)
    requires w.Valid() && headers.Valid() && headers.Contents() == req.headers && headers != w.headers
    requires n <= |candidates| && Apart(candidates)
    modifies candidates, w, w.headers, w.body
    ensures w.Valid() && (w.body == old(w.body) || fresh(w.body)) && w.hijacked == old(w.hijacked)
    ensures k == FirstAnswer(Outcomes(env, cap), n) && wires == WiresFrom(env, cap, n, 0)
    ensures w.View() == if k < n then AnsweredView(old(w.View()), w.hijacked, Outcomes(env, cap)(k)) else old(w.View())
    ensures Marks(candidates) == Marked(old(Marks(candidates)), k)
  {
    ghost var marks := Marks(candidates);
    assert |marks| == |candidates|;
    hide RelayOutcome, RelayWires, WiresFrom, AnsweredView, Outcomes, FirstFrom, FirstAnswer, Marks, Marked, Apart;
    hide WrittenSoFar, Agree, Proper, Zip;
    k, wires := 0, [];
    Starts(Outcomes(env, cap), n);
    NoWiresYet(env, cap, n);
    MarkedNone(marks);
    while k < n
      invariant k <= n && FirstFrom(Outcomes(env, cap), n, k) == FirstAnswer(Outcomes(env, cap), n)
      invariant w.Valid() && (w.body == old(w.body) || fresh(w.body)) && w.hijacked == old(w.hijacked)
      invariant w.View() == old(w.View())
      invariant Marks(candidates) == Marked(marks, k)
      invariant WrittenSoFar(env, cap, n, k, wires)
    {
      var out;
      out, wires := TryAt(candidates, k, env, req, headers, host, cap, w, n, marks, wires);
      if out.Answer? {
        return;
      }
      k := k + 1;
    }
    AllWritten(env, cap, n, wires);
  }

  ghost predicate WrittenSoFar(env: nat -> Attempt, cap: int, n: nat, k: nat, wires: seq<Wire>) {
    k <= n && wires + WiresFrom(env, cap, n, k) == WiresFrom(env, cap, n, 0)
  }

  lemma NoWiresYet(env: nat -> Attempt, cap: int, n: nat)
    ensures WrittenSoFar(env, cap, n, 0, [])
  {
    hide WiresFrom;
    assert [] + WiresFrom(env, cap, n, 0) == WiresFrom(env, cap, n, 0);
  }

  lemma WiresNext(env: nat -> Attempt, cap: int, n: nat, k: nat, wires: seq<Wire>)
    requires k < n && WrittenSoFar(env, cap, n, k, wires)
    ensures var more := wires + RelayWires(env(k), cap);
      if RelayOutcome(env(k), cap).Answer? then more == WiresFrom(env, cap, n, 0)
      else WrittenSoFar(env, cap, n, k + 1, more)
  {
    hide RelayOutcome, RelayWires;
    assert RelayWires(env(k), cap) + [] == RelayWires(env(k), cap);
    if !RelayOutcome(env(k), cap).Answer? {
      assert wires + (RelayWires(env(k), cap) + WiresFrom(env, cap, n, k + 1)) ==
             wires + RelayWires(env(k), cap) + WiresFrom(env, cap, n, k + 1);
    }
  }

  lemma NoMoreWires(env: nat -> Attempt, cap: int, n: nat)
    ensures WiresFrom(env, cap, n, n) == []
  {
  }

  lemma AllWritten(env: nat -> Attempt, cap: int, n: nat, wires: seq<Wire>)
    requires WrittenSoFar(env, cap, n, n, wires)
    ensures wires == WiresFrom(env, cap, n, 0)
  {
    NoMoreWires(env, cap, n);
    assert wires + [] == wires;
  }

  lemma MarkedNone(marks: seq<(int, bool)>)
    ensures Marked(marks, 0) == marks
  {
  }

  lemma Starts(outs: nat -> RelayOut, n: nat)
    ensures FirstFrom(outs, n, 0) == FirstAnswer(outs, n)
    ensures FirstFrom(outs, n, n) == n
  {
  }

  lemma Advances(env: nat -> Attempt, cap: int, n: nat, k: nat)
    requires k < n
    ensures Outcomes(env, cap)(k) == RelayOutcome(env(k), cap)
    ensures FirstFrom(Outcomes(env, cap), n, k) ==
      if RelayOutcome(env(k), cap).Answer? then k else FirstFrom(Outcomes(env, cap), n, k + 1)
  {
  }

  /** The handler once the candidates are known. */
  method Forward(ordered: seq<Upstream>, env: nat -> Attempt, req: Request, headers: Headers, host: string, cap: int,
    maxAttempts: int, failText: string, w: ResponseWriter) returns (verdict: Verdict, ghost wires: seq<Wire>)
    requires w.Valid() && headers.Valid() && headers.Contents() == req.headers && headers != w.headers
    requires Apart(ordered)
    modifies ordered, w, w.headers, w.body
    ensures w.Valid() && w.hijacked == old(w.hijacked)
    ensures verdict == VerdictOf(|ordered|, true, Outcomes(env, cap), maxAttempts)
    ensures wires == WiresFrom(env, cap, Attempts(maxAttempts, |ordered|), 0)
    ensures w.View() == HandledView(old(w.View()), w.hijacked, Addrs(ordered), Outcomes(env, cap), verdict, failText)
    ensures Marks(ordered) ==
      Marked(old(Marks(ordered)), FirstAnswer(Outcomes(env, cap), Attempts(maxAttempts, |ordered|)))
  {
    hide RelayOutcome, AnsweredView, FirstAnswer, ErrorView, Set, Apart;
    NoMoreWires(env, cap, 0);
    hide WiresFrom;
    if |ordered| == 0 {
      w.headers.SetKey("Retry-After", "2");
      w.Error(503, "no healthy upstreams");
      return NoneHealthy, [];
    }
    hide Marks, Marked;
    var n := Attempts(maxAttempts, |ordered|);
    var k;
    k, wires := TryEach(ordered, env, req, headers, host, cap, n, w);
    if k < n {
      w.headers.SetKey("X-Upstream", ordered[k].addr);
      verdict := AnsweredBy(k);
    } else {
      w.Error(502, failText);
      verdict := AllFailed;
    }
  }

  /** The same, with the marks said upstream by upstream. */
  method ForwardEach(ordered: seq<Upstream>, env: nat -> Attempt, req: Request, headers: Headers, host: string,
    cap: int, maxAttempts: int, failText: string, w: ResponseWriter) returns (verdict: Verdict, ghost wires: seq<Wire>)
    requires w.Valid() && headers.Valid() && headers.Contents() == req.headers && headers != w.headers
    requires Apart(ordered)
    modifies ordered, w, w.headers, w.body
    ensures w.Valid() && w.hijacked == old(w.hijacked)
    ensures verdict == VerdictOf(|ordered|, true, Outcomes(env, cap), maxAttempts)
    ensures wires == WiresFrom(env, cap, Attempts(maxAttempts, |ordered|), 0)
    ensures w.View() == HandledView(old(w.View()), w.hijacked, Addrs(ordered), Outcomes(env, cap), verdict, failText)
    ensures forall u | u in ordered ::
      u.active == old(u.active) && u.healthy == (old(u.healthy) && u !in Tried(ordered, verdict, maxAttempts))
  {
    hide RelayOutcome, FirstAnswer, HandledView, Outcomes, Attempts, VerdictOf, Tried, WiresFrom, Addrs, Agree, Proper, Zip;
    verdict, wires := Forward(ordered, env, req, headers, host, cap, maxAttempts, failText, w);
    TriedFirst(ordered, Outcomes(env, cap), maxAttempts);
    ghost var was, now := old(Marks(ordered)), Marks(ordered);
    assert forall i :: 0 <= i < |ordered| ==>
      was[i] == (old(ordered[i].active), old(ordered[i].healthy)) && now[i] == (ordered[i].active, ordered[i].healthy);
  }

  /** The proxy's handler. What it ends in is exact; a failed attempt leaves no trace but its health mark. */
  method Handle(p: Pool, env: nat -> Attempt, req: Request, headers: Headers, host: string, cap: int,
    maxAttempts: int, failText: string, w: ResponseWriter)
    returns (ghost candidates: seq<Upstream>, verdict: Verdict, ghost wires: seq<Wire>)
    requires p.Valid()
    requires w.Valid() && headers.Valid() && headers.Contents() == req.headers && headers != w.headers
    modifies p, p.ups, w, w.headers, w.body
    ensures p.Valid() && w.Valid() && w.hijacked == old(w.hijacked)
    ensures candidates ==
      if old(p.Snapshot()) == [] || !Indexes(p.strategy, old(p.next), |old(p.Snapshot())|) then []
      else Order(old(p.Snapshot()), old(Loads(p.Snapshot())), p.strategy, old(p.next))
    ensures Exactly(verdict, |old(p.Snapshot())|,
      old(p.Snapshot()) == [] || Indexes(p.strategy, old(p.next), |old(p.Snapshot())|), Outcomes(env, cap), maxAttempts)
    ensures verdict.AnsweredBy? ==> verdict.k < |candidates| && Outcomes(env, cap)(verdict.k).Answer?
    ensures verdict.NoneHealthy? <==> forall u | u in p.ups :: !old(u.healthy)
    ensures !verdict.Crashed? ==> Apart(candidates) && forall u | u in candidates :: u in p.ups
    ensures !verdict.Crashed? ==> forall u | u in p.ups :: u in candidates <==> old(u.healthy)
    ensures w.View() == HandledView(old(w.View()), w.hijacked, Addrs(candidates), Outcomes(env, cap), verdict, failText)
    ensures wires == WiresFrom(env, cap, Attempts(maxAttempts, |candidates|), 0)
    ensures forall u | u in p.ups :: u.active == old(u.active)
    ensures forall u | u in p.ups :: u.healthy == (old(u.healthy) && u !in Tried(candidates, verdict, maxAttempts))
  {
    hide RelayOutcome, FirstAnswer, Order, HandledView, Outcomes, Exactly, Indexes, Attempts, VerdictOf, Tried;
    hide Healthy, Loads, ResponseWriter.View, Addrs, Agree, Proper, Zip;
    VerdictCrashed(|p.Snapshot()|, Outcomes(env, cap), maxAttempts);
    TriedNothing();
    NoAttempts(maxAttempts);
    NoMoreWires(env, cap, 0);
    hide WiresFrom, Apart;
    p.SnapshotIsAlive();
    if p.Snapshot() != [] { p.OrderIsAlive(p.next); }
    ghost var healthy := p.Snapshot();
    ghost var indexes := healthy == [] || Indexes(p.strategy, p.next, |healthy|);
    FailoverExactly(|healthy|, indexes, Outcomes(env, cap), maxAttempts);
    if healthy != [] && indexes { CandidatesKnown(p, p.next); }
    var ordered, crashed := p.Pick();
    candidates := ordered;
    if crashed {
      UntouchedView(w.View(), w.hijacked, Addrs(candidates), Outcomes(env, cap), failText);
      return candidates, Crashed, [];
    }
    assert forall i :: 0 <= i < |ordered| ==> ordered[i] in ordered && ordered[i] in p.ups;
    hide Marks, Marked, Apart;
    verdict, wires := ForwardEach(ordered, env, req, headers, host, cap, maxAttempts, failText, w);
    TriedAmong(candidates, verdict, maxAttempts);
  }

  /** The candidates that were asked and failed. */
  function Tried(candidates: seq<Upstream>, verdict: Verdict, maxAttempts: int): seq<Upstream> {
    match verdict
    case Crashed => []
    case NoneHealthy => []
    case AllFailed => candidates[..Attempts(maxAttempts, |candidates|)]
    case AnsweredBy(k) => if k <= |candidates| then candidates[..k] else []
  }

  lemma TriedAmong(candidates: seq<Upstream>, verdict: Verdict, maxAttempts: int)
    ensures forall u | u in Tried(candidates, verdict, maxAttempts) :: u in candidates
  {
  }

  lemma NoAttempts(maxAttempts: int)
    ensures Attempts(maxAttempts, 0) == 0
  {
  }

  lemma TriedNothing()
    ensures forall candidates, maxAttempts :: Tried(candidates, Crashed, maxAttempts) == []
  {
  }

  lemma VerdictCrashed(healthy: nat, outs: nat -> RelayOut, maxAttempts: int)
    ensures healthy > 0 ==> VerdictOf(healthy, false, outs, maxAttempts) == Crashed
    ensures VerdictOf(0, false, outs, maxAttempts) == VerdictOf(0, true, outs, maxAttempts) == NoneHealthy
    ensures var verdict := VerdictOf(healthy, true, outs, maxAttempts);
      verdict.AnsweredBy? ==> verdict.k < healthy && outs(verdict.k).Answer?
  {
  }

  lemma TriedFirst(candidates: seq<Upstream>, outs: nat -> RelayOut, maxAttempts: int)
    ensures var n := Attempts(maxAttempts, |candidates|);
      FirstAnswer(outs, n) <= |candidates|
      && Tried(candidates, VerdictOf(|candidates|, true, outs, maxAttempts), maxAttempts) == candidates[..FirstAnswer(outs, n)]
  {
  }

  lemma UntouchedView(v: Response, hijacked: bool, addrs: seq<string>, outs: nat -> RelayOut, failText: string)
    ensures HandledView(v, hijacked, addrs, outs, Crashed, failText) == v
  {
  }

  /** Whatever order is picked, it is of upstreams of the pool, each once. */
  lemma CandidatesKnown(p: Pool, ticket: nat)
    requires p.Valid() && p.Snapshot() != [] && Indexes(p.strategy, ticket, |p.Snapshot()|)
    ensures var o := Order(p.Snapshot(), Loads(p.Snapshot()), p.strategy, ticket);
      Apart(o) && |o| == |p.Snapshot()| && forall u | u in o :: u in p.ups
  {
    hide Order;
    var h := p.Snapshot();
    HealthyIn(p.ups, p.Flags());
    HealthyDistinct(p.ups, p.Flags());
    OrderPermutes(h, Loads(h), p.strategy, ticket);
    PermutedApart(h, Order(h, Loads(h), p.strategy, ticket));
  }

  lemma PermutedApart<T>(h: seq<T>, o: seq<T>)
    requires Apart(h) && multiset(o) == multiset(h)
    ensures Apart(o) && |o| == |h| && forall x | x in o :: x in h
  {
    assert |multiset(o)| == |multiset(h)|;
    forall x | x in o ensures x in h {
      assert x in multiset(o);
    }
    forall x ensures multiset(h)[x] <= 1 {
      ApartCounts(h, x);
    }
    forall i, j | 0 <= i < j < |o| ensures o[i] != o[j] {
      if o[i] == o[j] { TwicePresent(o, i, j); }
    }
  }

  lemma {:induction false} ApartCounts<T>(h: seq<T>, x: T)
    requires Apart(h)
    ensures multiset(h)[x] <= 1
  {
    if h != [] {
      assert h == [h[0]] + h[1..];
      ApartCounts(h[1..], x);
      if x == h[0] { assert x !in h[1..]; }
    }
  }

  lemma TwicePresent<T>(o: seq<T>, i: nat, j: nat)
    requires i < j < |o| && o[i] == o[j]
    ensures multiset(o)[o[i]] >= 2
  {
    assert o == o[..i] + [o[i]] + o[i + 1..j] + [o[j]] + o[j + 1..];
  }
}

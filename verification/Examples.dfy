/** Concrete requests, and what becomes of their connection. */
module Examples {
  import opened Text
  import opened HeaderFields
  import HeaderNames
  import opened RequestWire
  import opened RequestLaws
  import opened RelayRequest
  import opened RelayLaws
  import opened Responses
  import ResponseLaws
  import opened ServeConn
  import opened Counterexamples
  import opened ServeLaws
  import Framing

  /** A POST of the root without a body, with these header fields. */
  function Bare(fs: Fields): string {
    "POST / HTTP/1.1" + CRLF + (Block(Flatten(fs)) + CRLF)
  }

  function BareRequest(fs: Fields, remote: string): Request {
    Request("POST", "/", "/", "HTTP/1.1", map[], fs, "", remote)
  }

  const CLOSING := [Field("Host", ["a"]), Field("Connection", ["close"])]
  const PLAIN := [Field("Host", ["a"])]

  lemma Names()
    ensures Canonical("Host") == "Host" && Canonical("Connection") == "Connection"
    ensures Canonical("Content-Length") == "Content-Length" && Canonical("Transfer-Encoding") == "Transfer-Encoding"
  {
    HeaderNames.Known(HeaderNames.Host);
    HeaderNames.Known(HeaderNames.Connection);
    HeaderNames.Known(HeaderNames.ContentLength);
    HeaderNames.Known(HeaderNames.TransferEncoding);
  }

  lemma ClosingFields()
    ensures WellFormed(CLOSING) && Has(CLOSING, "Host")
    ensures !Has(CLOSING, "Content-Length") && !Has(CLOSING, "Transfer-Encoding")
    ensures Values(CLOSING, "Connection") == ["close"] && Values(CLOSING, "Transfer-Encoding") == []
  {
    Names();
    hide Canonical;
    FindIs(CLOSING, "Host", 0);
    FindIs(CLOSING, "Connection", 1);
    FindIs(CLOSING, "Content-Length", 2);
    FindIs(CLOSING, "Transfer-Encoding", 2);
  }

  lemma PlainFields()
    ensures WellFormed(PLAIN) && Has(PLAIN, "Host")
    ensures !Has(PLAIN, "Content-Length") && !Has(PLAIN, "Transfer-Encoding")
    ensures Values(PLAIN, "Connection") == [] && Values(PLAIN, "Transfer-Encoding") == []
  {
    Names();
    hide Canonical;
    FindIs(PLAIN, "Host", 0);
    FindIs(PLAIN, "Connection", 1);
    FindIs(PLAIN, "Content-Length", 1);
    FindIs(PLAIN, "Transfer-Encoding", 1);
  }

  lemma CloseLine()
    ensures var h := Header("Connection", "close"); |h.Text()| == 17 && LineFits(h, 8192)
  {
    hide NameOk, ValueOk;
    NameOkIs("Connection");
    CloseOk();
  }

  lemma CloseOk()
    ensures ValueOk("close")
  {
  }

  lemma Lines()
    ensures Flatten(CLOSING) == [Header("Host", "a"), Header("Connection", "close")] && TextSize(Flatten(CLOSING)) == 24
    ensures Flatten(PLAIN) == [Header("Host", "a")] && TextSize(Flatten(PLAIN)) == 7
    ensures LineFits(Header("Host", "a"), 8192) && LineFits(Header("Connection", "close"), 8192)
  {
    var host, close := Header("Host", "a"), Header("Connection", "close");
    TwoLines(host, close);
    OneLine("Host", "a");
    assert CLOSING == [Field(host.name, [host.value]), Field(close.name, [close.value])];
    assert PLAIN == [Field(host.name, [host.value])];
    assert TextSize([host]) == |host.Text()| by { assert [host][1..] == []; }
    hide *;
    HostLine();
    CloseLine();
  }

  lemma BareAccepted(fs: Fields, remote: string)
    requires WellFormed(fs) && |fs| <= 100 && Has(fs, "Host") && !Has(fs, "Content-Length")
    requires !Has(fs, "Transfer-Encoding") && Values(fs, "Transfer-Encoding") == []
    requires TextSize(Flatten(fs)) <= 65536 && forall h | h in Flatten(fs) :: LineFits(h, 8192)
    ensures Accepted(Exchange(Bare(fs), BareRequest(fs, remote)), DEFAULTS, remote)
  {
    hide *;
    BareHead(fs);
    Framing.AfterHead(Bare(fs), DEFAULTS, EOF, remote, RequestLine("POST", "/", "HTTP/1.1"), fs, |Bare(fs)|);
    NothingAfter(Bare(fs));
    RootTarget();
    NoBody(fs);
    ReadAsBare(fs, remote);
  }

  lemma NothingAfter(s: string)
    ensures s[|s|..] == ""
  {
  }

  lemma ReadAsBare(fs: Fields, remote: string)
    requires Parse(Bare(fs), DEFAULTS, EOF, remote) ==
      Parsed(Request("POST", "/", "/", "HTTP/1.1", map[], fs, "", remote), |Bare(fs)|)
    ensures Accepted(Exchange(Bare(fs), BareRequest(fs, remote)), DEFAULTS, remote)
  {
    hide Parse, Bare;
  }

  lemma NoBody(fs: Fields)
    requires Values(fs, "Transfer-Encoding") == [] && !Has(fs, "Transfer-Encoding") && !Has(fs, "Content-Length")
    ensures ParseBody("", fs, DEFAULTS, EOF) == Body("", 0)
  {
    hide Values, Has, Chunks, Get;
  }

  lemma BareHead(fs: Fields)
    requires WellFormed(fs) && |fs| <= 100 && Has(fs, "Host")
    requires TextSize(Flatten(fs)) <= 65536 && forall h | h in Flatten(fs) :: LineFits(h, 8192)
    ensures Framing.HeadIs(Bare(fs), DEFAULTS, EOF, RequestLine("POST", "/", "HTTP/1.1"), fs, |Bare(fs)|)
  {
    hide Canonical, Flatten, LineFits, WellFormed, LineOf, ParseRequestLine, ParseHeaders, Block, TextSize, Has;
    var s, head := Bare(fs), Block(Flatten(fs)) + CRLF;
    LineIsPost(head);
    assert s[17..] == head && head + "" == head;
    assert fs[..0] == [] && fs[0..] == fs;
    AddAllFlatten(fs, 0);
    BlockBack(Flatten(fs), "", DEFAULTS, EOF, NOTHING);
    assert head == Block(Flatten(fs)) + CRLF + "";
  }

  lemma SaysClose()
    ensures HasToken("close", "close")
  {
    hide ToLower, Split, Trim;
    var value := "close";
    assert ',' !in value && Trimmed(value, SPACES);
    SplitNone(value, ',');
    TrimKeeps(value, SPACES);
    assert Split(value, ',')[0] == value;
  }

  lemma BothAccepted(remote: string)
    ensures Accepted(Exchange(Bare(CLOSING), BareRequest(CLOSING, remote)), DEFAULTS, remote)
    ensures Accepted(Exchange(Bare(PLAIN), BareRequest(PLAIN, remote)), DEFAULTS, remote)
    ensures ContainsToken(CLOSING, "Connection", "close") && !ContainsToken(PLAIN, "Connection", "close")
  {
    ClosingFields();
    PlainFields();
    Lines();
    SaysClose();
    TokenAt(CLOSING, "Connection", "close", 0);
    hide *;
    PlainAsksNothing();
    BareAccepted(CLOSING, remote);
    BareAccepted(PLAIN, remote);
  }

  lemma PlainAsksNothing()
    ensures !ContainsToken(PLAIN, "Connection", "close")
  {
    PlainFields();
    hide Values;
  }

  /** A client that says Connection: close gets one response, labelled close, whatever it sends afterwards. */
  lemma CloseIsHonoured(c: Config, more: string, end: IoError)
    requires c.lim == DEFAULTS && SaneHandler(c)
    ensures var sent := Serve(Bare(CLOSING) + more, c, end, NoDrain, START).sent;
      |sent| == 1 && Values(FinalFields(sent[0].r, sent[0].keepAlive, c.date), "Connection") == ["close"]
  {
    var x := Exchange(Bare(CLOSING), BareRequest(CLOSING, c.remote));
    BothAccepted(c.remote);
    FreshLoop();
    KeepsExactly(x, c, NoDrain, 0);
    hide *;
    ServeAccepted(x, more, c, end, NoDrain, START);
    LabelOf(0, x, false, c);
    AnswerFields(0, x, false, c);
    LabelIsWritten(ServeConn.Answer(0, x, false, c).r, false, c.date);
  }

  lemma FreshLoop()
    ensures !Halts(NoDrain, START) && !Halts(NoDrain, START.Next()) && START == Progress(2 * 0, 0)
    ensures START.Next() == Progress(2 * 1, 1)
  {
  }

  /** One that says nothing is kept alive, and its next request is answered. */
  lemma PlainGoesOn(c: Config, end: IoError)
    requires c.lim == DEFAULTS && SaneHandler(c) && c.maxPerConn == 0
    ensures var sent := Serve(Bare(PLAIN) + Bare(CLOSING), c, end, NoDrain, START).sent;
      && |sent| == 2
      && Values(FinalFields(sent[0].r, sent[0].keepAlive, c.date), "Connection") == ["keep-alive"]
      && Values(FinalFields(sent[1].r, sent[1].keepAlive, c.date), "Connection") == ["close"]
  {
    var x, y := Exchange(Bare(PLAIN), BareRequest(PLAIN, c.remote)), Exchange(Bare(CLOSING), BareRequest(CLOSING, c.remote));
    BothAccepted(c.remote);
    FreshLoop();
    KeepsExactly(x, c, NoDrain, 0);
    KeepsExactly(y, c, NoDrain, 1);
    hide *;
    TwoSent(x, y, c, end);
    LabelWritten(0, x, true, c);
    LabelWritten(1, y, false, c);
  }

  lemma TwoSent(x: Exchange, y: Exchange, c: Config, end: IoError)
    requires Accepted(x, c.lim, c.remote) && Accepted(y, c.lim, c.remote)
    requires Keeps(x, c, NoDrain, START) && !Keeps(y, c, NoDrain, START.Next())
    ensures Serve(x.wire + y.wire, c, end, NoDrain, START).sent ==
      [ServeConn.Answer(0, x, true, c), ServeConn.Answer(1, y, false, c)]
  {
    hide *;
    FreshLoop();
    SecondPlace();
    assert y.wire + "" == y.wire;
    ServeAccepted(x, y.wire, c, end, NoDrain, START);
    ServeAccepted(y, "", c, end, NoDrain, START.Next());
    BehindIs(ServeConn.Answer(0, x, true, c), Serve(y.wire, c, end, NoDrain, START.Next()));
  }

  lemma SecondPlace()
    ensures START.served == 0 && START.Next().served == 1
  {
  }

  lemma BehindIs(first: ResponseLaws.Sent, rest: Served)
    ensures rest.Behind(first).sent == [first] + rest.sent
  {
  }

  lemma LabelWritten(n: nat, x: Exchange, keepAlive: bool, c: Config)
    requires SaneHandler(c)
    ensures var y := ServeConn.Answer(n, x, keepAlive, c);
      Values(FinalFields(y.r, y.keepAlive, c.date), "Connection") == [if keepAlive then "keep-alive" else "close"]
  {
    hide *;
    LabelOf(n, x, keepAlive, c);
    AnswerFields(n, x, keepAlive, c);
    LabelIsWritten(ServeConn.Answer(n, x, keepAlive, c).r, keepAlive, c.date);
  }

  /** One that speaks HTTP/1.0 and says nothing gets one response, labelled close. */
  lemma OldVersionCloses(c: Config, more: string, end: IoError)
    requires c.lim == DEFAULTS && SaneHandler(c)
    ensures var sent := Serve(HOSTLESS + more, c, end, NoDrain, START).sent;
      |sent| == 1 && Values(FinalFields(sent[0].r, sent[0].keepAlive, c.date), "Connection") == ["close"]
  {
    var x := Exchange(HOSTLESS, HostlessRequest(c.remote));
    HostlessAccepted("", EOF, c.remote);
    assert HOSTLESS + "" == HOSTLESS;
    assert Accepted(x, DEFAULTS, c.remote);
    assert Values([], "Connection") == [];
    FreshLoop();
    KeepsExactly(x, c, NoDrain, 0);
    assert !ContainsToken([], "Connection", "keep-alive");
    hide *;
    ServeAccepted(x, more, c, end, NoDrain, START);
    LabelOf(0, x, false, c);
    AnswerFields(0, x, false, c);
    LabelIsWritten(ServeConn.Answer(0, x, false, c).r, false, c.date);
  }
}

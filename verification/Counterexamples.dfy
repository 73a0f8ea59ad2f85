/** Concrete inputs at which the code misses what one would expect of it. */
module Counterexamples {
  import opened Text
  import opened HeaderFields
  import HeaderNames
  import opened RequestWire
  import opened RequestLaws
  import opened RelayRequest
  import opened RelayLaws
  import opened RelayAnswerLaws
  import opened Responses
  import opened ResponseLaws
  import opened Decoders
  import opened ServeConn
  import PanicLaws
  import opened Proxied
  import ProxyHandler
  import ProxyPick
  import Redelivery

  /** The limits the server uses unless it is told otherwise. */
  const DEFAULTS := Limits(8192, 8192, 65536, 100, 1048576)

  // ----- a chunk size that overflows -----

  const LARGEST := "7fffffffffffffff"

  function Largest(n: nat): nat {
    if n == 0 then 7 else Largest(n - 1) * 16 + 15
  }

  lemma LargestChars()
    ensures |LARGEST| == 16 && LARGEST[0] == '7' && forall i :: 1 <= i < 16 ==> LARGEST[i] == 'f'
  {
  }

  lemma DigitsStep(q: nat)
    requires q > 0
    ensures Digits(q * 16 + 15, 16) == Digits(q, 16) + ['f']
  {
    assert (q * 16 + 15) / 16 == q && (q * 16 + 15) % 16 == 15;
  }

  lemma SevenDigit()
    ensures Digits(7, 16) == "7"
  {
  }

  lemma {:induction false} LargestDigits(n: nat)
    requires n < |LARGEST|
    ensures Largest(n) >= 7 && Digits(Largest(n), 16) == LARGEST[..n + 1]
  {
    LargestChars();
    SevenDigit();
    hide Digits;
    var s := LARGEST;
    if n > 0 {
      LargestDigits(n - 1);
      DigitsStep(Largest(n - 1));
      assert s[..n + 1] == s[..n] + [s[n]];
    } else {
      assert s[..1] == [s[0]];
    }
  }

  lemma LargestIs()
    ensures Largest(15) == INT64_LIMIT - 1
  {
    assert Largest(3) == 0x7fff;
    assert Largest(5) == Largest(4) * 16 + 15 && Largest(4) == Largest(3) * 16 + 15;
    assert Largest(7) == Largest(6) * 16 + 15 && Largest(6) == Largest(5) * 16 + 15;
    assert Largest(9) == Largest(8) * 16 + 15 && Largest(8) == Largest(7) * 16 + 15;
    assert Largest(11) == Largest(10) * 16 + 15 && Largest(10) == Largest(9) * 16 + 15;
    assert Largest(13) == Largest(12) * 16 + 15 && Largest(12) == Largest(11) * 16 + 15;
    assert Largest(15) == Largest(14) * 16 + 15 && Largest(14) == Largest(13) * 16 + 15;
  }

  lemma LargestHex()
    ensures Digits(INT64_LIMIT - 1, 16) == LARGEST
  {
    hide Digits, Largest;
    var s := LARGEST;
    LargestIs();
    LargestChars();
    LargestDigits(15);
    assert s[..16] == s;
  }

  /** One byte of data, then a chunk that claims all the bytes an int64 can count. */
  const CLAIM := "1\r\nx\r\n" + LARGEST + "\r\n"

  lemma ClaimPanics(end: IoError)
    ensures Chunks(CLAIM, DEFAULTS, end, "") == BadBody(AllocPanic)
  {
    hide Chunks, Digits, LineOf;
    var cs, head := [Chunk("1" + CRLF, "x")], LARGEST + CRLF;
    OneDigit();
    LargestHex();
    LargestChars();
    HexSizeLine(1, "", DEFAULTS.maxHeaderLine);
    HexSizeLine(INT64_LIMIT - 1, "", DEFAULTS.maxHeaderLine);
    assert "1" + "" + CRLF == "1" + CRLF && LARGEST + "" + CRLF == head;
    assert ChunkWire(cs[1..]) == "" && Payload(cs[1..]) == "";
    assert ChunkWire(cs) == "1" + CRLF + "x" + CRLF && Payload(cs) == "x";
    assert ChunkWire(cs) + head == CLAIM;
    OverflowIsAll(CLAIM, DEFAULTS.maxHeaderLine, DEFAULTS.maxBodyBytes, cs, head, INT64_LIMIT - 1);
    UnallocatablePanics(CLAIM, DEFAULTS, end, cs, head, INT64_LIMIT - 1);
  }

  lemma OneDigit()
    ensures Digits(1, 16) == "1"
  {
  }

  const CHUNKED: Fields := [Field("Host", ["a"]), Field("Transfer-Encoding", ["chunked"])]

  function PanickingRequest(): string {
    "POST / HTTP/1.1" + CRLF + (Block(Flatten(CHUNKED)) + CRLF + CLAIM)
  }

  lemma ChunkedWellFormed()
    ensures WellFormed(CHUNKED) && Find(CHUNKED, "Host") == 0 && Find(CHUNKED, "Transfer-Encoding") == 1
    ensures Canonical("Host") == "Host" && Canonical("Transfer-Encoding") == "Transfer-Encoding"
  {
    HeaderNames.Known(HeaderNames.Host);
    HeaderNames.Known(HeaderNames.TransferEncoding);
    hide Canonical;
    assert |"Host"| == 4 && |"Transfer-Encoding"| == 17;
    FindIs(CHUNKED, "Host", 0);
    FindIs(CHUNKED, "Transfer-Encoding", 1);
  }

  lemma SaysChunked()
    ensures HasToken("chunked", "chunked")
  {
    hide ToLower, Split, Trim;
    var value := "chunked";
    assert ',' !in value && Trimmed(value, SPACES);
    SplitNone(value, ',');
    TrimKeeps(value, SPACES);
    assert Split(value, ',')[0] == value;
  }

  lemma ChunkedLines()
    ensures Flatten(CHUNKED) == [Header("Host", "a"), Header("Transfer-Encoding", "chunked")]
    ensures forall k :: 0 <= k < |Flatten(CHUNKED)| ==> LineFits(Flatten(CHUNKED)[k], 8192)
    ensures TextSize(Flatten(CHUNKED)) <= 65536
  {
    var host, coding := Header("Host", "a"), Header("Transfer-Encoding", "chunked");
    TwoLines(host, coding);
    assert CHUNKED == [Field(host.name, [host.value]), Field(coding.name, [coding.value])];
    hide *;
    HostLine();
    CodingLine();
  }

  lemma HostLine()
    ensures |Header("Host", "a").Text()| == 7 && LineFits(Header("Host", "a"), 8192)
  {
    hide NameOk, ValueOk;
    NameOkIs("Host");
    ShortValuesOk();
  }

  lemma CodingLine()
    ensures var h := Header("Transfer-Encoding", "chunked"); |h.Text()| == 26 && LineFits(h, 8192)
  {
    hide NameOk, ValueOk;
    NameOkIs("Transfer-Encoding");
    ShortValuesOk();
  }

  lemma TwoLines(a: Header, b: Header)
    ensures Flatten([Field(a.name, [a.value]), Field(b.name, [b.value])]) == [a, b]
    ensures TextSize([a, b]) == |a.Text()| + |b.Text()|
  {
    OneLine(a.name, a.value);
    OneLine(b.name, b.value);
    FlattenAppend([Field(a.name, [a.value])], [Field(b.name, [b.value])]);
    assert [Field(a.name, [a.value])] + [Field(b.name, [b.value])] == [Field(a.name, [a.value]), Field(b.name, [b.value])];
    hide Flatten;
    assert [a, b][1..] == [b] && [b][1..] == [];
    assert TextSize([b]) == |b.Text()|;
  }

  lemma ShortValuesOk()
    ensures ValueOk("a") && ValueOk("chunked")
  {
  }

  lemma TokenAt(fs: Fields, key: string, token: string, i: nat)
    requires i < |Values(fs, key)| && HasToken(Values(fs, key)[i], token)
    ensures ContainsToken(fs, key, token)
  {
  }

  lemma ChunkedHeaders(rest: string, end: IoError)
    ensures ParseHeaders(Block(Flatten(CHUNKED)) + CRLF + rest, DEFAULTS, end, NOTHING) ==
            HeaderBlock(CHUNKED, |Block(Flatten(CHUNKED))| + 2)
    ensures Has(CHUNKED, "Host") && ContainsToken(CHUNKED, "Transfer-Encoding", "chunked")
  {
    hide Canonical, Flatten, ParseHeaders, HasToken, LineFits, WellFormed;
    ChunkedWellFormed();
    ChunkedLines();
    SaysChunked();
    assert CHUNKED[..0] == [] && CHUNKED[0..] == CHUNKED;
    AddAllFlatten(CHUNKED, 0);
    BlockBack(Flatten(CHUNKED), rest, DEFAULTS, end, NOTHING);
    var vs := Values(CHUNKED, "Transfer-Encoding");
    assert vs == ["chunked"];
    TokenAt(CHUNKED, "Transfer-Encoding", "chunked", 0);
  }

  /** The request that panics the parser, and with it the connection's goroutine. */
  lemma RequestPanics(c: Config, end: IoError, drain: nat -> bool)
    requires c.lim == DEFAULTS
    ensures Parse(PanickingRequest(), DEFAULTS, end, c.remote) == Faulted(AllocPanic)
    ensures Serve(PanickingRequest(), c, end, drain, START).crashed
  {
    hide Chunks, ParseHeaders, ParseRequestLine, LineOf, Has, ContainsToken, Flatten, Block, Serve;
    var s, head := PanickingRequest(), Block(Flatten(CHUNKED)) + CRLF;
    var rest := head + CLAIM;
    LineIsPost(rest);
    ChunkedHeaders(CLAIM, end);
    ClaimPanics(end);
    assert s[17..] == rest && rest[|head|..] == CLAIM;
    assert !Halts(drain, START);
    PanicLaws.ServeFaulted(s, c, end, drain, START, AllocPanic);
  }

  lemma LineIsPost(rest: string)
    ensures LineOf("POST / HTTP/1.1" + CRLF + rest, 8192) == Line("POST / HTTP/1.1", 17)
    ensures ParseRequestLine("POST / HTTP/1.1") == RequestLine("POST", "/", "HTTP/1.1")
  {
    hide LineOf, ParseRequestLine;
    RequestLineBack("POST", "/");
    assert "POST" + " " + "/" + " HTTP/1.1" == "POST / HTTP/1.1";
    LineOfText("POST / HTTP/1.1", rest, 8192);
  }

  // ----- a request line that never ends -----

  /** The peer closes in the middle of a request line: bytes have arrived, yet it counts as closed between
      requests, and nothing is sent. */
  lemma HalfLineIsClean(c: Config, drain: nat -> bool)
    requires c.lim == DEFAULTS
    ensures Parse("GET / HT", DEFAULTS, EOF, c.remote) == Faulted(CleanClose)
    ensures Serve("GET / HT", c, EOF, drain, START) == Served([], false)
  {
    hide Parse;
    var s := "GET / HT";
    assert |s| == 8 && forall i :: 0 <= i < 8 ==> s[i] != LF;
    PanicLaws.CleanCloseExactly(s, DEFAULTS, EOF, c.remote);
  }

  // ----- a relayed request without Host -----

  const HOSTLESS := "GET / HTTP/1.0" + CRLF + CRLF

  function HostlessRequest(remote: string): Request {
    Request("GET", "/", "/", "HTTP/1.0", map[], [], "", remote)
  }

  /** A client may leave Host out under HTTP/1.0, and the server accepts that. */
  lemma HostlessAccepted(rest: string, end: IoError, remote: string)
    ensures Parse(HOSTLESS + rest, DEFAULTS, end, remote) == Parsed(HostlessRequest(remote), 18)
  {
    hide LineOf, ParseRequestLine, ParseHeaders, Canonical, Decompose;
    var s := HOSTLESS + rest;
    assert s == "GET / HTTP/1.0" + CRLF + (CRLF + rest);
    LineOfText("GET / HTTP/1.0", CRLF + rest, 8192);
    HostlessLine();
    assert s[16..] == CRLF + rest;
    BlankBack(rest, DEFAULTS, end, 0);
    NoHeaders(rest, end);
    RootTarget();
  }

  lemma NoHeaders(rest: string, end: IoError)
    ensures ParseHeaders(CRLF + rest, DEFAULTS, end, NOTHING) == HeaderBlock([], 2)
  {
    hide NextHeader;
    BlankBack(rest, DEFAULTS, end, 0);
  }

  lemma HostlessLine()
    ensures ParseRequestLine("GET / HTTP/1.0") == RequestLine("GET", "/", "HTTP/1.0")
  {
    hide Split;
    var line := "GET" + [' '] + ("/" + [' '] + "HTTP/1.0");
    assert "GET / HTTP/1.0" == line;
    SplitAt("GET", ' ', "/" + [' '] + "HTTP/1.0");
    SplitAt("/", ' ', "HTTP/1.0");
    SplitNone("HTTP/1.0", ' ');
  }

  lemma RootTarget()
    ensures Decompose("/") == Some(("/", map[]))
  {
    var root := "/";
    assert root[1..] == "" && [root[0]] + "" == root;
    assert Unescape(root, false) == Some(root);
    IndexIs(root, '?', 1);
    assert Cut("/", '?') == Cutting("/", "", false);
  }

  lemma HostlessFits(host: string, remote: string)
    requires HostOk(host) && |host| <= 1000
    ensures Fits(HostlessRequest(remote), host, DEFAULTS)
  {
    var req := HostlessRequest(remote);
    var f, l, c := Header("X-Forwarded-For", host), Header("Content-Length", "0"), Header("Connection", "keep-alive");
    var fs := RelayFields(req.headers, host, 0);
    assert Itoa(0) == "0";
    assert fs == [Field(f.name, [host]), Field(l.name, ["0"]), Field(c.name, ["keep-alive"])];
    ThreeLines(f, l, c);
    assert Flatten(fs) == [f, l, c];
    hide Flatten, RelayFields;
    assert |f.Text()| <= 1017 && |l.Text()| == 17 && |c.Text()| == 22;
  }

  lemma ThreeLines(a: Header, b: Header, c: Header)
    ensures Flatten([Field(a.name, [a.value]), Field(b.name, [b.value]), Field(c.name, [c.value])]) == [a, b, c]
    ensures TextSize([a, b, c]) == |a.Text()| + |b.Text()| + |c.Text()|
  {
    var last, fs := [Field(c.name, [c.value])], [Field(b.name, [b.value]), Field(c.name, [c.value])];
    var all := [Field(a.name, [a.value])] + fs;
    OneLine(a.name, a.value);
    OneLine(b.name, b.value);
    OneLine(c.name, c.value);
    FlattenAppend([Field(a.name, [a.value])], fs);
    FlattenAppend([Field(b.name, [b.value])], last);
    assert fs == [Field(b.name, [b.value])] + last;
    assert all == [Field(a.name, [a.value]), Field(b.name, [b.value]), Field(c.name, [c.value])];
    hide Flatten;
    assert [a] + ([b] + [c]) == [a, b, c];
    var two, one := [b, c], [c];
    assert [a, b, c][1..] == two && two[1..] == one && one[1..] == [];
    assert TextSize(one) == |c.Text()| && TextSize(two) == |b.Text()| + |c.Text()|;
  }

  /** Relayed, it becomes an HTTP/1.1 request without Host, which the same parser refuses with 400. */
  lemma HostlessRefused(host: string, rest: string, end: IoError, remote: string, remote': string)
    requires HostOk(host) && |host| <= 1000
    ensures Parse(RelayBytes(HostlessRequest(remote), host) + rest, DEFAULTS, end, remote') == Faulted(Refused(400, NoCause))
  {
    hide Parse, RelayBytes, Fits, Sound;
    HostlessAccepted("", EOF, remote);
    AcceptedIsSound(HOSTLESS + "", DEFAULTS, EOF, remote);
    HostlessFits(host, remote);
    RelayReframes(HostlessRequest(remote), host, rest, DEFAULTS, end, remote');
  }

  // ----- a header with two values -----

  const COOKIES := Response(200, [Field("Set-Cookie", ["a=1", "b=2"])], "", false)

  lemma CookieName()
    ensures Canonical("Set-Cookie") == "Set-Cookie" && PlainName("Set-Cookie")
  {
    hide Canonical, ToLower, IsToken;
    var name, lower := "Set-Cookie", "set-cookie";
    assert forall i :: 0 <= i < |name| ==> IsTokenChar(name[i]);
    assert forall i :: 0 <= i < |name| ==> lower[i] == LowerChar(name[i]);
    assert forall i :: 0 <= i < |name| ==> CapitalAt(name, i) == name[i];
    HeaderNames.KnownName(name, lower);
  }

  /** Of two cookies that an upstream's handler sets, the client gets the second. */
  lemma FirstCookieIsLost(keepAlive: bool, date: string)
    requires PlainValue(date)
    ensures ValuesAt(SetAll([], PassedOn(Flatten(FinalFields(COOKIES, keepAlive, date)))), "Set-Cookie") == ["b=2"]
  {
    CookieName();
    var fs, vs := COOKIES.fields, ["a=1", "b=2"];
    assert Safe(fs) && WellFormed(fs);
    FindIs(fs, "Set-Cookie", 0);
    assert ValuesAt(fs, "Set-Cookie") == vs && vs[|vs| - 1] == "b=2";
    hide Canonical, FinalFields, Flatten, PassedOn, SetAll, Safe, ValuesAt, Withheld, PlainName, PlainValue;
    WithheldNames("Set-Cookie");
    EmptyClean();
    RelayKeepsHeaders(COOKIES, keepAlive, date, [], "Set-Cookie");
  }

  // ----- a POST that is handled twice -----

  const ORDER := Request("POST", "/", "/", "HTTP/1.1", map[], [Field("Host", ["h"])], "x", "")

  /** An upstream server that numbers what it makes; the body of a response is that number. */
  function Shop(): Config {
    Config((n, req) => Reply(201, [], Itoa(n), false, false), DEFAULTS, 0, "", "")
  }

  predicate NoDrain(looks: nat) {
    false
  }

  lemma OrderIsSound()
    ensures Sound(ORDER) && Has(ORDER.headers, "Host")
  {
    RootTarget();
    HeaderNames.Known(HeaderNames.Host);
    hide Canonical, Decompose;
    var name, fs := "Host", ORDER.headers;
    assert ':' !in name && ' ' !in name && '\t' !in name && LF !in name;
    assert NameOk(fs[0].name) && fs[0].values == ["h"] && ValueOk("h");
    FindIs(fs, "Host", 0);
  }

  lemma HostOnly(host: string, size: nat)
    ensures RelayFields(ORDER.headers, host, size) ==
      [Field("Host", ["h"]), Field("X-Forwarded-For", [host]),
       Field("Content-Length", [Itoa(size)]), Field("Connection", ["keep-alive"])]
  {
    var fs := ORDER.headers;
    hide Itoa;
    assert ToLower("Host")[0] == 'h' && |ToLower("Host")| == 4;
    assert !HopByHop("Host") && !IsForwardedFor("Host");
    hide HopByHop, IsForwardedFor;
    assert fs[1..] == [];
    assert Forwarded(fs, host) == fs + Forwarded([], host) == fs;
    assert !HasForwardedFor(fs);
  }

  lemma OrderFits(host: string)
    requires HostOk(host) && |host| <= 1000
    ensures Fits(ORDER, host, DEFAULTS)
  {
    var h, f := Header("Host", "h"), Header("X-Forwarded-For", host);
    var l, c := Header("Content-Length", "1"), Header("Connection", "keep-alive");
    var last := [Field(f.name, [f.value]), Field(l.name, [l.value]), Field(c.name, [c.value])];
    assert Itoa(1) == "1";
    HostOnly(host, 1);
    var fs := RelayFields(ORDER.headers, host, 1);
    assert fs == [Field(h.name, [h.value])] + last;
    ThreeLines(f, l, c);
    OneLine(h.name, h.value);
    FlattenAppend([Field(h.name, [h.value])], last);
    hide Flatten, RelayFields, HostOk, Itoa;
    var lines := [h] + [f, l, c];
    assert Flatten(fs) == lines;
    assert lines[1..] == [f, l, c];
    assert TextSize(lines) == |h.Text()| + TextSize([f, l, c]);
    assert |h.Text()| == 7 && |f.Text()| <= 1017 && |l.Text()| == 17 && |c.Text()| == 22;
  }

  lemma ShopIsCarried(host: string, n: nat)
    ensures UpstreamResponse(ORDER, host, Shop(), n) == Response(201, [], Itoa(n), false)
    ensures Carried(UpstreamResponse(ORDER, host, Shop(), 0), "", 1)
  {
    hide Relayed;
    assert Itoa(0) == "0";
    assert Distinct([]);
  }

  /** A POST whose answer is lost on a pooled connection that had served n requests: the upstream's handler has run
      it as that connection's next request and runs it again as the first of a fresh one, and the client is shown
      only the second outcome. */
  lemma PostHandledTwice(host: string, n: nat)
    requires HostOk(host) && |host| <= 1000
    ensures var first := Redelivery.Sends(ORDER, host, Shop(), NoDrain, Progress(2 * n, n));
      |first| == 1 && first[0].r == Response(201, [], Itoa(n), false)
    ensures var second := Redelivery.Sends(ORDER, host, Shop(), NoDrain, START);
      |second| == 1 && second[0].r == Response(201, [], Itoa(0), false)
    ensures var a := Redelivery.LostAnswer(StreamOf(Redelivery.Sends(ORDER, host, Shop(), NoDrain, START)));
      Redelivery.Deliveries(ProxyHandler.RelayWires(a, 1)) == 2 && Redelivery.Shows(a, Response(201, [], Itoa(0), false), 1)
  {
    OrderIsSound();
    OrderFits(host);
    ShopIsCarried(host, n);
    ShopIsCarried(host, 0);
    assert !Halts(NoDrain, Progress(2 * n, n));
    hide *;
    ShopSettings();
    Redelivery.HandledTwice(ORDER, host, Shop(), NoDrain, Progress(2 * n, n), 1);
  }

  lemma ShopSettings()
    ensures Shop().lim == DEFAULTS && Shop().date == ""
  {
  }

  // ----- a ticket past 2^63 -----

  /** With three healthy upstreams, the request that draws ticket 2^63 indexes the snapshot at -2. */
  lemma TicketPanics()
    ensures ProxyPick.Start(INT64_LIMIT, 3) == -2 && !ProxyPick.Indexes(ProxyPick.RoundRobin, INT64_LIMIT, 3)
  {
  }
}

/** Where an accepted request ends, by its header fields, and which request is refused with which status. */
module Framing {
  import opened Text
  import opened HeaderFields
  import opened RequestWire
  import opened RequestLaws

  /** s starts with a request line and a header block in order, Host included where it is needed; they are k bytes. */
  ghost predicate HeadIs(s: string, lim: Limits, end: IoError, rl: RequestLine, fs: Fields, k: nat) {
    var line := LineOf(s, lim.maxRequestLine);
    && line.Line? && rl.RequestLine? && ParseRequestLine(line.text) == rl && line.used <= k
    && ParseHeaders(s[line.used..], lim, end, NOTHING) == HeaderBlock(fs, k - line.used)
    && (rl.proto == "HTTP/1.1" ==> Has(fs, "Host"))
  }

  lemma HeadInside(s: string, lim: Limits, end: IoError, rl: RequestLine, fs: Fields, k: nat)
    requires HeadIs(s, lim, end, rl, fs, k)
    ensures k <= |s|
  {
    hide LineOf, ParseRequestLine, ParseHeaders, Has;
  }

  /** The body that the header fields fs announce is data, in the first used bytes of s. */
  ghost predicate Framed(s: string, fs: Fields, lim: Limits, data: string, used: nat) {
    if ContainsToken(fs, "Transfer-Encoding", "chunked") then exists c :: Encodes(c, s, lim, data, used)
    else if Has(fs, "Transfer-Encoding") then false
    else if Has(fs, "Content-Length") then
      && Values(fs, "Content-Length") != [] && ParseInt(Values(fs, "Content-Length")[0], 10) == Value(used)
      && used <= lim.maxBodyBytes && used <= MAX_SLICE && used <= |s| && data == s[..used]
    else data == "" && used == 0
  }

  lemma FramedExactly(s: string, fs: Fields, lim: Limits, end: IoError, data: string, used: nat)
    requires 0 <= lim.maxBodyBytes
    ensures ParseBody(s, fs, lim, end) == Body(data, used) <==> Framed(s, fs, lim, data, used)
  {
    LengthIsFirst(fs);
    hide ContainsToken, Has, Get, Values, Chunks, Encodes, ParseInt;
    ChunkedExactly(s, lim, end, data, used);
  }

  lemma LengthIsFirst(fs: Fields)
    ensures var vs := Values(fs, "Content-Length");
      ParseInt(Get(fs, "Content-Length"), 10) == if vs != [] then ParseInt(vs[0], 10) else Syntax
  {
    hide ScanDigits, Values;
  }

  /** The stream's head is k bytes, and the request is what head and body say. */
  ghost predicate AcceptedAt(s: string, lim: Limits, end: IoError, remote: string, req: Request, used: nat, k: nat) {
    && k <= used && k <= |s| && HeadIs(s, lim, end, RequestLine(req.verb, req.rawTarget, req.proto), req.headers, k)
    && Framed(s[k..], req.headers, lim, req.body, used - k)
    && Decompose(req.rawTarget) == Some((req.path, req.query)) && req.remoteAddr == remote
  }

  /** A request is accepted if and only if it has a head in order, a target that can be decoded, and the body that
      the head announces, no byte less and no byte more: a chunked body ends with its coding, a body of announced
      length has that length, every other request has none. */
  lemma AcceptedExactly(s: string, lim: Limits, end: IoError, remote: string, req: Request, used: nat)
    requires 0 <= lim.maxBodyBytes
    ensures Parse(s, lim, end, remote) == Parsed(req, used) <==>
      exists k: nat :: AcceptedAt(s, lim, end, remote, req, used, k)
  {
    hide LineOf, ParseRequestLine, ParseHeaders, ParseBody, Has, Decompose, Framed;
    var rl := RequestLine(req.verb, req.rawTarget, req.proto);
    if k: nat :| AcceptedAt(s, lim, end, remote, req, used, k) {
      FramedExactly(s[k..], req.headers, lim, end, req.body, used - k);
      AfterHead(s, lim, end, remote, rl, req.headers, k);
    }
    if Parse(s, lim, end, remote) == Parsed(req, used) {
      var k := HeadOfParsed(s, lim, end, remote, req, used);
      FramedExactly(s[k..], req.headers, lim, end, req.body, used - k);
      assert AcceptedAt(s, lim, end, remote, req, used, k);
    }
  }

  /** Behind a head in order comes its body. */
  lemma AfterHead(s: string, lim: Limits, end: IoError, remote: string, rl: RequestLine, fs: Fields, k: nat)
    requires HeadIs(s, lim, end, rl, fs, k) && k <= |s|
    ensures Parse(s, lim, end, remote) ==
      match ParseBody(s[k..], fs, lim, end)
      case BadBody(f) => Faulted(f)
      case Body(data, n) =>
        match Decompose(rl.target)
        case None => Faulted(Refused(400, NoCause))
        case Some((path, query)) => Parsed(Request(rl.verb, rl.target, path, rl.proto, query, fs, data, remote), k + n)
  {
    hide LineOf, ParseRequestLine, ParseHeaders, ParseBody, Has, Decompose;
    var n := LineOf(s, lim.maxRequestLine).used;
    assert s[n..][k - n..] == s[k..];
  }

  lemma HeadOfParsed(s: string, lim: Limits, end: IoError, remote: string, req: Request, used: nat) returns (k: nat)
    requires Parse(s, lim, end, remote) == Parsed(req, used)
    ensures k <= used && k <= |s| && HeadIs(s, lim, end, RequestLine(req.verb, req.rawTarget, req.proto), req.headers, k)
    ensures ParseBody(s[k..], req.headers, lim, end) == Body(req.body, used - k)
    ensures Decompose(req.rawTarget) == Some((req.path, req.query)) && req.remoteAddr == remote
  {
    hide LineOf, ParseRequestLine, ParseHeaders, ParseBody, Has, Decompose;
    var n := LineOf(s, lim.maxRequestLine).used;
    k := n + ParseHeaders(s[n..], lim, end, NOTHING).used;
    assert s[n..][k - n..] == s[k..];
  }

  // ----- refusals -----

  /** The first chunk size that does not fit: after complete chunks within the limit comes one that, added in int64,
      exceeds it. */
  ghost predicate Oversized(s: string, lim: Limits, have: nat, cs: seq<Chunk>, head: string, size: nat) {
    && ProperChunks(cs, lim.maxHeaderLine) && IsSizeLine(head, size, lim.maxHeaderLine) && ChunkWire(cs) + head <= s
    && var before := have + |Payload(cs)|;
    before <= lim.maxBodyBytes && before <= MAX_SLICE && size > 0 && Wrap64(before + size) > lim.maxBodyBytes
  }

  lemma OversizedStep(s: string, lim: Limits, end: IoError, have: nat)
    requires NextChunk(s, lim, end, have) == Broke(Refused(413, NoCause))
    ensures LineOf(s, lim.maxHeaderLine).Line?
    ensures var line := LineOf(s, lim.maxHeaderLine);
      ChunkSize(line.text).Value? && var size := ChunkSize(line.text).n;
      size > 0 && Wrap64(have + size) > lim.maxBodyBytes && IsSizeLine(s[..line.used], size, lim.maxHeaderLine)
  {
    hide LineOf, ChunkSize, Wrap64;
    LineAlone(s, lim.maxHeaderLine);
  }

  lemma {:induction false} TrailersNeverOversized(s: string, max: int, end: IoError)
    ensures Trailers(s, max, end) != BadBody(Refused(413, NoCause))
    decreases |s|
  {
    hide LineOf;
    var line := LineOf(s, max);
    if line.Line? && line.text != "" { TrailersNeverOversized(s[line.used..], max, end); }
  }

  lemma {:induction false} OversizedMeans(s: string, lim: Limits, end: IoError, acc: string)
    returns (cs: seq<Chunk>, head: string, size: nat)
    requires |acc| <= lim.maxBodyBytes && |acc| <= MAX_SLICE
    requires Chunks(s, lim, end, acc) == BadBody(Refused(413, NoCause))
    ensures Oversized(s, lim, |acc|, cs, head, size)
    decreases |s|
  {
    hide NextChunk, ChunkSize, LineOf, IsSizeLine, Trailers, Wrap64;
    var step := NextChunk(s, lim, end, |acc|);
    if step.Broke? {
      OversizedStep(s, lim, end, |acc|);
      var line := LineOf(s, lim.maxHeaderLine);
      cs, head, size := [], s[..line.used], ChunkSize(line.text).n;
      assert ChunkWire(cs) + head == head;
    } else if step.Last? {
      TrailersNeverOversized(s[step.used..], lim.maxHeaderLine, end);
      assert false;
    } else {
      var first := ChunkEncode(s, lim, end, |acc|);
      var cs' : seq<Chunk>;
      cs', head, size := OversizedMeans(s[step.used..], lim, end, acc + step.data);
      cs := [first] + cs';
      ConsWire(first, cs', head);
      assert s == s[..step.used] + s[step.used..];
    }
  }

  lemma OversizedRefused(s: string, lim: Limits, end: IoError, cs: seq<Chunk>, head: string, size: nat)
    requires Oversized(s, lim, 0, cs, head, size)
    ensures Chunks(s, lim, end, "") == BadBody(Refused(413, NoCause))
  {
    hide LineOf, Wrap64, NextChunk, IsSizeLine, ProperChunks;
    var rest := s[|ChunkWire(cs) + head|..];
    assert s == ChunkWire(cs) + (head + rest);
    OversizedHead(head, rest, lim, end, |Payload(cs)|, size);
    ChunksDecode(cs, head + rest, lim, end, "");
    assert "" + Payload(cs) == Payload(cs);
  }

  lemma OversizedHead(head: string, rest: string, lim: Limits, end: IoError, have: nat, size: nat)
    requires IsSizeLine(head, size, lim.maxHeaderLine) && size > 0 && Wrap64(have + size) > lim.maxBodyBytes
    ensures NextChunk(head + rest, lim, end, have) == Broke(Refused(413, NoCause))
  {
    LineFirst(head, rest, lim.maxHeaderLine);
    hide LineOf, Wrap64, ChunkSize;
  }

  lemma OversizedExactly(s: string, lim: Limits, end: IoError)
    requires 0 <= lim.maxBodyBytes
    ensures Chunks(s, lim, end, "") == BadBody(Refused(413, NoCause)) <==>
            exists cs, head, size :: Oversized(s, lim, 0, cs, head, size)
  {
    hide Chunks, Oversized;
    if Chunks(s, lim, end, "") == BadBody(Refused(413, NoCause)) {
      var cs, head, size := OversizedMeans(s, lim, end, "");
    }
    if cs, head, size :| Oversized(s, lim, 0, cs, head, size) {
      OversizedRefused(s, lim, end, cs, head, size);
    }
  }

  /** What becomes of a request with a head in order and a body that cannot be had: 501 for a transfer coding other
      than chunked, whatever else it announces; 413 for one beyond the limit; 400 for a length that is no number,
      and for a body that does not arrive. */
  lemma BadBodiesRefused(s: string, lim: Limits, end: IoError, remote: string, rl: RequestLine, fs: Fields, k: nat)
    requires HeadIs(s, lim, end, rl, fs, k) && k <= |s| && 0 <= lim.maxBodyBytes
    ensures var out, num := Parse(s, lim, end, remote), ParseInt(Get(fs, "Content-Length"), 10);
      if ContainsToken(fs, "Transfer-Encoding", "chunked") then
        out == Faulted(Refused(413, NoCause)) <==> exists cs, head, size :: Oversized(s[k..], lim, 0, cs, head, size)
      else if Has(fs, "Transfer-Encoding") then out == Faulted(Refused(501, NoCause))
      else if Has(fs, "Content-Length") then
        && (!num.Value? || num.n < 0 ==> out == Faulted(Refused(400, NoCause)))
        && (num.Value? && num.n > lim.maxBodyBytes <==> out == Faulted(Refused(413, NoCause)))
        && (num.Value? && |s| - k < num.n <= lim.maxBodyBytes && num.n <= MAX_SLICE ==>
              out == Faulted(Refused(400, Io(if end == EOF && k < |s| then UnexpectedEOF else end))))
      else out.Parsed? || Decompose(rl.target).None?
  {
    AfterHead(s, lim, end, remote, rl, fs, k);
    hide HeadIs, Parse, Chunks, ContainsToken, Has, Get, ParseInt, Decompose;
    OversizedExactly(s[k..], lim, end);
  }
}

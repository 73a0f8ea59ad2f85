/** What the request parser guarantees: it consumes exactly one request, so pipelined requests come back one
    by one, and chunked bodies decode to what was encoded. */
module RequestLaws {
  import opened Text
  import opened HeaderFields
  import opened RequestWire

  // ----- exact consumption -----

  /** s and t start with the same n bytes. */
  ghost predicate Shares(s: string, t: string, n: nat) {
    n <= |s| && n <= |t| && s[..n] == t[..n]
  }

  lemma SharesRest(s: string, t: string, n: nat, k: nat)
    requires Shares(s, t, n) && k <= n
    ensures Shares(s, t, k) && Shares(s[k..], t[k..], n - k)
  {
    assert s[..k] == s[..n][..k] && t[..k] == t[..n][..k];
    assert s[k..][..n - k] == s[..n][k..] && t[k..][..n - k] == t[..n][k..];
  }

  lemma {:induction false} TrailersLocal(s: string, t: string, max: int, end: IoError, end': IoError)
    requires Trailers(s, max, end).Body? && Shares(s, t, Trailers(s, max, end).used)
    ensures Trailers(t, max, end') == Trailers(s, max, end)
    decreases |s|
  {
    hide LineOf;
    var line := LineOf(s, max);
    SharesRest(s, t, Trailers(s, max, end).used, line.used);
    LineLocal(s, t, max);
    if line.text != "" {
      TrailersLocal(s[line.used..], t[line.used..], max, end, end');
    }
  }

  lemma ChunkDataLocal(s: string, t: string, size: nat, have: nat, end: IoError, end': IoError)
    requires ChunkData(s, size, have, end).Body? && Shares(s, t, size + 2)
    ensures ChunkData(t, size, have, end') == ChunkData(s, size, have, end)
  {
    assert s[size..size + 2] == s[..size + 2][size..] && t[size..size + 2] == t[..size + 2][size..];
    SharesRest(s, t, size + 2, size);
  }

  lemma NextChunkLocal(s: string, t: string, lim: Limits, end: IoError, end': IoError, have: nat)
    requires !NextChunk(s, lim, end, have).Broke? && Shares(s, t, NextChunk(s, lim, end, have).used)
    ensures NextChunk(t, lim, end', have) == NextChunk(s, lim, end, have)
  {
    hide LineOf, ChunkSize, ChunkData;
    var step, line := NextChunk(s, lim, end, have), LineOf(s, lim.maxHeaderLine);
    SharesRest(s, t, step.used, line.used);
    LineLocal(s, t, lim.maxHeaderLine);
    if step.More? {
      ChunkDataLocal(s[line.used..], t[line.used..], ChunkSize(line.text).n, have, end, end');
    }
  }

  lemma {:induction false} ChunksLocal(s: string, t: string, lim: Limits, end: IoError, end': IoError, acc: string)
    requires Chunks(s, lim, end, acc).Body? && Shares(s, t, Chunks(s, lim, end, acc).used)
    ensures Chunks(t, lim, end', acc) == Chunks(s, lim, end, acc)
    decreases |s|
  {
    hide NextChunk, Trailers;
    var step := NextChunk(s, lim, end, |acc|);
    SharesRest(s, t, Chunks(s, lim, end, acc).used, step.used);
    NextChunkLocal(s, t, lim, end, end', |acc|);
    if step.More? {
      ChunksLocal(s[step.used..], t[step.used..], lim, end, end', acc + step.data);
    } else {
      TrailersLocal(s[step.used..], t[step.used..], lim.maxHeaderLine, end, end');
    }
  }

  lemma BodyLocal(s: string, t: string, fs: Fields, lim: Limits, end: IoError, end': IoError)
    requires ParseBody(s, fs, lim, end).Body? && Shares(s, t, ParseBody(s, fs, lim, end).used)
    ensures ParseBody(t, fs, lim, end') == ParseBody(s, fs, lim, end)
  {
    if ContainsToken(fs, "Transfer-Encoding", "chunked") {
      ChunksLocal(s, t, lim, end, end', "");
    }
  }

  lemma NextHeaderLocal(s: string, t: string, lim: Limits, end: IoError, end': IoError, total: nat)
    requires !NextHeader(s, lim, end, total).Rejected? && Shares(s, t, NextHeader(s, lim, end, total).used)
    ensures NextHeader(t, lim, end', total) == NextHeader(s, lim, end, total)
  {
    hide LineOf, ParseHeaderLine;
    LineLocal(s, t, lim.maxHeaderLine);
  }

  lemma {:induction false} HeadersLocal(s: string, t: string, lim: Limits, end: IoError, end': IoError, got: Collected)
    requires ParseHeaders(s, lim, end, got).HeaderBlock? && Shares(s, t, ParseHeaders(s, lim, end, got).used)
    ensures ParseHeaders(t, lim, end', got) == ParseHeaders(s, lim, end, got)
    decreases |s|
  {
    hide NextHeader, Add;
    var step := NextHeader(s, lim, end, got.total);
    SharesRest(s, t, ParseHeaders(s, lim, end, got).used, step.used);
    NextHeaderLocal(s, t, lim, end, end', got.total);
    if step.Taken? {
      HeadersLocal(s[step.used..], t[step.used..], lim, end, end', got.Take(step.h, step.size));
    }
  }

  /** An accepted request depends on the bytes it consumed and on nothing after them. */
  lemma ParseLocal(s: string, t: string, lim: Limits, end: IoError, end': IoError, remote: string)
    requires Parse(s, lim, end, remote).Parsed? && Shares(s, t, Parse(s, lim, end, remote).used)
    ensures Parse(t, lim, end', remote) == Parse(s, lim, end, remote)
  {
    hide LineOf, ParseRequestLine, ParseHeaders, ParseBody, Has, Decompose;
    var k, line := Parse(s, lim, end, remote).used, LineOf(s, lim.maxRequestLine);
    var n := line.used;
    var block := ParseHeaders(s[n..], lim, end, NOTHING);
    var m := block.used;
    SharesRest(s, t, k, n);
    LineLocal(s, t, lim.maxRequestLine);
    SharesRest(s[n..], t[n..], k - n, m);
    HeadersLocal(s[n..], t[n..], lim, end, end', NOTHING);
    BodyLocal(s[n..][m..], t[n..][m..], block.fs, lim, end, end');
  }

  /** No accepted request is a proper prefix of another stream's accepted request. */
  lemma PrefixFree(s: string, j: nat, lim: Limits, end: IoError, end': IoError, remote: string)
    requires Parse(s, lim, end, remote).Parsed? && j < Parse(s, lim, end, remote).used
    ensures Parse(s[..j], lim, end', remote).Faulted?
  {
    if Parse(s[..j], lim, end', remote).Parsed? {
      ParseLocal(s[..j], s, lim, end', end, remote);
    }
  }

  // ----- pipelining -----

  /** A request and the bytes it was read from. */
  datatype Exchange = Exchange(wire: string, req: Request)

  ghost predicate Accepted(x: Exchange, lim: Limits, remote: string) {
    Parse(x.wire, lim, EOF, remote) == Parsed(x.req, |x.wire|)
  }

  function Wires(xs: seq<Exchange>): string {
    if xs == [] then "" else xs[0].wire + Wires(xs[1..])
  }

  /** Everything one connection's reader yields: the requests, the bytes left, and why it stopped. */
  datatype Session = Session(read: seq<Exchange>, left: string, fault: Fault) {
    function After(xs: seq<Exchange>): Session {
      Session(xs + read, left, fault)
    }
  }

  function ParseAll(s: string, lim: Limits, end: IoError, remote: string): Session
    decreases |s|
  {
    match Parse(s, lim, end, remote)
    case Faulted(f) => Session([], s, f)
    case Parsed(req, k) =>
      ParseAll(s[k..], lim, end, remote).After([Exchange(s[..k], req)])
  }

  lemma AfterAppend(session: Session, a: seq<Exchange>, b: seq<Exchange>)
    ensures session.After(b).After(a) == session.After(a + b)
    ensures session.After([]) == session
  {
    assert a + (b + session.read) == a + b + session.read && [] + session.read == session.read;
  }

  /** Concatenated requests come back as exactly those requests, whatever follows them. */
  lemma {:induction false} Pipelining(xs: seq<Exchange>, tail: string, lim: Limits, end: IoError, remote: string)
    requires forall x | x in xs :: Accepted(x, lim, remote)
    ensures ParseAll(Wires(xs) + tail, lim, end, remote) == ParseAll(tail, lim, end, remote).After(xs)
    decreases |xs|
  {
    hide Parse;
    if xs == [] {
      assert Wires(xs) + tail == tail && xs + ParseAll(tail, lim, end, remote).read == ParseAll(tail, lim, end, remote).read;
    } else {
      var x, more := xs[0], Wires(xs[1..]) + tail;
      assert Wires(xs) + tail == x.wire + more;
      assert Shares(x.wire, x.wire + more, |x.wire|);
      assert Accepted(x, lim, remote);
      ParseLocal(x.wire, x.wire + more, lim, EOF, end, remote);
      assert (x.wire + more)[..|x.wire|] == x.wire && (x.wire + more)[|x.wire|..] == more;
      Pipelining(xs[1..], tail, lim, end, remote);
      assert [x] + xs[1..] == xs;
      AfterAppend(ParseAll(tail, lim, end, remote), [x], xs[1..]);
    }
  }

  /** Conversely no byte is lost or shared: the stream is the requests' own bytes, then the rest. */
  lemma {:induction false} Unpipelining(s: string, lim: Limits, end: IoError, remote: string)
    ensures var all := ParseAll(s, lim, end, remote);
      && s == Wires(all.read) + all.left
      && (forall x | x in all.read :: Accepted(x, lim, remote))
      && Parse(all.left, lim, end, remote) == Faulted(all.fault)
    decreases |s|
  {
    hide Parse, Accepted;
    match Parse(s, lim, end, remote)
    case Faulted(_) =>
    case Parsed(req, k) =>
      var x, next := Exchange(s[..k], req), ParseAll(s[k..], lim, end, remote);
      Unpipelining(s[k..], lim, end, remote);
      AcceptedAlone(s, lim, end, remote);
      assert ([x] + next.read)[1..] == next.read;
      assert s == x.wire + (Wires(next.read) + next.left);
  }

  lemma AcceptedAlone(s: string, lim: Limits, end: IoError, remote: string)
    requires Parse(s, lim, end, remote).Parsed?
    ensures var out := Parse(s, lim, end, remote); Accepted(Exchange(s[..out.used], out.req), lim, remote)
  {
    hide Parse;
    var k := Parse(s, lim, end, remote).used;
    assert s[..k][..k] == s[..k];
    ParseLocal(s, s[..k], lim, end, EOF, remote);
  }

  /** The keep-alive loop's use of one reader, without the handler. */
  method ReadPipeline(r: Reader, lim: Limits, remote: string) returns (reqs: seq<Request>, fault: Fault)
    requires r.Valid()
    modifies r`pos
    ensures r.Valid()
    ensures var all := ParseAll(old(r.Rest()), lim, r.ending, remote);
      fault == all.fault && |reqs| == |all.read| && forall i :: 0 <= i < |reqs| ==> reqs[i] == all.read[i].req
  {
    hide Parse;
    reqs := [];
    ghost var all, done: seq<Exchange> := ParseAll(r.Rest(), lim, r.ending, remote), [];
    AfterAppend(all, [], []);
    while true
      invariant r.Valid() && |done| == |reqs| && forall i :: 0 <= i < |reqs| ==> reqs[i] == done[i].req
      invariant all == ParseAll(r.Rest(), lim, r.ending, remote).After(done)
      decreases |r.Rest()|
    {
      ghost var rest := r.Rest();
      var out := ParseRequest(r, lim, remote);
      match out
      case Faulted(f) =>
        assert all.read == done + [] == done;
        return reqs, f;
      case Parsed(req, k) =>
        AfterAppend(ParseAll(r.Rest(), lim, r.ending, remote), done, [Exchange(rest[..k], req)]);
        reqs := reqs + [req];
        done := done + [Exchange(rest[..k], req)];
    }
  }

  // ----- chunked bodies -----

  /** A chunk as it was sent: its size line with terminator, then its data. */
  datatype Chunk = Chunk(head: string, data: string)
  datatype Coding = Coding(chunks: seq<Chunk>, last: string, trailers: seq<string>, blank: string)

  /** raw is one whole line of at most max bytes and reads as text. */
  ghost predicate IsLine(raw: string, text: string, max: int) {
    LineOf(raw, max) == Line(text, |raw|)
  }

  ghost predicate IsSizeLine(raw: string, size: nat, max: int) {
    LineOf(raw, max).Line? && LineOf(raw, max).used == |raw| && ChunkSize(LineOf(raw, max).text) == Value(size)
  }

  ghost predicate ProperChunks(cs: seq<Chunk>, max: int) {
    forall c | c in cs :: c.data != "" && IsSizeLine(c.head, |c.data|, max)
  }

  ghost predicate ProperTrailers(ts: seq<string>, max: int) {
    forall t | t in ts :: LineOf(t, max).Line? && LineOf(t, max).used == |t| && LineOf(t, max).text != ""
  }

  ghost predicate Proper(c: Coding, max: int) {
    && ProperChunks(c.chunks, max) && IsSizeLine(c.last, 0, max)
    && ProperTrailers(c.trailers, max) && IsLine(c.blank, "", max)
  }

  function Payload(cs: seq<Chunk>): string {
    if cs == [] then "" else cs[0].data + Payload(cs[1..])
  }

  function ChunkWire(cs: seq<Chunk>): string {
    if cs == [] then "" else cs[0].head + cs[0].data + CRLF + ChunkWire(cs[1..])
  }

  function Joined(ts: seq<string>): string {
    if ts == [] then "" else ts[0] + Joined(ts[1..])
  }

  function Encode(c: Coding): string {
    ChunkWire(c.chunks) + c.last + Joined(c.trailers) + c.blank
  }

  lemma TakeSplit(s: string, n: nat, u: nat)
    requires n + u <= |s|
    ensures s[..n + u] == s[..n] + s[n..][..u]
  {
  }

  lemma ConsWire(c: Chunk, cs: seq<Chunk>, rest: string)
    ensures ChunkWire([c] + cs) + rest == c.head + c.data + CRLF + (ChunkWire(cs) + rest)
    ensures |ChunkWire([c] + cs)| == |c.head| + |c.data| + 2 + |ChunkWire(cs)|
    ensures Payload([c] + cs) == c.data + Payload(cs)
  {
    assert ([c] + cs)[1..] == cs;
  }

  lemma ConsEncode(first: Chunk, c: Coding)
    ensures Encode(c.(chunks := [first] + c.chunks)) == first.head + first.data + CRLF + Encode(c)
  {
    ConsWire(first, c.chunks, c.last + Joined(c.trailers) + c.blank);
  }

  lemma LineFirst(raw: string, rest: string, max: int)
    requires LineOf(raw, max).Line? && LineOf(raw, max).used == |raw|
    ensures LineOf(raw + rest, max) == LineOf(raw, max)
  {
    assert raw[..|raw|] == raw == (raw + rest)[..|raw|];
    LineLocal(raw, raw + rest, max);
  }

  lemma {:induction false} TrailersDecode(ts: seq<string>, blank: string, rest: string, max: int, end: IoError)
    requires ProperTrailers(ts, max) && IsLine(blank, "", max)
    ensures Trailers(Joined(ts) + blank + rest, max, end) == Body("", |Joined(ts)| + |blank|)
    decreases |ts|
  {
    hide LineOf;
    var s := Joined(ts) + blank + rest;
    if ts == [] {
      assert s == blank + rest;
      LineFirst(blank, rest, max);
    } else {
      var more := Joined(ts[1..]) + blank + rest;
      assert s == ts[0] + more;
      LineFirst(ts[0], more, max);
      assert s[|ts[0]|..] == more;
      TrailersDecode(ts[1..], blank, rest, max, end);
    }
  }

  lemma ChunkDecode(c: Chunk, rest: string, lim: Limits, end: IoError, have: nat)
    requires c.data != "" && IsSizeLine(c.head, |c.data|, lim.maxHeaderLine)
    requires have + |c.data| <= lim.maxBodyBytes && have + |c.data| <= MAX_SLICE
    ensures NextChunk(c.head + c.data + CRLF + rest, lim, end, have) == More(c.data, |c.head| + |c.data| + 2)
  {
    hide LineOf, ChunkSize;
    var s, after := c.head + c.data + CRLF + rest, c.data + CRLF + rest;
    assert s == c.head + after;
    LineFirst(c.head, after, lim.maxHeaderLine);
    assert s[|c.head|..] == after;
    assert after[..|c.data|] == c.data && after[|c.data|..|c.data| + 2] == CRLF;
  }

  /** The loop takes one encoded chunk off the front. */
  lemma ChunksStep(c: Chunk, more: string, lim: Limits, end: IoError, acc: string)
    requires c.data != "" && IsSizeLine(c.head, |c.data|, lim.maxHeaderLine)
    requires |acc| + |c.data| <= lim.maxBodyBytes && |acc| + |c.data| <= MAX_SLICE
    ensures Chunks(c.head + c.data + CRLF + more, lim, end, acc) ==
            Chunks(more, lim, end, acc + c.data).Shift(|c.head| + |c.data| + 2)
  {
    hide NextChunk, IsSizeLine;
    ChunkDecode(c, more, lim, end, |acc|);
    assert (c.head + c.data + CRLF + more)[|c.head| + |c.data| + 2..] == more;
  }

  lemma {:induction false} ChunksDecode(cs: seq<Chunk>, rest: string, lim: Limits, end: IoError, acc: string)
    requires ProperChunks(cs, lim.maxHeaderLine)
    requires |acc| + |Payload(cs)| <= lim.maxBodyBytes && |acc| + |Payload(cs)| <= MAX_SLICE
    ensures Chunks(ChunkWire(cs) + rest, lim, end, acc) ==
            Chunks(rest, lim, end, acc + Payload(cs)).Shift(|ChunkWire(cs)|)
    decreases |cs|
  {
    if cs == [] {
      assert ChunkWire(cs) + rest == rest && acc + Payload(cs) == acc;
    } else {
      hide NextChunk, IsSizeLine, Chunks, ChunkWire, Payload;
      var c, tail := cs[0], cs[1..];
      assert cs == [c] + tail;
      ConsWire(c, tail, rest);
      ChunksStep(c, ChunkWire(tail) + rest, lim, end, acc);
      ChunksDecode(tail, rest, lim, end, acc + c.data);
      Regroup(acc, c.data, Payload(tail));
    }
  }

  /** Decoding an encoding returns the concatenated data and stops right after the final blank line. */
  lemma ChunkedRoundTrip(c: Coding, rest: string, lim: Limits, end: IoError)
    requires Proper(c, lim.maxHeaderLine)
    requires |Payload(c.chunks)| <= lim.maxBodyBytes && |Payload(c.chunks)| <= MAX_SLICE
    ensures Chunks(Encode(c) + rest, lim, end, "") == Body(Payload(c.chunks), |Encode(c)|)
  {
    hide NextChunk, IsSizeLine, ProperChunks, ProperTrailers, IsLine, Trailers;
    var tail := Joined(c.trailers) + c.blank + rest;
    var after := c.last + tail;
    assert Encode(c) + rest == ChunkWire(c.chunks) + after;
    ChunksDecode(c.chunks, after, lim, end, "");
    assert "" + Payload(c.chunks) == Payload(c.chunks);
    LastStep(c.last, tail, lim, end, |Payload(c.chunks)|);
    assert after[|c.last|..] == tail;
    TrailersDecode(c.trailers, c.blank, rest, lim.maxHeaderLine, end);
  }

  lemma LastStep(last: string, tail: string, lim: Limits, end: IoError, have: nat)
    requires IsSizeLine(last, 0, lim.maxHeaderLine)
    ensures NextChunk(last + tail, lim, end, have) == Last(|last|)
  {
    hide ChunkSize, LineOf;
    LineFirst(last, tail, lim.maxHeaderLine);
  }

  lemma HexPlain(size: nat)
    ensures var hex := Digits(size, 16);
      Trimmed(hex, SPACES) && forall c | c in hex :: c != LF && c != ';' && c != '\r'
  {
    var hex := Digits(size, 16);
    assert forall c | c in hex :: DigitValue(c) < 16;
    assert hex[0] in hex && hex[|hex| - 1] in hex;
  }

  lemma CutExtension(hex: string, ext: string)
    requires ';' !in hex && (ext == "" || ext[0] == ';')
    ensures Cut(hex + ext, ';').before == hex
  {
    if ext == "" {
      assert hex + ext == hex;
      IndexIs(hex, ';', |hex|);
    } else {
      assert hex + ext == hex + [';'] + ext[1..];
      CutAt(hex, ';', ext[1..]);
    }
  }

  /** The usual size line: hexadecimal digits, then possibly extensions. */
  lemma HexSizeLine(size: nat, ext: string, max: int)
    requires size < INT64_LIMIT
    requires ext == "" || (ext[0] == ';' && LF !in ext && ext[|ext| - 1] != '\r')
    requires |Digits(size, 16)| + |ext| + 2 <= max
    ensures IsSizeLine(Digits(size, 16) + ext + CRLF, size, max)
  {
    hide LineOf, Cut, Digits, Trim, ParseInt;
    var hex := Digits(size, 16);
    var line := hex + ext;
    HexPlain(size);
    assert line[|line| - 1] == if ext == "" then hex[|hex| - 1] else ext[|ext| - 1];
    LineOfText(line, "", max);
    assert line + CRLF + "" == line + CRLF;
    CutExtension(hex, ext);
    TrimKeeps(hex, SPACES);
    ParseIntOfDigits(size, 16);
  }

  lemma LineAlone(s: string, max: int)
    requires LineOf(s, max).Line?
    ensures LineOf(s[..LineOf(s, max).used], max) == LineOf(s, max)
  {
    var n := LineOf(s, max).used;
    assert s[..n][..n] == s[..n];
    LineLocal(s, s[..n], max);
  }

  lemma {:induction false} TrailersEncode(s: string, max: int, end: IoError) returns (ts: seq<string>, blank: string)
    requires Trailers(s, max, end).Body?
    ensures ProperTrailers(ts, max) && IsLine(blank, "", max)
    ensures s[..Trailers(s, max, end).used] == Joined(ts) + blank
    decreases |s|
  {
    hide LineOf;
    var line := LineOf(s, max);
    var n := line.used;
    LineAlone(s, max);
    if line.text == "" {
      ts, blank := [], s[..n];
      assert Joined(ts) + blank == blank;
    } else {
      var ts', blank' := TrailersEncode(s[n..], max, end);
      TakeSplit(s, n, Trailers(s[n..], max, end).used);
      ts, blank := [s[..n]] + ts', blank';
      assert ts[1..] == ts';
      assert Joined(ts) + blank == s[..n] + (Joined(ts') + blank);
    }
  }

  /** The chunk a successful step read. */
  lemma ChunkEncode(s: string, lim: Limits, end: IoError, have: nat) returns (c: Chunk)
    requires NextChunk(s, lim, end, have).More?
    ensures c.data == NextChunk(s, lim, end, have).data != "" && IsSizeLine(c.head, |c.data|, lim.maxHeaderLine)
    ensures s[..NextChunk(s, lim, end, have).used] == c.head + c.data + CRLF
  {
    var n := LineOf(s, lim.maxHeaderLine).used;
    LineAlone(s, lim.maxHeaderLine);
    c := Chunk(s[..n], NextChunk(s, lim, end, have).data);
    var m := n + |c.data|;
    assert s[n..][|c.data|..|c.data| + 2] == s[m..m + 2];
    assert s[n..][..|c.data|] == s[n..m];
    assert s[..m + 2] == s[..n] + s[n..m] + s[m..m + 2];
  }

  /** No slice can hold size bytes, or no slice can hold them behind the have bytes already decoded, once all of
      them have arrived. */
  predicate TooLarge(have: nat, size: nat, arrived: nat) {
    size > MAX_SLICE || (size <= arrived && have + size > MAX_SLICE)
  }

  /** The size line behind a step that read no data. */
  lemma SizeLineOf(s: string, lim: Limits, end: IoError, have: nat)
    requires var step := NextChunk(s, lim, end, have); step.Last? || step == Broke(AllocPanic)
    ensures LineOf(s, lim.maxHeaderLine).Line?
    ensures var step, line := NextChunk(s, lim, end, have), LineOf(s, lim.maxHeaderLine);
      if step.Last? then line.used == step.used && IsSizeLine(s[..step.used], 0, lim.maxHeaderLine)
      else
        ChunkSize(line.text).Value? && var size := ChunkSize(line.text).n;
        && size > 0 && Wrap64(have + size) <= lim.maxBodyBytes && TooLarge(have, size, |s| - line.used)
        && IsSizeLine(s[..line.used], size, lim.maxHeaderLine)
  {
    hide LineOf, ChunkSize;
    LineAlone(s, lim.maxHeaderLine);
  }

  lemma LastEncode(s: string, lim: Limits, end: IoError, acc: string) returns (c: Coding)
    requires NextChunk(s, lim, end, |acc|).Last? && Chunks(s, lim, end, acc).Body?
    ensures Proper(c, lim.maxHeaderLine) && c.chunks == []
    ensures s[..Chunks(s, lim, end, acc).used] == Encode(c)
  {
    hide NextChunk, LineOf, IsSizeLine, Trailers;
    var n := NextChunk(s, lim, end, |acc|).used;
    SizeLineOf(s, lim, end, |acc|);
    var ts, blank := TrailersEncode(s[n..], lim.maxHeaderLine, end);
    c := Coding([], s[..n], ts, blank);
    TakeSplit(s, n, Trailers(s[n..], lim.maxHeaderLine, end).used);
    assert Encode(c) == s[..n] + (Joined(ts) + blank);
  }

  lemma NoChunksProper(max: int)
    ensures ProperChunks([], max)
  {
  }

  lemma ConsProper(first: Chunk, cs: seq<Chunk>, max: int)
    requires first.data != "" && IsSizeLine(first.head, |first.data|, max) && ProperChunks(cs, max)
    ensures ProperChunks([first] + cs, max)
  {
    hide IsSizeLine;
  }

  lemma {:induction false} ChunksEncode(s: string, lim: Limits, end: IoError, acc: string) returns (c: Coding)
    requires Chunks(s, lim, end, acc).Body?
    ensures Proper(c, lim.maxHeaderLine)
    ensures s[..Chunks(s, lim, end, acc).used] == Encode(c)
    ensures Chunks(s, lim, end, acc).data == acc + Payload(c.chunks)
    decreases |s|
  {
    hide NextChunk, Encode, IsSizeLine, IsLine, ProperTrailers, ProperChunks, Trailers;
    NoChunksProper(lim.maxHeaderLine);
    var step := NextChunk(s, lim, end, |acc|);
    if step.Last? {
      c := LastEncode(s, lim, end, acc);
      assert acc + Payload([]) == acc;
    } else {
      var n := step.used;
      var first := ChunkEncode(s, lim, end, |acc|);
      var rest := ChunksEncode(s[n..], lim, end, acc + step.data);
      TakeSplit(s, n, Chunks(s[n..], lim, end, acc + step.data).used);
      ConsEncode(first, rest);
      ConsWire(first, rest.chunks, "");
      ConsProper(first, rest.chunks, lim.maxHeaderLine);
      c := rest.(chunks := [first] + rest.chunks);
      assert acc + step.data + Payload(rest.chunks) == acc + Payload(c.chunks);
    }
  }

  lemma {:induction false} ChunksFitSlice(s: string, lim: Limits, end: IoError, acc: string)
    requires |acc| <= MAX_SLICE
    ensures Chunks(s, lim, end, acc).Body? ==> |Chunks(s, lim, end, acc).data| <= MAX_SLICE
    decreases |s|
  {
    hide NextChunk, Trailers;
    var step := NextChunk(s, lim, end, |acc|);
    if step.More? { ChunksFitSlice(s[step.used..], lim, end, acc + step.data); }
  }

  /** c is an encoding that s starts with, of used bytes, for data within the limit. */
  ghost predicate Encodes(c: Coding, s: string, lim: Limits, data: string, used: nat) {
    && Proper(c, lim.maxHeaderLine) && Encode(c) <= s && used == |Encode(c)|
    && data == Payload(c.chunks) && |data| <= lim.maxBodyBytes && |data| <= MAX_SLICE
  }

  /** The decoder accepts exactly the encodings whose data fits the limit, and a slice. */
  lemma ChunkedExactly(s: string, lim: Limits, end: IoError, data: string, used: nat)
    requires 0 <= lim.maxBodyBytes
    ensures Chunks(s, lim, end, "") == Body(data, used) <==> exists c :: Encodes(c, s, lim, data, used)
  {
    hide Chunks, Encodes;
    if Chunks(s, lim, end, "") == Body(data, used) {
      var c := BodyEncodes(s, lim, end);
    }
    if c :| Encodes(c, s, lim, data, used) {
      EncodesBody(c, s, lim, end, data, used);
    }
  }

  lemma BodyEncodes(s: string, lim: Limits, end: IoError) returns (c: Coding)
    requires 0 <= lim.maxBodyBytes && Chunks(s, lim, end, "").Body?
    ensures var out := Chunks(s, lim, end, ""); Encodes(c, s, lim, out.data, out.used)
  {
    var out := Chunks(s, lim, end, "");
    assert out.data == "" || |out.data| <= lim.maxBodyBytes;
    hide Chunks, Proper, Encode;
    ChunksFitSlice(s, lim, end, "");
    c := ChunksEncode(s, lim, end, "");
    assert "" + Payload(c.chunks) == Payload(c.chunks);
  }

  lemma EncodesBody(c: Coding, s: string, lim: Limits, end: IoError, data: string, used: nat)
    requires Encodes(c, s, lim, data, used)
    ensures Chunks(s, lim, end, "") == Body(data, used)
  {
    hide Chunks, Proper, Encode;
    assert s == Encode(c) + s[used..];
    ChunkedRoundTrip(c, s[used..], lim, end);
  }

  // ----- allocations no slice can hold -----

  /** After complete chunks comes a size that passes the limit check, in int64, and that no slice can hold. */
  ghost predicate Unallocatable(s: string, max: int, limit: int, have: nat, cs: seq<Chunk>, head: string, size: nat) {
    && ProperChunks(cs, max) && IsSizeLine(head, size, max) && ChunkWire(cs) + head <= s
    && var before := have + |Payload(cs)|;
    && before <= limit && before <= MAX_SLICE
    && Wrap64(before + size) <= limit && TooLarge(before, size, |s| - |ChunkWire(cs) + head|)
  }

  lemma {:induction false} PanicMeans(s: string, lim: Limits, end: IoError, acc: string)
    returns (cs: seq<Chunk>, head: string, size: nat)
    requires |acc| <= lim.maxBodyBytes && |acc| <= MAX_SLICE
    requires Chunks(s, lim, end, acc) == BadBody(AllocPanic)
    ensures Unallocatable(s, lim.maxHeaderLine, lim.maxBodyBytes, |acc|, cs, head, size)
    decreases |s|
  {
    hide NextChunk, ChunkSize, LineOf, IsSizeLine, Trailers, TooLarge, Wrap64;
    var step := NextChunk(s, lim, end, |acc|);
    if step.Broke? {
      SizeLineOf(s, lim, end, |acc|);
      var line := LineOf(s, lim.maxHeaderLine);
      cs, head, size := [], s[..line.used], ChunkSize(line.text).n;
      assert ChunkWire(cs) + head == head;
    } else if step.Last? {
      TrailersNeverPanic(s[step.used..], lim.maxHeaderLine, end);
      assert false;
    } else {
      var first := ChunkEncode(s, lim, end, |acc|);
      var cs' : seq<Chunk>;
      cs', head, size := PanicMeans(s[step.used..], lim, end, acc + step.data);
      cs := [first] + cs';
      ConsWire(first, cs', head);
      assert s == s[..step.used] + s[step.used..];
    }
  }

  lemma {:induction false} TrailersNeverPanic(s: string, max: int, end: IoError)
    ensures Trailers(s, max, end) != BadBody(AllocPanic)
    decreases |s|
  {
    var line := LineOf(s, max);
    if line.Line? && line.text != "" {
      TrailersNeverPanic(s[line.used..], max, end);
    }
  }

  lemma UnallocatablePanics(s: string, lim: Limits, end: IoError, cs: seq<Chunk>, head: string, size: nat)
    requires Unallocatable(s, lim.maxHeaderLine, lim.maxBodyBytes, 0, cs, head, size)
    ensures Chunks(s, lim, end, "") == BadBody(AllocPanic)
  {
    hide LineOf, Wrap64, NextChunk, TooLarge, IsSizeLine, ProperChunks;
    var rest := s[|ChunkWire(cs) + head|..];
    assert s == ChunkWire(cs) + (head + rest);
    UnallocatableStep(head, rest, lim, end, |Payload(cs)|, size);
    ChunksDecode(cs, head + rest, lim, end, "");
    assert "" + Payload(cs) == Payload(cs);
  }

  lemma UnallocatableStep(head: string, rest: string, lim: Limits, end: IoError, have: nat, size: nat)
    requires IsSizeLine(head, size, lim.maxHeaderLine) && have <= MAX_SLICE
    requires Wrap64(have + size) <= lim.maxBodyBytes && TooLarge(have, size, |rest|)
    ensures NextChunk(head + rest, lim, end, have) == Broke(AllocPanic)
  {
    LineFirst(head, rest, lim.maxHeaderLine);
    hide LineOf, Wrap64, ChunkSize;
    assert (head + rest)[|head|..] == rest;
  }

  lemma SizeBound(text: string)
    requires ChunkSize(text).Value?
    ensures -INT64_LIMIT <= ChunkSize(text).n < INT64_LIMIT
  {
    hide ScanDigits, TrimSpace, Cut;
  }

  /** For every limit: the decoder panics if and only if, after complete chunks, a size passes the limit check
      that no slice can hold. */
  lemma PanicExactly(s: string, lim: Limits, end: IoError)
    requires 0 <= lim.maxBodyBytes
    ensures Chunks(s, lim, end, "") == BadBody(AllocPanic) <==>
            exists cs, head, size :: Unallocatable(s, lim.maxHeaderLine, lim.maxBodyBytes, 0, cs, head, size)
  {
    hide Chunks, Unallocatable;
    if Chunks(s, lim, end, "") == BadBody(AllocPanic) {
      var cs, head, size := PanicMeans(s, lim, end, "");
    }
    if cs, head, size :| Unallocatable(s, lim.maxHeaderLine, lim.maxBodyBytes, 0, cs, head, size) {
      UnallocatablePanics(s, lim, end, cs, head, size);
    }
  }

  /** After complete chunks within the limit comes a size that cannot be added in an int64. */
  ghost predicate Overflows(s: string, max: int, limit: int, cs: seq<Chunk>, head: string, size: nat) {
    && ProperChunks(cs, max) && IsSizeLine(head, size, max) && ChunkWire(cs) + head <= s
    && |Payload(cs)| <= limit && |Payload(cs)| + size >= INT64_LIMIT
  }

  lemma OverflowIsAll(s: string, max: int, limit: int, cs: seq<Chunk>, head: string, size: nat)
    requires 0 <= limit <= MAX_SLICE
    ensures Unallocatable(s, max, limit, 0, cs, head, size) <==> Overflows(s, max, limit, cs, head, size)
  {
    hide LineOf, ChunkSize, ProperChunks, ChunkWire, Payload;
    if IsSizeLine(head, size, max) {
      SizeBound(LineOf(head, max).text);
    }
  }

  /** For a limit that a slice can hold, the check guards every allocation but one: a size that overflows the sum
      gets past it, and that is the only way the decoder panics. */
  lemma OverflowExactly(s: string, lim: Limits, end: IoError)
    requires 0 <= lim.maxBodyBytes <= MAX_SLICE
    ensures Chunks(s, lim, end, "") == BadBody(AllocPanic) <==>
            exists cs, head, size :: Overflows(s, lim.maxHeaderLine, lim.maxBodyBytes, cs, head, size)
  {
    hide Chunks, Unallocatable, Overflows;
    PanicExactly(s, lim, end);
    forall cs, head, size: nat
      ensures Unallocatable(s, lim.maxHeaderLine, lim.maxBodyBytes, 0, cs, head, size) <==>
              Overflows(s, lim.maxHeaderLine, lim.maxBodyBytes, cs, head, size)
    {
      OverflowIsAll(s, lim.maxHeaderLine, lim.maxBodyBytes, cs, head, size);
    }
  }
}

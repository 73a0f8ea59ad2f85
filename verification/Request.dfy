/** The bounded request parser of httpcore/request.go: what it makes of a byte stream, and the reading loops
    that do it. */
module RequestWire {
  import opened Text
  import opened HeaderFields

  datatype Limits = Limits(
    maxRequestLine: int, maxHeaderLine: int, maxHeaderBytes: int, maxHeaderCount: int, maxBodyBytes: int)

  /** The largest byte slice the run time allocates on a 64-bit machine; asking for more panics. */
  const MAX_SLICE := 0x1_0000_0000_0000

  // How a read past the last byte ends.
  datatype IoError = EOF | UnexpectedEOF | Timeout | Broken
  datatype Cause = NoCause | LineTooLong | Io(e: IoError)

  /** CleanClose is errCleanClose; AllocPanic is the run-time panic of an allocation no slice can hold. */
  datatype Fault = CleanClose | Refused(status: int, cause: Cause) | AllocPanic

  datatype Request = Request(
    verb: string, rawTarget: string, path: string, proto: string, query: Query,
    headers: Fields, body: string, remoteAddr: string)

  datatype ParseOut = Parsed(req: Request, used: nat) | Faulted(fault: Fault)

  // ----- lines -----

  datatype LineOut = Line(text: string, used: nat) | TooLong | Ended

  function TrimSuffix(s: string, c: char): string {
    if s != "" && s[|s| - 1] == c then s[..|s| - 1] else s
  }

  function StripEol(line: string): string {
    TrimSuffix(TrimSuffix(line, LF), '\r')
  }

  /** The outcome of reading one line of at most max bytes, terminator included, off the stream s. */
  function LineOf(s: string, max: int): (out: LineOut)
    ensures out.Line? ==> 0 < out.used <= |s| && out.used <= max && |out.text| < out.used
  {
    LineFrom(s, max, 0)
  }

  /** The same once i bytes without LF have been seen. */
  function LineFrom(s: string, max: int, i: nat): (out: LineOut)
    requires i <= |s|
    ensures out.Line? ==> i < out.used <= |s| && out.used <= max && |out.text| < out.used
    decreases |s| - i
  {
    if i > max then TooLong
    else if i == |s| then Ended
    else if s[i] != LF then LineFrom(s, max, i + 1)
    else if i + 1 > max then TooLong
    else Line(StripEol(s[..i + 1]), i + 1)
  }

  lemma {:induction false} LineFromLocal(s: string, t: string, max: int, i: nat)
    requires i <= |s| && i <= |t| && LineFrom(s, max, i).Line?
    requires LineFrom(s, max, i).used <= |t| && t[..LineFrom(s, max, i).used] == s[..LineFrom(s, max, i).used]
    ensures LineFrom(t, max, i) == LineFrom(s, max, i)
    decreases |s| - i
  {
    var n := LineFrom(s, max, i).used;
    assert s[i] == s[..n][i] == t[..n][i] == t[i];
    if s[i] != LF { LineFromLocal(s, t, max, i + 1); }
  }

  lemma LineLocal(s: string, t: string, max: int)
    requires LineOf(s, max).Line?
    requires LineOf(s, max).used <= |t| && t[..LineOf(s, max).used] == s[..LineOf(s, max).used]
    ensures LineOf(t, max) == LineOf(s, max)
  {
    LineFromLocal(s, t, max, 0);
  }

  lemma {:induction false} LineUpTo(s: string, max: int, i: nat, n: nat)
    requires i <= n <= |s| && LF !in s[i..n]
    ensures if n > max then LineFrom(s, max, i) == TooLong else LineFrom(s, max, i) == LineFrom(s, max, n)
    decreases n - i
  {
    if i < n {
      assert s[i..n][0] == s[i] && s[i..n][1..] == s[i + 1..n];
      LineUpTo(s, max, i + 1, n);
    }
  }

  /** buf is the part of s up to its first LF. */
  lemma LineFound(s: string, buf: string, max: int)
    requires buf <= s && buf != "" && buf[|buf| - 1] == LF && LF !in buf[..|buf| - 1]
    ensures LineOf(s, max) == if |buf| > max then TooLong else Line(StripEol(buf), |buf|)
  {
    assert s[0..|buf| - 1] == buf[..|buf| - 1];
    LineUpTo(s, max, 0, |buf| - 1);
    assert s[..|buf|] == buf;
  }

  /** buf is a part of s with no LF in it. */
  lemma LineOpen(s: string, buf: string, max: int)
    requires buf <= s && LF !in buf
    ensures |buf| > max ==> LineOf(s, max) == TooLong
    ensures |buf| <= max && buf == s ==> LineOf(s, max) == Ended
  {
    assert s[0..|buf|] == buf;
    LineUpTo(s, max, 0, |buf|);
  }

  /** A text without LF and without a final CR is what a line of it, ended by CRLF, reads back as. */
  lemma LineOfText(text: string, rest: string, max: int)
    requires LF !in text && (text != "" ==> text[|text| - 1] != '\r')
    requires |text| + 2 <= max
    ensures LineOf(text + CRLF + rest, max) == Line(text, |text| + 2)
  {
    var buf := text + CRLF;
    assert buf[..|buf| - 1] == text + "\r";
    LineFound(buf + rest, buf, max);
    assert TrimSuffix(buf, LF) == text + "\r";
    assert TrimSuffix(text + "\r", '\r') == text;
  }

  /** What any line is read as: the bytes before its LF, without one CR if the last of them is one. */
  lemma LineOfAny(text: string, rest: string, max: int)
    requires LF !in text
    ensures LineOf(text + [LF] + rest, max) ==
      if |text| + 1 > max then TooLong
      else Line(if text != "" && text[|text| - 1] == '\r' then text[..|text| - 1] else text, |text| + 1)
  {
    var buf := text + [LF];
    assert buf[..|buf| - 1] == text;
    LineFound(buf + rest, buf, max);
    assert TrimSuffix(buf, LF) == text;
  }

  // ----- request line -----

  predicate KnownMethod(m: string) {
    m == "GET" || m == "HEAD" || m == "POST" || m == "PUT" || m == "DELETE" || m == "PATCH" || m == "OPTIONS"
  }

  datatype RequestLine = RequestLine(verb: string, target: string, proto: string) | BadLine(status: int)

  function ParseRequestLine(line: string): RequestLine {
    var parts := Split(line, ' ');
    if |parts| != 3 then BadLine(400)
    else
      var verb, target, proto := parts[0], parts[1], parts[2];
      if !KnownMethod(verb) then
        if verb != ToUpper(verb) || verb == "" then BadLine(400) else BadLine(501)
      else if proto != "HTTP/1.1" && proto != "HTTP/1.0" then BadLine(505)
      else if !("/" <= target) then BadLine(400)
      else RequestLine(verb, target, proto)
  }

  /** Path and query of a target. */
  function Decompose(target: string): Option<(string, Query)> {
    var cut := Cut(target, '?');
    match (Unescape(cut.before, false), ParseQuery(cut.after, map[]))
    case (Some(path), Some(query)) => Some((path, query))
    case _ => None
  }

  // ----- header block -----

  datatype HeadersOut = HeaderBlock(fs: Fields, used: nat) | BadHeaders(fault: Fault) {
    function Shift(n: nat): HeadersOut {
      match this
      case HeaderBlock(fs, used) => HeaderBlock(fs, used + n)
      case BadHeaders(_) => this
    }
  }

  /** The header line split at its first colon, or None when malformed. */
  function ParseHeaderLine(text: string): Option<Header> {
    var cut := Cut(text, ':');
    if !cut.found || cut.before == "" || ' ' in cut.before || '\t' in cut.before then None
    else Some(Header(cut.before, TrimSpace(cut.after)))
  }

  datatype HeaderStep = Blank(used: nat) | Taken(h: Header, size: nat, used: nat) | Rejected(fault: Fault)

  /** One header line, when total bytes of header lines came before it. */
  function NextHeader(s: string, lim: Limits, end: IoError, total: nat): (out: HeaderStep)
    ensures !out.Rejected? ==> 0 < out.used <= |s|
  {
    match LineOf(s, lim.maxHeaderLine)
    case TooLong => Rejected(Refused(431, NoCause))
    case Ended => Rejected(Refused(400, Io(end)))
    case Line(text, n) =>
      if text == "" then Blank(n)
      else if total + |text| > lim.maxHeaderBytes then Rejected(Refused(431, NoCause))
      else
        match ParseHeaderLine(text)
        case None => Rejected(Refused(400, NoCause))
        case Some(h) => Taken(h, |text|, n)
  }

  /** What the header loop has collected: the fields, and the bytes of the lines they came from. */
  datatype Collected = Collected(fs: Fields, total: nat) {
    function Take(h: Header, size: nat): Collected {
      Collected(Add(fs, h.name, h.value), total + size)
    }
  }

  const NOTHING := Collected([], 0)

  function ParseHeaders(s: string, lim: Limits, end: IoError, got: Collected): (out: HeadersOut)
    ensures out.HeaderBlock? ==> out.used <= |s|
    decreases |s|
  {
    match NextHeader(s, lim, end, got.total)
    case Rejected(f) => BadHeaders(f)
    case Blank(n) => HeaderBlock(got.fs, n)
    case Taken(h, size, n) =>
      var next := got.Take(h, size);
      if |next.fs| > lim.maxHeaderCount then BadHeaders(Refused(431, NoCause))
      else ParseHeaders(s[n..], lim, end, next).Shift(n)
  }

  // ----- body -----

  datatype BodyOut = Body(data: string, used: nat) | BadBody(fault: Fault) {
    function Shift(n: nat): BodyOut {
      match this
      case Body(data, used) => Body(data, used + n)
      case BadBody(_) => this
    }
  }

  /** io.ReadFull's error when avail bytes are left of a longer read. */
  function ShortRead(avail: nat, end: IoError): IoError {
    if end == EOF && avail > 0 then UnexpectedEOF else end
  }

  /** Addition in int64. */
  function Wrap64(n: int): int {
    (n + INT64_LIMIT) % UINT64_LIMIT - INT64_LIMIT
  }

  /** Trailer lines up to and including the blank one; the data is always empty. */
  function Trailers(s: string, max: int, end: IoError): (out: BodyOut)
    ensures out.Body? ==> out.used <= |s|
    decreases |s|
  {
    match LineOf(s, max)
    case TooLong => BadBody(Refused(400, LineTooLong))
    case Ended => BadBody(Refused(400, Io(end)))
    case Line(text, n) => if text == "" then Body("", n) else Trailers(s[n..], max, end).Shift(n)
  }

  function ChunkSize(line: string): Num {
    ParseInt(TrimSpace(Cut(line, ';').before), 16)
  }

  /** The data of one chunk, appended to the have bytes before it, and the CRLF after it. */
  function ChunkData(s: string, size: nat, have: nat, end: IoError): (out: BodyOut)
    ensures out.Body? ==> |out.data| == size && out.used == size + 2 <= |s| && have + size <= MAX_SLICE
  {
    if |s| < size then BadBody(Refused(400, Io(ShortRead(|s|, end))))
    else if have + size > MAX_SLICE then BadBody(AllocPanic)
    else if |s| - size < 2 || s[size..size + 2] != CRLF then BadBody(Refused(400, NoCause))
    else Body(s[..size], size + 2)
  }

  datatype ChunkStep = Last(used: nat) | More(data: string, used: nat) | Broke(fault: Fault)

  /** One chunk, when have bytes were decoded before it. */
  function NextChunk(s: string, lim: Limits, end: IoError, have: nat): (out: ChunkStep)
    ensures !out.Broke? ==> 0 < out.used <= |s|
    ensures out.More? ==> out.data != "" && have + |out.data| <= lim.maxBodyBytes && have + |out.data| <= MAX_SLICE
  {
    match LineOf(s, lim.maxHeaderLine)
    case TooLong => Broke(Refused(400, LineTooLong))
    case Ended => Broke(Refused(400, Io(end)))
    case Line(text, n) =>
      var size := ChunkSize(text);
      if !size.Value? || size.n < 0 then Broke(Refused(400, NoCause))
      else if size.n == 0 then Last(n)
      else if Wrap64(have + size.n) > lim.maxBodyBytes then Broke(Refused(413, NoCause))
      else if size.n > MAX_SLICE then Broke(AllocPanic)
      else
        match ChunkData(s[n..], size.n, have, end)
        case BadBody(f) => Broke(f)
        case Body(data, k) => More(data, n + k)
  }

  /** The chunk loop, from the data already decoded. */
  function Chunks(s: string, lim: Limits, end: IoError, acc: string): (out: BodyOut)
    ensures out.Body? ==> out.used <= |s|
    ensures out.Body? && out.data != acc ==> |out.data| <= lim.maxBodyBytes
    decreases |s|
  {
    match NextChunk(s, lim, end, |acc|)
    case Broke(f) => BadBody(f)
    case Last(n) =>
      (match Trailers(s[n..], lim.maxHeaderLine, end)
       case Body(_, m) => Body(acc, n + m)
       case BadBody(f) => BadBody(f))
    case More(data, n) => Chunks(s[n..], lim, end, acc + data).Shift(n)
  }

  /** The body that the header fields announce. */
  function ParseBody(s: string, fs: Fields, lim: Limits, end: IoError): (out: BodyOut)
    ensures out.Body? ==> out.used <= |s| && (out.data == "" || |out.data| <= lim.maxBodyBytes)
  {
    if ContainsToken(fs, "Transfer-Encoding", "chunked") then Chunks(s, lim, end, "")
    else if Has(fs, "Transfer-Encoding") then BadBody(Refused(501, NoCause))
    else if Has(fs, "Content-Length") then
      var n := ParseInt(Get(fs, "Content-Length"), 10);
      if !n.Value? || n.n < 0 then BadBody(Refused(400, NoCause))
      else if n.n > lim.maxBodyBytes then BadBody(Refused(413, NoCause))
      else if n.n > MAX_SLICE then BadBody(AllocPanic)
      else if |s| < n.n then BadBody(Refused(400, Io(ShortRead(|s|, end))))
      else Body(s[..n.n], n.n)
    else Body("", 0)
  }

  // ----- the whole request -----

  /** What ParseRequest makes of the stream s. */
  function Parse(s: string, lim: Limits, end: IoError, remote: string): (out: ParseOut)
    ensures out.Parsed? ==> 0 < out.used <= |s|
  {
    match LineOf(s, lim.maxRequestLine)
    case TooLong => Faulted(Refused(414, NoCause))
    case Ended => Faulted(if end == EOF then CleanClose else Refused(400, Io(end)))
    case Line(line, n) => ParseAfterLine(s[n..], ParseRequestLine(line), n, lim, end, remote)
  }

  function ParseAfterLine(s: string, rl: RequestLine, n: nat, lim: Limits, end: IoError, remote: string): (out: ParseOut)
    ensures out.Parsed? ==> n <= out.used <= n + |s|
  {
    match rl
    case BadLine(status) => Faulted(Refused(status, NoCause))
    case RequestLine(verb, target, proto) =>
      match ParseHeaders(s, lim, end, NOTHING)
      case BadHeaders(f) => Faulted(f)
      case HeaderBlock(fs, m) => ParseAfterHeaders(s[m..], rl, fs, n + m, lim, end, remote)
  }

  function ParseAfterHeaders(
    s: string, rl: RequestLine, fs: Fields, n: nat, lim: Limits, end: IoError, remote: string): (out: ParseOut)
    requires rl.RequestLine?
    ensures out.Parsed? ==> n <= out.used <= n + |s|
  {
    if rl.proto == "HTTP/1.1" && !Has(fs, "Host") then Faulted(Refused(400, NoCause))
    else
      match ParseBody(s, fs, lim, end)
      case BadBody(f) => Faulted(f)
      case Body(data, k) =>
        match Decompose(rl.target)
        case None => Faulted(Refused(400, NoCause))
        case Some((path, query)) =>
          Parsed(Request(rl.verb, rl.target, path, rl.proto, query, fs, data, remote), n + k)
  }

  // ----- the reader and the loops over it -----

  // Why ReadSlice stopped.
  datatype SliceEnd = Delimiter | BufferFull | Failed(e: IoError)

  /** A bufio.Reader over a connection: the bytes the peer will ever send, and how many were consumed. */
  class Reader {
    const stream: string
    const ending: IoError
    var pos: nat

    constructor (stream: string, ending: IoError)
      ensures Valid() && Rest() == stream && pos == 0
      ensures this.stream == stream && this.ending == ending
    {
      this.stream, this.ending, pos := stream, ending, 0;
    }

    ghost predicate Valid()
      reads this
    {
      pos <= |stream|
    }

    function Rest(): string
      requires Valid()
      reads this
    {
      stream[pos..]
    }

    /** The bytes up to the next LF, or any earlier piece that happened to fill the buffer. */
    method ReadSlice() returns (chunk: string, end: SliceEnd)
      requires Valid()
      modifies this`pos
      ensures Valid() && old(Rest()) == chunk + Rest()
      ensures match end
        case Delimiter => chunk != "" && chunk[|chunk| - 1] == LF && LF !in chunk[..|chunk| - 1]
        case BufferFull => chunk != "" && LF !in chunk
        case Failed(e) => LF !in chunk && Rest() == "" && e == ending
    {
      var rest := Rest();
      var i := IndexOf(rest, LF);
      IndexSpec(rest, LF);
      var full := *;
      if full && i > 0 {
        var n: nat :| 0 < n <= i;
        chunk, end := rest[..n], BufferFull;
      } else if i < |rest| {
        chunk, end := rest[..i + 1], Delimiter;
      } else {
        chunk, end := rest, Failed(ending);
      }
      pos := pos + |chunk|;
    }

    /** io.ReadFull into a fresh slice of n bytes. */
    method ReadFull(n: nat) returns (data: string, err: Option<IoError>)
      requires Valid()
      modifies this`pos
      ensures Valid()
      ensures err.None? <==> n <= |old(Rest())|
      ensures err.None? ==> data == old(Rest())[..n] && pos == old(pos) + n
      ensures err.Some? ==> err.value == ShortRead(|old(Rest())|, ending)
    {
      var rest := Rest();
      if n <= |rest| {
        data, err, pos := rest[..n], None, pos + n;
      } else {
        data, err, pos := rest, Some(ShortRead(|rest|, ending)), |stream|;
      }
    }
  }

  /** The next piece of s, behind the pieces in buf. */
  lemma Gathered(s: string, buf: string, chunk: string, rest: string)
    requires s == buf + (chunk + rest) && LF !in buf
    ensures var more := buf + chunk; s == more + rest && more <= s && s[|more|..] == rest
    ensures LF !in chunk ==> LF !in buf + chunk
    ensures chunk != "" && LF !in chunk[..|chunk| - 1] ==> LF !in (buf + chunk)[..|buf + chunk| - 1]
    ensures chunk != "" ==> (buf + chunk)[|buf + chunk| - 1] == chunk[|chunk| - 1]
  {
    Regroup(buf, chunk, rest);
    if chunk != "" {
      assert (buf + chunk)[..|buf + chunk| - 1] == buf + chunk[..|chunk| - 1];
    }
  }

  method ReadBoundedLine(r: Reader, max: int) returns (out: LineOut)
    requires r.Valid()
    modifies r`pos
    ensures r.Valid() && out == LineOf(old(r.Rest()), max)
    ensures out.Line? ==> r.pos == old(r.pos) + out.used && r.Rest() == old(r.Rest())[out.used..]
  {
    hide LineOf, StripEol;
    ghost var s := r.Rest();
    var buf := "";
    while true
      invariant r.Valid() && s == buf + r.Rest() && r.pos == old(r.pos) + |buf|
      invariant LF !in buf
      decreases |r.Rest()|
    {
      var chunk, end := r.ReadSlice();
      Gathered(s, buf, chunk, r.Rest());
      buf := buf + chunk;
      if end.Delimiter? {
        LineFound(s, buf, max);
      } else {
        LineOpen(s, buf, max);
      }
      if |buf| > max {
        return TooLong;
      }
      match end
      case Delimiter => return Line(StripEol(buf), |buf|);
      case BufferFull =>
      case Failed(_) => return Ended;
    }
  }

  method ReadHeader(r: Reader, lim: Limits, total: nat) returns (out: HeaderStep)
    requires r.Valid()
    modifies r`pos
    ensures r.Valid() && out == NextHeader(old(r.Rest()), lim, r.ending, total)
    ensures !out.Rejected? ==> r.pos == old(r.pos) + out.used && r.Rest() == old(r.Rest())[out.used..]
  {
    var line := ReadBoundedLine(r, lim.maxHeaderLine);
    match line
    case TooLong => return Rejected(Refused(431, NoCause));
    case Ended => return Rejected(Refused(400, Io(r.ending)));
    case Line(text, n) =>
      if text == "" {
        return Blank(n);
      }
      if total + |text| > lim.maxHeaderBytes {
        return Rejected(Refused(431, NoCause));
      }
      var h := ParseHeaderLine(text);
      out := if h.None? then Rejected(Refused(400, NoCause)) else Taken(h.value, |text|, n);
  }

  method AddBounded(headers: Headers, h: Header, max: int) returns (over: bool)
    requires headers.Valid()
    modifies headers
    ensures headers.Valid() && headers.Contents() == Add(old(headers.Contents()), h.name, h.value)
    ensures over == (|headers.Contents()| > max)
  {
    headers.AddKey(h.name, h.value);
    over := |headers.keys| > max;
  }

  method ReadHeaders(r: Reader, lim: Limits) returns (out: HeadersOut, headers: Headers)
    requires r.Valid()
    modifies r`pos
    ensures r.Valid() && fresh(headers) && headers.Valid()
    ensures out == ParseHeaders(old(r.Rest()), lim, r.ending, NOTHING)
    ensures out.HeaderBlock? ==> headers.Contents() == out.fs && r.pos == old(r.pos) + out.used
  {
    hide NextHeader, Add;
    headers := new Headers();
    var start, total: nat := r.pos, 0;
    ghost var got := NOTHING;
    ghost var goal := ParseHeaders(r.Rest(), lim, r.ending, got);
    while true
      invariant r.Valid() && headers.Valid() && fresh(headers) && start == old(r.pos) <= r.pos
      invariant got == Collected(headers.Contents(), total)
      invariant goal == ParseHeaders(r.Rest(), lim, r.ending, got).Shift(r.pos - start)
      decreases |r.stream| - r.pos
    {
      var step := ReadHeader(r, lim, total);
      match step
      case Rejected(f) => return BadHeaders(f), headers;
      case Blank(_) => return HeaderBlock(headers.Contents(), r.pos - start), headers;
      case Taken(h, size, _) =>
        total := total + size;
        var over := AddBounded(headers, h, lim.maxHeaderCount);
        got := got.Take(h, size);
        if over {
          return BadHeaders(Refused(431, NoCause)), headers;
        }
    }
  }

  method ReadTrailers(r: Reader, max: int) returns (out: BodyOut)
    requires r.Valid()
    modifies r`pos
    ensures r.Valid() && out == Trailers(old(r.Rest()), max, r.ending)
    ensures out.Body? ==> r.pos == old(r.pos) + out.used && out.data == ""
  {
    ghost var s := r.Rest();
    var start := r.pos;
    while true
      invariant r.Valid() && start == old(r.pos) <= r.pos
      invariant Trailers(s, max, r.ending) == Trailers(r.Rest(), max, r.ending).Shift(r.pos - start)
      decreases |r.Rest()|
    {
      var line := ReadBoundedLine(r, max);
      match line
      case TooLong => return BadBody(Refused(400, LineTooLong));
      case Ended => return BadBody(Refused(400, Io(r.ending)));
      case Line(text, _) =>
        if text == "" {
          return Body("", r.pos - start);
        }
    }
  }

  method ReadChunkData(r: Reader, size: nat, have: nat) returns (out: BodyOut)
    requires r.Valid()
    modifies r`pos
    ensures r.Valid() && out == ChunkData(old(r.Rest()), size, have, r.ending)
    ensures out.Body? ==> r.pos == old(r.pos) + out.used
  {
    ghost var s := r.Rest();
    var data, err := r.ReadFull(size);
    if err.Some? {
      return BadBody(Refused(400, Io(err.value)));
    }
    if have + size > MAX_SLICE {
      return BadBody(AllocPanic);
    }
    var crlf, err2 := r.ReadFull(2);
    assert err2.None? ==> crlf == s[size..size + 2];
    out := if err2.Some? || crlf != CRLF then BadBody(Refused(400, NoCause)) else Body(data, size + 2);
  }

  method ReadChunk(r: Reader, lim: Limits, have: nat) returns (out: ChunkStep)
    requires r.Valid()
    modifies r`pos
    ensures r.Valid() && out == NextChunk(old(r.Rest()), lim, r.ending, have)
    ensures !out.Broke? ==> r.pos == old(r.pos) + out.used && r.Rest() == old(r.Rest())[out.used..]
  {
    var line := ReadBoundedLine(r, lim.maxHeaderLine);
    match line
    case TooLong => return Broke(Refused(400, LineTooLong));
    case Ended => return Broke(Refused(400, Io(r.ending)));
    case Line(text, n) =>
      var size := ChunkSize(text);
      if !size.Value? || size.n < 0 {
        return Broke(Refused(400, NoCause));
      }
      if size.n == 0 {
        return Last(n);
      }
      if Wrap64(have + size.n) > lim.maxBodyBytes {
        return Broke(Refused(413, NoCause));
      }
      if size.n > MAX_SLICE {
        return Broke(AllocPanic);
      }
      var chunk := ReadChunkData(r, size.n, have);
      out := if chunk.BadBody? then Broke(chunk.fault) else More(chunk.data, n + chunk.used);
  }

  method ReadChunkedBody(r: Reader, lim: Limits) returns (out: BodyOut)
    requires r.Valid()
    modifies r`pos
    ensures r.Valid() && out == Chunks(old(r.Rest()), lim, r.ending, "")
    ensures out.Body? ==> r.pos == old(r.pos) + out.used
  {
    hide NextChunk, Trailers;
    ghost var s := r.Rest();
    var body, start := "", r.pos;
    while true
      invariant r.Valid() && start == old(r.pos) <= r.pos
      invariant body == "" || |body| <= lim.maxBodyBytes // what is held in memory at any time
      invariant Chunks(s, lim, r.ending, "") == Chunks(r.Rest(), lim, r.ending, body).Shift(r.pos - start)
      decreases |r.Rest()|
    {
      var step := ReadChunk(r, lim, |body|);
      match step
      case Broke(f) => return BadBody(f);
      case Last(_) =>
        var trailers := ReadTrailers(r, lim.maxHeaderLine);
        return if trailers.Body? then Body(body, r.pos - start) else trailers;
      case More(data, _) => body := body + data;
    }
  }

  method ReadBody(r: Reader, headers: Headers, lim: Limits) returns (out: BodyOut)
    requires r.Valid() && headers.Valid()
    modifies r`pos
    ensures r.Valid() && out == ParseBody(old(r.Rest()), headers.Contents(), lim, r.ending)
    ensures out.Body? ==> r.pos == old(r.pos) + out.used
  {
    var chunked := headers.ContainsTokenIn("Transfer-Encoding", "chunked");
    if chunked {
      out := ReadChunkedBody(r, lim);
      return;
    }
    var coded := headers.HasKey("Transfer-Encoding");
    if coded {
      return BadBody(Refused(501, NoCause));
    }
    var sized := headers.HasKey("Content-Length");
    if !sized {
      return Body("", 0);
    }
    var value := headers.GetKey("Content-Length");
    var n := ParseInt(value, 10);
    if !n.Value? || n.n < 0 {
      return BadBody(Refused(400, NoCause));
    }
    if n.n > lim.maxBodyBytes {
      return BadBody(Refused(413, NoCause));
    }
    if n.n > MAX_SLICE {
      return BadBody(AllocPanic);
    }
    var data, err := r.ReadFull(n.n);
    out := if err.Some? then BadBody(Refused(400, Io(err.value))) else Body(data, n.n);
  }

  /** ParseRequest once the request line is read. */
  method ReadAfterLine(r: Reader, rl: RequestLine, n: nat, lim: Limits, remote: string) returns (out: ParseOut)
    requires r.Valid()
    modifies r`pos
    ensures r.Valid() && out == ParseAfterLine(old(r.Rest()), rl, n, lim, r.ending, remote)
    ensures out.Parsed? ==> n + r.pos == old(r.pos) + out.used
  {
    if rl.BadLine? {
      return Faulted(Refused(rl.status, NoCause));
    }
    ghost var s := r.Rest();
    var start := r.pos;
    var block, headers := ReadHeaders(r, lim);
    if block.BadHeaders? {
      return Faulted(block.fault);
    }
    assert r.Rest() == s[block.used..];
    out := ReadAfterHeaders(r, rl, headers, n + block.used, lim, remote);
  }

  method ReadAfterHeaders(r: Reader, rl: RequestLine, headers: Headers, n: nat, lim: Limits, remote: string)
    returns (out: ParseOut)
    requires r.Valid() && rl.RequestLine? && headers.Valid()
    modifies r`pos
    ensures r.Valid()
    ensures out == ParseAfterHeaders(old(r.Rest()), rl, headers.Contents(), n, lim, r.ending, remote)
    ensures out.Parsed? ==> n + r.pos == old(r.pos) + out.used
  {
    hide ParseBody, Decompose, Has;
    var hosted := headers.HasKey("Host");
    if rl.proto == "HTTP/1.1" && !hosted {
      return Faulted(Refused(400, NoCause));
    }
    var body := ReadBody(r, headers, lim);
    if body.BadBody? {
      return Faulted(body.fault);
    }
    var target := Decompose(rl.target);
    if target.None? {
      return Faulted(Refused(400, NoCause));
    }
    var (path, query) := target.value;
    var req := Request(rl.verb, rl.target, path, rl.proto, query, headers.Contents(), body.data, remote);
    out := Parsed(req, n + body.used);
  }

  method ParseRequest(r: Reader, lim: Limits, remote: string) returns (out: ParseOut)
    requires r.Valid()
    modifies r`pos
    ensures r.Valid() && out == Parse(old(r.Rest()), lim, r.ending, remote)
    ensures out.Parsed? ==> r.pos == old(r.pos) + out.used && r.Rest() == old(r.Rest())[out.used..]
  {
    var line := ReadBoundedLine(r, lim.maxRequestLine);
    match line
    case TooLong => return Faulted(Refused(414, NoCause));
    case Ended => return Faulted(if r.ending == EOF then CleanClose else Refused(400, Io(r.ending)));
    case Line(text, n) => out := ReadAfterLine(r, ParseRequestLine(text), n, lim, remote);
  }
}

/** Faults that reach out of the body decoder: when parsing panics, when a stream counts as closed cleanly, and when
    the connection loop crashes. */
module PanicLaws {
  import opened Text
  import opened HeaderFields
  import opened RequestWire
  import opened RequestLaws
  import ResponseLaws
  import opened ServeConn

  /** s starts with a request line and a header block that announce a chunked body, and the body is at place k. */
  ghost predicate ChunkedFrom(s: string, lim: Limits, end: IoError, k: nat) {
    var line := LineOf(s, lim.maxRequestLine);
    line.Line? &&
    var rl, block := ParseRequestLine(line.text), ParseHeaders(s[line.used..], lim, end, NOTHING);
    && rl.RequestLine? && block.HeaderBlock? && k == line.used + block.used
    && (rl.proto == "HTTP/1.1" ==> Has(block.fs, "Host"))
    && ContainsToken(block.fs, "Transfer-Encoding", "chunked")
  }

  lemma {:induction false} HeadersNeverPanic(s: string, lim: Limits, end: IoError, got: Collected)
    ensures ParseHeaders(s, lim, end, got) != BadHeaders(AllocPanic)
    decreases |s|
  {
    hide LineOf, Add;
    var step := NextHeader(s, lim, end, got.total);
    if step.Taken? && |got.Take(step.h, step.size).fs| <= lim.maxHeaderCount {
      HeadersNeverPanic(s[step.used..], lim, end, got.Take(step.h, step.size));
    }
  }

  /** s starts with a request line and a header block that announce n bytes of body by Content-Length. */
  ghost predicate SizedAs(s: string, lim: Limits, end: IoError, n: nat) {
    var line := LineOf(s, lim.maxRequestLine);
    line.Line? &&
    var rl, block := ParseRequestLine(line.text), ParseHeaders(s[line.used..], lim, end, NOTHING);
    && rl.RequestLine? && block.HeaderBlock?
    && (rl.proto == "HTTP/1.1" ==> Has(block.fs, "Host"))
    && !Has(block.fs, "Transfer-Encoding") && Has(block.fs, "Content-Length")
    && ParseInt(Get(block.fs, "Content-Length"), 10) == Value(n)
  }

  lemma TransferEncodingIsThere(fs: Fields)
    requires ContainsToken(fs, "Transfer-Encoding", "chunked")
    ensures Has(fs, "Transfer-Encoding")
  {
    hide HasToken, Canonical;
  }

  /** Parsing panics in the chunked decoder, or where a Content-Length passes the limit and no slice holds it. */
  lemma ParsePanics(s: string, lim: Limits, end: IoError, remote: string)
    ensures Parse(s, lim, end, remote) == Faulted(AllocPanic) <==>
      || (exists k: nat :: ChunkedFrom(s, lim, end, k) && k <= |s| && Chunks(s[k..], lim, end, "") == BadBody(AllocPanic))
      || (exists n: nat :: SizedAs(s, lim, end, n) && MAX_SLICE < n <= lim.maxBodyBytes)
  {
    hide LineOf, ParseRequestLine, ParseHeaders, Chunks, Has, Get, ContainsToken, Decompose, ParseInt;
    var line := LineOf(s, lim.maxRequestLine);
    if line.Line? {
      var rest := s[line.used..];
      HeadersNeverPanic(rest, lim, end, NOTHING);
      var block := ParseHeaders(rest, lim, end, NOTHING);
      if block.HeaderBlock? {
        assert rest[block.used..] == s[line.used + block.used..];
        if ContainsToken(block.fs, "Transfer-Encoding", "chunked") {
          TransferEncodingIsThere(block.fs);
        } else {
          var num := ParseInt(Get(block.fs, "Content-Length"), 10);
          if Parse(s, lim, end, remote) == Faulted(AllocPanic) {
            assert SizedAs(s, lim, end, num.n);
          }
        }
      }
    }
  }

  /** For every limit: a request panics the parser if and only if its body, chunked or announced by length, passes
      the limit check at a size that no slice can hold. */
  lemma RequestPanicsExactly(s: string, lim: Limits, end: IoError, remote: string)
    requires 0 <= lim.maxBodyBytes
    ensures Parse(s, lim, end, remote) == Faulted(AllocPanic) <==>
      || (exists k: nat, cs, head, size :: ChunkedFrom(s, lim, end, k) && k <= |s|
           && Unallocatable(s[k..], lim.maxHeaderLine, lim.maxBodyBytes, 0, cs, head, size))
      || (exists n: nat :: SizedAs(s, lim, end, n) && MAX_SLICE < n <= lim.maxBodyBytes)
  {
    hide ChunkedFrom, SizedAs, Parse, Chunks, Unallocatable;
    ParsePanics(s, lim, end, remote);
    forall k: nat | k <= |s|
      ensures Chunks(s[k..], lim, end, "") == BadBody(AllocPanic) <==>
              exists cs, head, size :: Unallocatable(s[k..], lim.maxHeaderLine, lim.maxBodyBytes, 0, cs, head, size)
    {
      PanicExactly(s[k..], lim, end);
    }
  }

  /** For a limit that a slice can hold, such as the default: if and only if the request is chunked and, after
      complete chunks within the limit, a chunk size overflows the sum. */
  lemma RequestOverflowsExactly(s: string, lim: Limits, end: IoError, remote: string)
    requires 0 <= lim.maxBodyBytes <= MAX_SLICE
    ensures Parse(s, lim, end, remote) == Faulted(AllocPanic) <==>
      exists k: nat, cs, head, size :: ChunkedFrom(s, lim, end, k) && k <= |s|
        && Overflows(s[k..], lim.maxHeaderLine, lim.maxBodyBytes, cs, head, size)
  {
    hide ChunkedFrom, SizedAs, Parse, Chunks, Overflows;
    ParsePanics(s, lim, end, remote);
    forall k: nat | k <= |s|
      ensures Chunks(s[k..], lim, end, "") == BadBody(AllocPanic) <==>
              exists cs, head, size :: Overflows(s[k..], lim.maxHeaderLine, lim.maxBodyBytes, cs, head, size)
    {
      OverflowExactly(s[k..], lim, end);
    }
  }

  // ----- the clean close -----

  /** No header block, chunked body or trailer ends in a clean close. */
  lemma {:induction false} HeadersNeverClose(s: string, lim: Limits, end: IoError, got: Collected)
    ensures ParseHeaders(s, lim, end, got) != BadHeaders(CleanClose)
    decreases |s|
  {
    hide LineOf, Add;
    var step := NextHeader(s, lim, end, got.total);
    if step.Taken? && |got.Take(step.h, step.size).fs| <= lim.maxHeaderCount {
      HeadersNeverClose(s[step.used..], lim, end, got.Take(step.h, step.size));
    }
  }

  lemma {:induction false} TrailersNeverClose(s: string, max: int, end: IoError)
    ensures Trailers(s, max, end) != BadBody(CleanClose)
    decreases |s|
  {
    hide LineOf;
    var line := LineOf(s, max);
    if line.Line? && line.text != "" { TrailersNeverClose(s[line.used..], max, end); }
  }

  lemma {:induction false} ChunksNeverClose(s: string, lim: Limits, end: IoError, acc: string)
    ensures Chunks(s, lim, end, acc) != BadBody(CleanClose)
    decreases |s|
  {
    hide LineOf, ChunkSize, Trailers;
    var step := NextChunk(s, lim, end, |acc|);
    if step.Last? { TrailersNeverClose(s[step.used..], lim.maxHeaderLine, end); }
    if step.More? { ChunksNeverClose(s[step.used..], lim, end, acc + step.data); }
  }

  lemma CloseIsInLine(s: string, lim: Limits, end: IoError, remote: string)
    ensures Parse(s, lim, end, remote) == Faulted(CleanClose) <==> end == EOF && LineOf(s, lim.maxRequestLine).Ended?
  {
    hide LineOf, ParseRequestLine, ParseHeaders, Chunks, Has, Get, ContainsToken, Decompose, ParseInt;
    var line := LineOf(s, lim.maxRequestLine);
    if line.Line? {
      var rest := s[line.used..];
      HeadersNeverClose(rest, lim, end, NOTHING);
      var block := ParseHeaders(rest, lim, end, NOTHING);
      if block.HeaderBlock? { ChunksNeverClose(rest[block.used..], lim, end, ""); }
    }
  }

  /** A stream is taken for a connection closed between requests if and only if it ends before the request line
      does, however much of the line has arrived. */
  lemma CleanCloseExactly(s: string, lim: Limits, end: IoError, remote: string)
    ensures Parse(s, lim, end, remote) == Faulted(CleanClose) <==> end == EOF && LF !in s && |s| <= lim.maxRequestLine
  {
    CloseIsInLine(s, lim, end, remote);
    hide Parse, LineOf;
    if LF !in s {
      LineOpen(s, s, lim.maxRequestLine);
    } else {
      var n := FirstLF(s);
      LineFound(s, s[..n + 1], lim.maxRequestLine);
    }
  }

  lemma FirstLF(s: string) returns (n: nat)
    requires LF in s
    ensures n < |s| && s[n] == LF && LF !in s[..n]
  {
    IndexSpec(s, LF);
    n := IndexOf(s, LF);
  }

  // ----- the connection loop -----

  lemma ServeFaulted(s: string, c: Config, end: IoError, drain: nat -> bool, p: Progress, fault: Fault)
    requires Parse(s, c.lim, end, c.remote) == Faulted(fault)
    ensures Serve(s, c, end, drain, p).crashed <==> fault == AllocPanic && !Halts(drain, p)
  {
    hide Parse, Refusal, Handled, KeepAlive;
    EmptyIsNoPanic(c.lim, end, c.remote);
  }

  lemma EmptyIsNoPanic(lim: Limits, end: IoError, remote: string)
    ensures Parse("", lim, end, remote) != Faulted(AllocPanic)
  {
  }

  /** The connection's goroutine panics, outside the isolation of handlers, if and only if the loop gets to a
      request that makes the parser panic: all requests before it kept the connection alive, and no drain was
      seen at the head of the loop. */
  lemma CrashesExactly(s: string, c: Config, end: IoError, drain: nat -> bool)
    ensures var all := ParseAll(s, c.lim, end, c.remote);
      Serve(s, c, end, drain, START).crashed <==>
        all.fault == AllocPanic && GoesOn(all.read, c, drain, START) && !Halts(drain, Later(START, |all.read|))
  {
    hide *;
    var all := ParseAll(s, c.lim, end, c.remote);
    Unpipelining(s, c.lim, end, c.remote);
    PipelineServed(all.read, all.left, c, end, drain, START);
    ServeFaulted(all.left, c, end, drain, Later(START, |all.read|), all.fault);
    ThenCrashed(Answers(all.read, c, drain, START), Serve(all.left, c, end, drain, Later(START, |all.read|)));
  }

  lemma ThenCrashed(a: seq<ResponseLaws.Sent>, b: Served)
    ensures Then(a, b).crashed == b.crashed
  {
  }
}

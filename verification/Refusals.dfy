/** Which request is refused with which status, as conditions on its bytes. */
module Refusals {
  import opened Text
  import opened HeaderFields
  import opened RequestWire
  import opened RequestLaws
  import opened Framing
  import RelayLaws

  // ----- the request line -----

  const METHODS: set<string> := {"GET", "HEAD", "POST", "PUT", "DELETE", "PATCH", "OPTIONS"}
  const VERSIONS: set<string> := {"HTTP/1.1", "HTTP/1.0"}

  /** The line is three parts with one space between each two. */
  ghost predicate InThree(line: string, verb: string, target: string, proto: string) {
    && line == verb + [' '] + (target + [' '] + proto)
    && ' ' !in verb && ' ' !in target && ' ' !in proto
  }

  lemma ThreeParts(line: string, verb: string, target: string, proto: string)
    requires InThree(line, verb, target, proto)
    ensures Split(line, ' ') == [verb, target, proto]
  {
    SplitAt(verb, ' ', target + [' '] + proto);
    SplitAt(target, ' ', proto);
    SplitNone(proto, ' ');
  }

  lemma CutSplits(s: string, c: char)
    requires Cut(s, c).found
    ensures s == Cut(s, c).before + [c] + Cut(s, c).after && c !in Cut(s, c).before
  {
    IndexSpec(s, c);
  }

  lemma SplitOnce(s: string, c: char)
    ensures var cut := Cut(s, c); Split(s, c) == if cut.found then [cut.before] + Split(cut.after, c) else [s]
  {
  }

  lemma PartsOfThree(line: string)
    requires |Split(line, ' ')| == 3
    ensures var p := Split(line, ' '); InThree(line, p[0], p[1], p[2])
  {
    var p, cut := Split(line, ' '), Cut(line, ' ');
    var rest := Cut(cut.after, ' ');
    SplitParts(line, ' ', 0);
    SplitParts(line, ' ', 1);
    SplitParts(line, ' ', 2);
    SplitOnce(line, ' ');
    SplitOnce(cut.after, ' ');
    SplitOnce(rest.after, ' ');
    hide Split;
    CutSplits(line, ' ');
    CutSplits(cut.after, ' ');
    hide Cut;
    assert p == [cut.before] + ([rest.before] + [rest.after]);
  }

  predicate HasLowerCase(s: string) {
    exists i :: 0 <= i < |s| && 'a' <= s[i] <= 'z'
  }

  lemma UpperIsFixed(s: string)
    ensures s == ToUpper(s) <==> !HasLowerCase(s)
  {
    if i :| 0 <= i < |s| && 'a' <= s[i] <= 'z' {
      assert ToUpper(s)[i] == s[i] - 32 as char;
    }
  }

  lemma KnownMethods(m: string)
    ensures KnownMethod(m) <==> m in METHODS
  {
  }

  /** A request line in three parts: each of the seven methods is accepted under both versions; a method in capitals
      that is none of them gets 501, any other 400; another version gets 505; a target that is no path gets 400. */
  lemma RequestLineExactly(line: string, verb: string, target: string, proto: string)
    requires InThree(line, verb, target, proto)
    ensures ParseRequestLine(line) ==
      if verb !in METHODS then BadLine(if verb == "" || HasLowerCase(verb) then 400 else 501)
      else if proto !in VERSIONS then BadLine(505)
      else if target == "" || target[0] != '/' then BadLine(400)
      else RequestLine(verb, target, proto)
  {
    ThreeParts(line, verb, target, proto);
    UpperIsFixed(verb);
    KnownMethods(verb);
    assert "/" <= target <==> target != "" && target[0] == '/';
    hide KnownMethod, METHODS, Split, ToUpper, HasLowerCase;
  }

  /** And any other line gets 400. */
  lemma OtherLinesRefused(line: string)
    requires forall verb, target, proto :: !InThree(line, verb, target, proto)
    ensures ParseRequestLine(line) == BadLine(400)
  {
    if |Split(line, ' ')| == 3 {
      PartsOfThree(line);
    }
  }

  // ----- the header block -----

  /** A header line is in order if and only if it has a colon, and before the first one a name without blanks. The
      value is what follows, without the blanks around it. */
  lemma HeaderLineExactly(text: string, h: Header)
    ensures ParseHeaderLine(text) == Some(h) <==>
      exists after :: text == h.name + [':'] + after && ':' !in h.name && h.value == TrimSpace(after)
                      && h.name != "" && ' ' !in h.name && '\t' !in h.name
  {
    hide TrimSpace;
    var cut := Cut(text, ':');
    IndexSpec(text, ':');
    if cut.found {
      CutSplits(text, ':');
    }
    forall after | text == h.name + [':'] + after && ':' !in h.name
      ensures cut == Cutting(h.name, after, true)
    {
      CutAt(h.name, ':', after);
    }
  }

  /** raw is one whole header line of at most max bytes, in order. */
  ghost predicate HeaderLine(raw: string, max: int) {
    var line := LineOf(raw, max);
    line.Line? && line.used == |raw| && line.text != "" && ParseHeaderLine(line.text).Some?
  }

  ghost predicate HeaderLines(raws: seq<string>, max: int) {
    forall r | r in raws :: HeaderLine(r, max)
  }

  function TextOf(raw: string, max: int): string {
    match LineOf(raw, max)
    case Line(text, _) => text
    case _ => ""
  }

  /** The bytes of the lines without their terminators. */
  function Sizes(raws: seq<string>, max: int): nat {
    if raws == [] then 0 else |TextOf(raws[0], max)| + Sizes(raws[1..], max)
  }

  function HeadersIn(raws: seq<string>, max: int): seq<Header> {
    if raws == [] then []
    else
      match ParseHeaderLine(TextOf(raws[0], max))
      case None => HeadersIn(raws[1..], max)
      case Some(h) => [h] + HeadersIn(raws[1..], max)
  }

  /** The header lines raws, read after got, are in order and within the limits. */
  ghost predicate Within(raws: seq<string>, lim: Limits, got: Collected) {
    && HeaderLines(raws, lim.maxHeaderLine)
    && (raws != [] ==>
          && got.total + Sizes(raws, lim.maxHeaderLine) <= lim.maxHeaderBytes
          && |AddAll(got.fs, HeadersIn(raws, lim.maxHeaderLine))| <= lim.maxHeaderCount)
  }

  function After(raws: seq<string>, lim: Limits, got: Collected): Collected {
    Collected(AddAll(got.fs, HeadersIn(raws, lim.maxHeaderLine)), got.total + Sizes(raws, lim.maxHeaderLine))
  }

  lemma AfterOne(raw: string, raws: seq<string>, lim: Limits, got: Collected)
    requires HeaderLine(raw, lim.maxHeaderLine)
    ensures var h, size := ParseHeaderLine(TextOf(raw, lim.maxHeaderLine)).value, |TextOf(raw, lim.maxHeaderLine)|;
      var next := got.Take(h, size);
      && After([raw] + raws, lim, got) == After(raws, lim, next) && size > 0
      && (raws == [] ==> After(raws, lim, next) == next)
  {
    hide LineOf, ParseHeaderLine, Add;
    var all, max := [raw] + raws, lim.maxHeaderLine;
    assert all[1..] == raws;
    var h := ParseHeaderLine(TextOf(raw, max)).value;
    assert HeadersIn(all, max) == [h] + HeadersIn(raws, max);
    assert ([h] + HeadersIn(raws, max))[1..] == HeadersIn(raws, max);
  }

  lemma InOrder(raw: string, max: int)
    requires HeaderLine(raw, max)
    ensures ParseHeaderLine(TextOf(raw, max)).Some?
  {
    hide ParseHeaderLine, LineOf;
  }

  lemma WithinCons(raw: string, raws: seq<string>, lim: Limits, got: Collected)
    requires HeaderLine(raw, lim.maxHeaderLine)
    ensures var max := lim.maxHeaderLine;
      var next := got.Take(ParseHeaderLine(TextOf(raw, max)).value, |TextOf(raw, max)|);
      Within([raw] + raws, lim, got) <==>
        Within(raws, lim, next) && next.total <= lim.maxHeaderBytes && |next.fs| <= lim.maxHeaderCount
  {
    hide LineOf, ParseHeaderLine, Add, HeaderLine;
    var max := lim.maxHeaderLine;
    InOrder(raw, max);
    var next := got.Take(ParseHeaderLine(TextOf(raw, max)).value, |TextOf(raw, max)|);
    AfterOne(raw, raws, lim, got);
    RelayLaws.AddAllGrows(next.fs, HeadersIn(raws, max));
    assert HeaderLines([raw] + raws, max) <==> HeaderLines(raws, max) by {
      assert ([raw] + raws)[0] == raw && ([raw] + raws)[1..] == raws;
      forall r ensures r in [raw] + raws <==> r == raw || r in raws {}
    }
    hide HeaderLines, HeadersIn, Sizes, AddAll;
  }

  /** Header lines within the limits are read, and what follows them is read next. */
  lemma {:induction false} LinesRead(raws: seq<string>, rest: string, lim: Limits, end: IoError, got: Collected)
    requires Within(raws, lim, got)
    ensures ParseHeaders(Joined(raws) + rest, lim, end, got) ==
      ParseHeaders(rest, lim, end, After(raws, lim, got)).Shift(|Joined(raws)|)
    decreases |raws|
  {
    hide NextHeader, Within, HeaderLine, Add;
    if raws == [] {
      assert Joined(raws) + rest == rest;
    } else {
      var raw, more := raws[0], Joined(raws[1..]) + rest;
      assert [raw] + raws[1..] == raws;
      assert HeaderLine(raw, lim.maxHeaderLine) by { FirstInOrder(raws, lim, got); }
      assert Joined(raws) + rest == raw + more;
      InOrder(raw, lim.maxHeaderLine);
      WithinCons(raw, raws[1..], lim, got);
      AfterOne(raw, raws[1..], lim, got);
      LineTaken(raw, more, lim, end, got);
      assert (raw + more)[|raw|..] == more;
      var next := got.Take(ParseHeaderLine(TextOf(raw, lim.maxHeaderLine)).value, |TextOf(raw, lim.maxHeaderLine)|);
      LinesRead(raws[1..], rest, lim, end, next);
    }
  }

  lemma FirstInOrder(raws: seq<string>, lim: Limits, got: Collected)
    requires Within(raws, lim, got) && raws != []
    ensures HeaderLine(raws[0], lim.maxHeaderLine)
  {
    hide HeaderLine;
  }

  lemma LineTaken(raw: string, more: string, lim: Limits, end: IoError, got: Collected)
    requires HeaderLine(raw, lim.maxHeaderLine) && got.total + |TextOf(raw, lim.maxHeaderLine)| <= lim.maxHeaderBytes
    ensures var text := TextOf(raw, lim.maxHeaderLine);
      NextHeader(raw + more, lim, end, got.total) == Taken(ParseHeaderLine(text).value, |text|, |raw|)
  {
    hide LineOf, ParseHeaderLine;
    LineFirst(raw, more, lim.maxHeaderLine);
  }

  /** The line that s goes on with passes a limit, behind what has been collected. */
  ghost predicate PassesLimit(s: string, lim: Limits, got: Collected) {
    match LineOf(s, lim.maxHeaderLine)
    case TooLong => true
    case Ended => false
    case Line(text, _) =>
      text != "" && (got.total + |text| > lim.maxHeaderBytes
        || (ParseHeaderLine(text).Some?
              && |Add(got.fs, ParseHeaderLine(text).value.name, ParseHeaderLine(text).value.value)| > lim.maxHeaderCount))
  }

  /** The header loop stops at s: no line in order and within the limits is next. */
  ghost predicate Stops(s: string, lim: Limits, end: IoError, got: Collected) {
    var step := NextHeader(s, lim, end, got.total);
    step.Taken? ==> |got.Take(step.h, step.size).fs| > lim.maxHeaderCount
  }

  /** What the header loop reads before it stops. */
  lemma {:induction false} HeadersMean(s: string, lim: Limits, end: IoError, got: Collected) returns (raws: seq<string>)
    ensures Within(raws, lim, got) && Joined(raws) <= s && Stops(s[|Joined(raws)|..], lim, end, After(raws, lim, got))
    decreases |s|
  {
    hide NextHeader, Within, HeaderLine, Add, After;
    var step := NextHeader(s, lim, end, got.total);
    if Stops(s, lim, end, got) {
      raws := [];
      NothingRead(lim, got);
      assert s[|Joined(raws)|..] == s;
    } else {
      var n, next := step.used, got.Take(step.h, step.size);
      var more := HeadersMean(s[n..], lim, end, next);
      raws := [s[..n]] + more;
      LineRaw(s, lim, end, got);
      WithinCons(s[..n], more, lim, got);
      AfterOne(s[..n], more, lim, got);
      NextTotal(s, lim, end, got);
      hide Stops;
      assert raws[1..] == more && Joined(raws) == s[..n] + Joined(more);
      assert s == s[..n] + s[n..];
      assert s[|Joined(raws)|..] == s[n..][|Joined(more)|..];
    }
  }

  lemma NothingRead(lim: Limits, got: Collected)
    ensures Within([], lim, got) && After([], lim, got) == got
  {
  }

  lemma NextTotal(s: string, lim: Limits, end: IoError, got: Collected)
    requires NextHeader(s, lim, end, got.total).Taken?
    ensures var step := NextHeader(s, lim, end, got.total); got.Take(step.h, step.size).total == got.total + step.size
  {
    hide NextHeader, Add;
  }

  /** What the loop returns where it stops. */
  lemma StopOutcome(s: string, lim: Limits, end: IoError, got: Collected)
    requires Stops(s, lim, end, got)
    ensures var out, line := ParseHeaders(s, lim, end, got), LineOf(s, lim.maxHeaderLine);
      && (out.HeaderBlock? <==> line.Line? && line.text == "")
      && (out.HeaderBlock? ==> out == HeaderBlock(got.fs, line.used))
      && (out == BadHeaders(Refused(431, NoCause)) <==> PassesLimit(s, lim, got))
  {
    hide LineOf, ParseHeaderLine, Add;
  }

  lemma LineRaw(s: string, lim: Limits, end: IoError, got: Collected)
    requires NextHeader(s, lim, end, got.total).Taken?
    ensures var step := NextHeader(s, lim, end, got.total);
      && HeaderLine(s[..step.used], lim.maxHeaderLine) && got.total + step.size <= lim.maxHeaderBytes
      && var text := TextOf(s[..step.used], lim.maxHeaderLine);
      ParseHeaderLine(text) == Some(step.h) && |text| == step.size
  {
    hide LineOf, ParseHeaderLine;
    LineAlone(s, lim.maxHeaderLine);
  }

  /** A header block is accepted if and only if it is header lines in order and within the limits, and a blank line;
      the fields are those lines added one by one. It is refused with 431 if and only if, behind such lines, one
      comes that passes a limit: too long, too many bytes in all, or too many names. */
  lemma HeadersExactly(s: string, lim: Limits, end: IoError)
    ensures forall fs, used :: ParseHeaders(s, lim, end, NOTHING) == HeaderBlock(fs, used) <==>
      exists raws, blank :: BlockIs(s, lim, raws, blank, fs, used)
    ensures ParseHeaders(s, lim, end, NOTHING) == BadHeaders(Refused(431, NoCause)) <==>
      exists raws :: Overfull(s, lim, raws)
  {
    hide ParseHeaders, PassesLimit, Within, After, LineOf, Stops;
    var raws := HeadersMean(s, lim, end, NOTHING);
    var rest := s[|Joined(raws)|..];
    assert s == Joined(raws) + rest;
    LinesRead(raws, rest, lim, end, NOTHING);
    StopOutcome(rest, lim, end, After(raws, lim, NOTHING));
    var line := LineOf(rest, lim.maxHeaderLine);
    if line.Line? && line.text == "" {
      LineAlone(rest, lim.maxHeaderLine);
      assert Joined(raws) + rest[..line.used] <= s;
      assert BlockIs(s, lim, raws, rest[..line.used], After(raws, lim, NOTHING).fs, |Joined(raws)| + line.used);
    }
    if PassesLimit(rest, lim, After(raws, lim, NOTHING)) {
      assert Overfull(s, lim, raws);
    }
    forall fs, used, raws', blank | BlockIs(s, lim, raws', blank, fs, used)
      ensures ParseHeaders(s, lim, end, NOTHING) == HeaderBlock(fs, used)
    {
      BlockIsRead(s, lim, end, raws', blank, fs, used);
    }
    forall raws' | Overfull(s, lim, raws')
      ensures ParseHeaders(s, lim, end, NOTHING) == BadHeaders(Refused(431, NoCause))
    {
      OverfullIsRefused(s, lim, end, raws');
    }
  }

  /** s starts with the header lines raws and a blank one, used bytes in all, and they make the fields fs. */
  ghost predicate BlockIs(s: string, lim: Limits, raws: seq<string>, blank: string, fs: Fields, used: nat) {
    && Within(raws, lim, NOTHING) && IsLine(blank, "", lim.maxHeaderLine) && Joined(raws) + blank <= s
    && fs == After(raws, lim, NOTHING).fs && used == |Joined(raws)| + |blank|
  }

  /** s starts with header lines within the limits, and goes on with one that passes a limit. */
  ghost predicate Overfull(s: string, lim: Limits, raws: seq<string>) {
    Within(raws, lim, NOTHING) && Joined(raws) <= s && PassesLimit(s[|Joined(raws)|..], lim, After(raws, lim, NOTHING))
  }

  lemma BlockIsRead(
    s: string, lim: Limits, end: IoError, raws: seq<string>, blank: string, fs: Fields, used: nat)
    requires BlockIs(s, lim, raws, blank, fs, used)
    ensures ParseHeaders(s, lim, end, NOTHING) == HeaderBlock(fs, used)
  {
    hide Within, After, LineOf;
    var rest := s[used..];
    assert s == Joined(raws) + (blank + rest);
    LinesRead(raws, blank + rest, lim, end, NOTHING);
    LineFirst(blank, rest, lim.maxHeaderLine);
  }

  lemma OverfullIsRefused(s: string, lim: Limits, end: IoError, raws: seq<string>)
    requires Overfull(s, lim, raws)
    ensures ParseHeaders(s, lim, end, NOTHING) == BadHeaders(Refused(431, NoCause))
  {
    hide Within, After, LineOf, Add, ParseHeaderLine;
    var rest := s[|Joined(raws)|..];
    assert s == Joined(raws) + rest;
    LinesRead(raws, rest, lim, end, NOTHING);
  }

  // ----- the whole request -----

  lemma LineTooLongExactly(s: string, max: int)
    ensures LineOf(s, max).TooLong? <==> max < 0 || (max < |s| && LF !in s[..max])
  {
    if max >= 0 {
      IndexSpec(s, LF);
      var n := IndexOf(s, LF);
      assert LF !in s[..n];
      if n == |s| {
        LineOpen(s, s, max);
      } else {
        LineFound(s, s[..n + 1], max);
        assert max <= n ==> s[..max] <= s[..n];
        assert max > n && max <= |s| ==> s[..max][n] == LF;
      }
    }
  }

  ghost predicate LineRefused(s: string, lim: Limits, status: int) {
    LineOf(s, lim.maxRequestLine).Line? && ParseRequestLine(LineOf(s, lim.maxRequestLine).text) == BadLine(status)
  }

  ghost predicate LineAccepted(s: string, lim: Limits) {
    LineOf(s, lim.maxRequestLine).Line? && ParseRequestLine(LineOf(s, lim.maxRequestLine).text).RequestLine?
  }

  ghost predicate Uncoded(fs: Fields) {
    Has(fs, "Transfer-Encoding") && !ContainsToken(fs, "Transfer-Encoding", "chunked")
  }

  ghost predicate TooMuch(s: string, fs: Fields, lim: Limits) {
    if ContainsToken(fs, "Transfer-Encoding", "chunked") then exists cs, head, size :: Oversized(s, lim, 0, cs, head, size)
    else
      && !Has(fs, "Transfer-Encoding") && Has(fs, "Content-Length")
      && ParseInt(Get(fs, "Content-Length"), 10).Value? && ParseInt(Get(fs, "Content-Length"), 10).n > lim.maxBodyBytes
  }

  lemma {:induction false} TrailerStatus(s: string, max: int, end: IoError)
    ensures Trailers(s, max, end).BadBody? ==>
      Trailers(s, max, end).fault.Refused? && Trailers(s, max, end).fault.status == 400
    decreases |s|
  {
    hide LineOf;
    var line := LineOf(s, max);
    if line.Line? && line.text != "" { TrailerStatus(s[line.used..], max, end); }
  }

  lemma {:induction false} ChunksStatus(s: string, lim: Limits, end: IoError, acc: string)
    ensures var out := Chunks(s, lim, end, acc); out.BadBody? && out.fault.Refused? ==>
      out.fault.status == 400 || out.fault == Refused(413, NoCause)
    decreases |s|
  {
    hide LineOf, ChunkSize, Trailers, Wrap64;
    var step := NextChunk(s, lim, end, |acc|);
    if step.Last? { TrailerStatus(s[step.used..], lim.maxHeaderLine, end); }
    if step.More? { ChunksStatus(s[step.used..], lim, end, acc + step.data); }
  }

  lemma {:induction false} HeadersStatus(s: string, lim: Limits, end: IoError, got: Collected)
    ensures var out := ParseHeaders(s, lim, end, got); out.BadHeaders? ==>
      out.fault.Refused? && (out.fault.status == 400 || out.fault == Refused(431, NoCause))
    decreases |s|
  {
    hide LineOf, Add;
    var step := NextHeader(s, lim, end, got.total);
    if step.Taken? && |got.Take(step.h, step.size).fs| <= lim.maxHeaderCount {
      HeadersStatus(s[step.used..], lim, end, got.Take(step.h, step.size));
    }
  }

  lemma LineStatus(line: string)
    ensures ParseRequestLine(line).BadLine? ==> ParseRequestLine(line).status in {400, 501, 505}
  {
    hide Split, KnownMethod, ToUpper;
  }

  /** The five statuses with a meaning of their own, each exactly: 414 for a request line beyond its limit; 505 and 501
      for the version and the method of a line in three parts (RequestLineExactly); 431 for a header block beyond its
      limits; 501 for a transfer coding other than chunked; 413 for a body beyond its limit. */
  lemma StatusExactly(s: string, lim: Limits, end: IoError, remote: string)
    requires 0 <= lim.maxBodyBytes
    ensures var out := Parse(s, lim, end, remote);
      && (out == Faulted(Refused(414, NoCause)) <==>
           lim.maxRequestLine < 0 || (lim.maxRequestLine < |s| && LF !in s[..lim.maxRequestLine]))
      && (out == Faulted(Refused(505, NoCause)) <==> LineRefused(s, lim, 505))
      && (out == Faulted(Refused(431, NoCause)) <==>
           LineAccepted(s, lim) && exists raws :: Overfull(s[LineOf(s, lim.maxRequestLine).used..], lim, raws))
      && (out == Faulted(Refused(501, NoCause)) <==>
           LineRefused(s, lim, 501) || exists rl, fs, k: nat :: HeadIs(s, lim, end, rl, fs, k) && Uncoded(fs))
      && (out == Faulted(Refused(413, NoCause)) <==>
           exists rl, fs, k: nat :: k <= |s| && HeadIs(s, lim, end, rl, fs, k) && TooMuch(s[k..], fs, lim))
  {
    LineTooLongExactly(s, lim.maxRequestLine);
    hide LineOf, ParseRequestLine, ParseHeaders, ParseBody, Has, Decompose, Overfull, TooMuch, Uncoded, HeadIs;
    var line := LineOf(s, lim.maxRequestLine);
    if line.Line? {
      LineStatus(line.text);
      HeadersStatus(s[line.used..], lim, end, NOTHING);
      HeadersExactly(s[line.used..], lim, end);
      OnlyHead(s, lim, end);
      var rl, block := ParseRequestLine(line.text), ParseHeaders(s[line.used..], lim, end, NOTHING);
      if rl.RequestLine? && block.HeaderBlock? && (rl.proto == "HTTP/1.1" ==> Has(block.fs, "Host")) {
        var k := line.used + block.used;
        HeadStatus(s, lim, end, remote, rl, block.fs, k);
      }
    } else {
      OnlyHead(s, lim, end);
    }
  }

  /** A stream has one head at most. */
  lemma OnlyHead(s: string, lim: Limits, end: IoError)
    ensures forall rl, fs, k: nat :: HeadIs(s, lim, end, rl, fs, k) <==>
      var line := LineOf(s, lim.maxRequestLine);
      && line.Line? && ParseRequestLine(line.text) == rl && rl.RequestLine?
      && var block := ParseHeaders(s[line.used..], lim, end, NOTHING);
      block.HeaderBlock? && block.fs == fs && k == line.used + block.used && (rl.proto == "HTTP/1.1" ==> Has(fs, "Host"))
  {
    hide LineOf, ParseRequestLine, ParseHeaders, Has;
  }

  lemma HeadStatus(s: string, lim: Limits, end: IoError, remote: string, rl: RequestLine, fs: Fields, k: nat)
    requires HeadIs(s, lim, end, rl, fs, k) && 0 <= lim.maxBodyBytes
    ensures k <= |s|
    ensures var out := Parse(s, lim, end, remote);
      && (out == Faulted(Refused(501, NoCause)) <==> Uncoded(fs))
      && (out == Faulted(Refused(413, NoCause)) <==> TooMuch(s[k..], fs, lim))
      && (out.Faulted? && out.fault.Refused? ==> out.fault.status in {400, 413, 501})
  {
    HeadInside(s, lim, end, rl, fs, k);
    AfterHead(s, lim, end, remote, rl, fs, k);
    BodyStatus(s[k..], fs, lim, end);
    hide *;
  }

  lemma BodyStatus(s: string, fs: Fields, lim: Limits, end: IoError)
    requires 0 <= lim.maxBodyBytes
    ensures var out := ParseBody(s, fs, lim, end);
      && (out == BadBody(Refused(501, NoCause)) <==> Uncoded(fs))
      && (out == BadBody(Refused(413, NoCause)) <==> TooMuch(s, fs, lim))
      && (out.BadBody? && out.fault.Refused? ==> out.fault.status in {400, 413, 501})
  {
    ChunksStatus(s, lim, end, "");
    OversizedExactly(s, lim, end);
    hide Chunks, ContainsToken, Has, Get, ParseInt, Oversized;
  }

  /** No request is refused with any other status. */
  lemma StatusOf(s: string, lim: Limits, end: IoError, remote: string)
    ensures var out := Parse(s, lim, end, remote);
      out.Faulted? && out.fault.Refused? ==> out.fault.status in {400, 413, 414, 431, 501, 505}
  {
    hide LineOf, ParseRequestLine, ParseHeaders, ParseBody, Has, Decompose;
    var line := LineOf(s, lim.maxRequestLine);
    if line.Line? {
      LineStatus(line.text);
      HeadersStatus(s[line.used..], lim, end, NOTHING);
      var block := ParseHeaders(s[line.used..], lim, end, NOTHING);
      if block.HeaderBlock? { BodyCodes(s[line.used..][block.used..], block.fs, lim, end); }
    }
  }

  lemma BodyCodes(s: string, fs: Fields, lim: Limits, end: IoError)
    ensures var out := ParseBody(s, fs, lim, end);
      out.BadBody? && out.fault.Refused? ==> out.fault.status in {400, 413, 501}
  {
    ChunksStatus(s, lim, end, "");
    hide Chunks, ContainsToken, Has, Get, ParseInt;
  }
}

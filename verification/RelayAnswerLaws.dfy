/** The relay reads what the server writes: relayConn's decoder on a serialized response. */
module RelayAnswerLaws {
  import opened Text
  import opened HeaderFields
  import opened HeaderLookup
  import HeaderNames
  import opened RequestWire
  import opened Responses
  import opened Decoders
  import opened ResponseLaws

  /** Names the relay does not pass on to the client. */
  predicate Withheld(name: string) {
    Stripped(name) || ToLower(name) == "content-length"
  }

  lemma WithheldNames(name: string)
    requires Canonical(name) == name
    ensures Withheld(name) <==>
      name == "Content-Length" || name == "Connection" || name == "Keep-Alive"
      || name == "Transfer-Encoding" || name == "Date" || name == "Server"
    ensures ToLower(name) == "content-length" <==> name == "Content-Length"
  {
    hide Canonical, ToLower, IsToken;
    HeaderNames.Known(HeaderNames.ContentLength);
    HeaderNames.Known(HeaderNames.Connection);
    HeaderNames.Known(HeaderNames.KeepAlive);
    HeaderNames.Known(HeaderNames.TransferEncoding);
    HeaderNames.Known(HeaderNames.Date);
    HeaderNames.Known(HeaderNames.Server);
    var l := ToLower(name);
    if l == "content-length" { CanonicalFold(name, "Content-Length"); }
    if l == "connection" { CanonicalFold(name, "Connection"); }
    if l == "keep-alive" { CanonicalFold(name, "Keep-Alive"); }
    if l == "transfer-encoding" { CanonicalFold(name, "Transfer-Encoding"); }
    if l == "date" { CanonicalFold(name, "Date"); }
    if l == "server" { CanonicalFold(name, "Server"); }
  }

  // ----- the header block -----

  /** What the decoder's loop body does with a header line it has split. */
  function KeepHeader(h: Header, kept: Kept): Kept {
    if ToLower(h.name) == "content-length" then kept.(length := ParseInt(h.value, 10).Ignoring())
    else if Stripped(h.name) then kept
    else kept.(headers := kept.headers + [h])
  }

  function FoldKeep(hs: seq<Header>, kept: Kept): Kept
    decreases |hs|
  {
    if hs == [] then kept else FoldKeep(hs[1..], KeepHeader(hs[0], kept))
  }

  predicate TrimmedLine(h: Header) {
    PlainLine(h) && Trimmed(h.value, SPACES)
  }

  lemma KeepLineBack(h: Header, kept: Kept)
    requires TrimmedLine(h)
    ensures KeepLine(h.Text(), kept) == KeepHeader(h, kept)
  {
    hide Cut, TrimSpace, ToLower, Stripped, ParseInt, PlainLine;
    PlainText(h);
    TrimDropsBlank(h.value);
  }

  lemma {:induction false} ScanBlockBack(hs: seq<Header>, rest: string, kept: Kept)
    requires forall k :: 0 <= k < |hs| ==> TrimmedLine(hs[k])
    ensures ScanBlock(Block(hs) + CRLF + rest, kept) == Head(FoldKeep(hs, kept), |Block(hs)| + 2)
    decreases |hs|
  {
    hide RawLine, Chomp, TrimmedLine, KeepLine, KeepHeader;
    if hs == [] {
      assert PlainValue("");
      LineBack("", rest);
      assert Block(hs) + CRLF + rest == "" + CRLF + rest && "" + CRLF == CRLF;
    } else {
      var h, more := hs[0], Block(hs[1..]) + CRLF + rest;
      assert PlainLine(h) by { TrimmedIsPlain(h); }
      PlainText(h);
      LineBack(h.Text(), more);
      KeepLineBack(h, kept);
      assert Block(hs) + CRLF + rest == h.Line() + more;
      assert (h.Line() + more)[|h.Line()|..] == more;
      ScanBlockBack(hs[1..], rest, KeepHeader(h, kept));
    }
  }

  lemma TrimmedIsPlain(h: Header)
    requires TrimmedLine(h)
    ensures PlainLine(h)
  {
  }

  function PassedOn(hs: seq<Header>): seq<Header> {
    if hs == [] then []
    else (if Withheld(hs[0].name) then [] else [hs[0]]) + PassedOn(hs[1..])
  }

  lemma {:induction false} FoldKeepIs(hs: seq<Header>, kept: Kept, n: nat)
    requires n < INT64_LIMIT
    requires forall k :: 0 <= k < |hs| ==> Canonical(hs[k].name) == hs[k].name
    requires forall k :: 0 <= k < |hs| && hs[k].name == "Content-Length" ==> hs[k].value == Itoa(n)
    ensures FoldKeep(hs, kept) == Kept(kept.headers + PassedOn(hs), if HasLengthLine(hs) then n else kept.length)
    decreases |hs|
  {
    hide Canonical, Itoa, Withheld, KeepHeader;
    if hs == [] {
      assert kept.headers + PassedOn(hs) == kept.headers;
    } else {
      var h := hs[0];
      KeepHeaderIs(h, kept, n);
      var next := KeepHeader(h, kept);
      FoldKeepIs(hs[1..], next, n);
      assert next.headers + PassedOn(hs[1..]) == kept.headers + PassedOn(hs);
    }
  }

  lemma KeepHeaderIs(h: Header, kept: Kept, n: nat)
    requires n < INT64_LIMIT && Canonical(h.name) == h.name
    requires h.name == "Content-Length" ==> h.value == Itoa(n)
    ensures KeepHeader(h, kept) == Kept(
      kept.headers + (if Withheld(h.name) then [] else [h]), if h.name == "Content-Length" then n else kept.length)
  {
    hide Canonical, ToLower, Itoa, ParseInt, Stripped;
    WithheldNames(h.name);
    ParseIntOfItoa(n);
    assert kept.headers + [] == kept.headers;
  }

  // ----- setting the headers on the client's response -----

  lemma {:induction false} PassedOnAppend(a: seq<Header>, b: seq<Header>)
    ensures PassedOn(a + b) == PassedOn(a) + PassedOn(b)
    decreases |a|
  {
    hide Withheld;
    if a == [] {
      assert a + b == b;
    } else {
      assert (a + b)[0] == a[0] && (a + b)[1..] == a[1..] + b;
      PassedOnAppend(a[1..], b);
    }
  }

  lemma {:induction false} PassedOnSpread(name: string, values: seq<string>)
    ensures PassedOn(Spread(name, values)) == if Withheld(name) then [] else Spread(name, values)
    decreases |values|
  {
    hide Withheld;
    var hs := Spread(name, values);
    if values != [] {
      assert hs[1..] == Spread(name, values[1..]);
      PassedOnSpread(name, values[1..]);
      assert hs == [hs[0]] + hs[1..];
    }
  }

  lemma PassedOnField(f: Field, more: Fields)
    ensures PassedOn(Flatten([f] + more)) ==
      (if Withheld(f.name) then [] else Spread(f.name, f.values)) + PassedOn(Flatten(more))
  {
    hide Withheld;
    assert ([f] + more)[1..] == more;
    PassedOnSpread(f.name, f.values);
    PassedOnAppend(Spread(f.name, f.values), Flatten(more));
  }

  lemma {:induction false} SetAllAppend(base: Fields, a: seq<Header>, b: seq<Header>)
    ensures SetAll(base, a + b) == SetAll(SetAll(base, a), b)
    decreases |a|
  {
    hide Set;
    if a == [] {
      assert a + b == b;
    } else {
      assert (a + b)[0] == a[0] && (a + b)[1..] == a[1..] + b;
      SetAllAppend(Set(base, a[0].name, a[0].value), a[1..], b);
    }
  }

  /** Of the lines of one name the last one stays. */
  lemma {:induction false} SetAllSpread(base: Fields, name: string, values: seq<string>, other: string)
    requires WellFormed(base) && values != [] && Canonical(name) == name && Canonical(other) == other
    ensures var r := SetAll(base, Spread(name, values));
      WellFormed(r) && ValuesAt(r, other) == if other == name then [values[|values| - 1]] else ValuesAt(base, other)
    decreases |values|
  {
    hide Set, ValuesAt, Canonical, WellFormed;
    var hs := Spread(name, values);
    var next := Set(base, name, values[0]);
    SetLaw(base, name, values[0], other);
    assert Values(next, other) == ValuesAt(next, other) && Values(base, other) == ValuesAt(base, other);
    assert hs[0] == Header(name, values[0]) && hs[1..] == Spread(name, values[1..]);
    if |values| == 1 {
      assert SetAll(next, hs[1..]) == next;
    } else {
      SetAllSpread(next, name, values[1..], other);
    }
  }

  /** Setting the passed-on lines of distinct fields overwrites exactly those names, with the last value of each. */
  lemma {:induction false} SetAllLookup(base: Fields, fs: Fields, name: string)
    requires WellFormed(base) && WellFormed(fs) && Canonical(name) == name
    ensures var r, vs := SetAll(base, PassedOn(Flatten(fs))), ValuesAt(fs, name);
      WellFormed(r) && ValuesAt(r, name) == if !Withheld(name) && vs != [] then [vs[|vs| - 1]] else ValuesAt(base, name)
    decreases |fs|
  {
    hide Canonical, Withheld, Set, SetAll;
    if fs == [] {
      SetNothing(base);
    } else {
      var f, more := fs[0], fs[1..];
      assert [f] + more == fs;
      DistinctTail(fs);
      PassedOnField(f, more);
      ConsLookup(f, more, name);
      NotNamed(more, f.name);
      hide ValuesAt;
      if Withheld(f.name) {
        assert [] + PassedOn(Flatten(more)) == PassedOn(Flatten(more));
        SetAllLookup(base, more, name);
      } else {
        SetAllAppend(base, Spread(f.name, f.values), PassedOn(Flatten(more)));
        SetAllSpread(base, f.name, f.values, name);
        SetAllLookup(SetAll(base, Spread(f.name, f.values)), more, name);
      }
    }
  }

  lemma SetNothing(base: Fields)
    ensures SetAll(base, PassedOn(Flatten([]))) == base
  {
  }

  lemma NotNamed(fs: Fields, name: string)
    requires name !in Names(fs)
    ensures ValuesAt(fs, name) == []
  {
    FindIsNamed(fs, name);
  }

  // ----- the theorem -----

  /** No value begins or ends with a blank; a name may have any number of them. */
  ghost predicate TrimmedFields(fs: Fields) {
    forall i, j :: 0 <= i < |fs| && 0 <= j < |fs[i].values| ==> Trimmed(fs[i].values[j], SPACES)
  }

  lemma TrimmedPut(fs: Fields, name: string, value: string)
    requires TrimmedFields(fs) && Trimmed(value, SPACES)
    ensures TrimmedFields(Put(fs, name, [value])) && TrimmedFields(Remove(fs, name))
  {
    hide Trimmed, Find;
    var r, d, i := Put(fs, name, [value]), Remove(fs, name), Find(fs, name);
    assert forall k :: 0 <= k < |r| ==> r[k] == Field(name, [value]) || (k < |fs| && r[k] == fs[k]);
    assert forall k :: 0 <= k < |d| ==> d[k] == fs[if k < i then k else k + 1];
  }

  lemma FinalTrimmed(r: Response, keepAlive: bool, date: string)
    requires TrimmedFields(r.fields) && Trimmed(date, SPACES)
    ensures TrimmedFields(FinalFields(r, keepAlive, date))
  {
    hide Canonical, TrimmedFields, Put, Remove, Itoa, Has, Trimmed;
    assert Trimmed("PulseHTTP/1.0", SPACES) && Trimmed("keep-alive", SPACES) && Trimmed("close", SPACES) by { TrimmedWords(); }
    ItoaPlainValue(|r.body|);
    var a, b := Canonical("Date"), Canonical("Server");
    TrimmedPut(r.fields, a, date);
    var fs := Defaulted(r.fields, "Date", date);
    TrimmedPut(fs, b, "PulseHTTP/1.0");
    var fs' := Defaulted(fs, "Server", "PulseHTTP/1.0");
    TrimmedPut(fs', Canonical("Content-Length"), Itoa(|r.body|));
    var fs'' := Framed(fs', r.status, |r.body|);
    TrimmedPut(fs'', Canonical("Connection"), if keepAlive then "keep-alive" else "close");
  }

  lemma TrimmedWords()
    ensures Trimmed("PulseHTTP/1.0", SPACES) && Trimmed("keep-alive", SPACES) && Trimmed("close", SPACES)
  {
  }

  lemma {:induction false} TrimmedLines(fs: Fields)
    requires Safe(fs) && TrimmedFields(fs)
    ensures forall k :: 0 <= k < |Flatten(fs)| ==> TrimmedLine(Flatten(fs)[k])
  {
    hide PlainName, PlainValue, Trimmed, Flatten;
    forall k | 0 <= k < |Flatten(fs)| ensures TrimmedLine(Flatten(fs)[k]) {
      FlattenElements(fs, k);
      var i :| 0 <= i < |fs| && Flatten(fs)[k].name == fs[i].name && Flatten(fs)[k].value in fs[i].values;
    }
  }

  /** The length a serialized response announces; -1 when its status forbids a body. */
  function Announced(r: Response): int {
    if Bodyless(r.status) then -1 else |r.body|
  }

  lemma AnsweredBlock(r: Response, keepAlive: bool, date: string, rest: string)
    requires Sendable(r, date) && TrimmedFields(r.fields) && Trimmed(date, SPACES)
    ensures var fs := FinalFields(r, keepAlive, date);
      ScanBlock(Block(Flatten(fs)) + CRLF + rest, Kept([], -1)) ==
      Head(Kept(PassedOn(Flatten(fs)), Announced(r)), |Block(Flatten(fs))| + 2)
  {
    hide Canonical, ToLower, IsToken, Safe, WellFormed, FinalFields, Flatten, Itoa, ValuesAt, Bodyless;
    hide TrimmedLine, TrimmedFields, Trimmed, PlainLine;
    var fs := FinalFields(r, keepAlive, date);
    HeaderNames.Known(HeaderNames.ContentLength);
    FinalLaw(r, keepAlive, date, "Content-Length");
    FinalTrimmed(r, keepAlive, date);
    LinesOfFields(fs, "Content-Length");
    TrimmedLines(fs);
    FoldKeepIs(Flatten(fs), Kept([], -1), |r.body|);
    LengthLineIsThere(Flatten(fs));
    ScanBlockBack(Flatten(fs), rest, Kept([], -1));
    assert [] + PassedOn(Flatten(fs)) == PassedOn(Flatten(fs));
  }

  /** What the relay makes of hs, and of a body of that announced length at the start of tail. */
  function Answered(status: int, hs: seq<Header>, head: nat, length: int, tail: string, cap: int, end: IoError): RelayOut {
    match UpstreamBody(tail, length, cap, end)
    case None => RelayError
    case Some(body) => RelayOut.Answer(status, hs, body, head + |body|, length >= 0)
  }

  lemma DecodeAssembled(
    line: string, head: string, tail: string, status: int, hs: seq<Header>, length: int, cap: int, end: IoError)
    requires RawLine(line + (head + tail)) == Some(line) && UpstreamStatus(line) == Some(status)
    requires ScanBlock(head + tail, Kept([], -1)) == Head(Kept(hs, length), |head|)
    ensures RelayDecode(line + (head + tail), cap, end) == Answered(status, hs, |line| + |head|, length, tail, cap, end)
  {
    hide RawLine, UpstreamStatus, ScanBlock;
    assert (line + (head + tail))[|line|..] == head + tail && (head + tail)[|head|..] == tail;
  }

  /** The relay on any serialized response and whatever follows it on the connection: status and headers are
      the server's, and the body is looked for in the bytes behind the header block. */
  lemma RelayReadsHead(r: Response, keepAlive: bool, date: string, rest: string, cap: int, end: IoError)
    requires Sendable(r, date) && TrimmedFields(r.fields) && Trimmed(date, SPACES)
    ensures var wire, fs := Serialized(r, "HTTP/1.1", keepAlive, date), FinalFields(r, keepAlive, date);
      |SentBody(r)| <= |wire| && RelayDecode(wire + rest, cap, end) ==
        Answered(r.status, PassedOn(Flatten(fs)), |wire| - |SentBody(r)|, Announced(r), SentBody(r) + rest, cap, end)
  {
    hide Sendable, StatusLine, FinalFields, Flatten, Block, RawLine, UpstreamStatus, Bodyless, Announced, SentBody;
    hide TrimmedFields, Trimmed, ScanBlock, PassedOn, RelayDecode, Answered;
    var line, fs := StatusLine("HTTP/1.1", r.status), FinalFields(r, keepAlive, date);
    var head, tail := Block(Flatten(fs)) + CRLF, SentBody(r) + rest;
    SendableStatus(r, date);
    StatusLineBack(r.status, head + tail);
    AnsweredBlock(r, keepAlive, date, tail);
    DecodeAssembled(line + CRLF, head, tail, r.status, PassedOn(Flatten(fs)), Announced(r), cap, end);
    assert Serialized(r, "HTTP/1.1", keepAlive, date) + rest == line + CRLF + (head + tail);
  }

  /** The full law of the relay reading what this server sends. A response with a body is recovered and its last
      byte read. After a HEAD response the announced length is taken out of what follows, and the connection
      parked, or the relay fails when that is too short. After a status without a body everything up to the end
      of the stream is taken for the body, and the connection never parked. */
  lemma RelayReadsAny(r: Response, keepAlive: bool, date: string, rest: string, cap: int, end: IoError)
    requires Sendable(r, date) && TrimmedFields(r.fields) && Trimmed(date, SPACES)
    ensures var wire := Serialized(r, "HTTP/1.1", keepAlive, date);
      var hs := PassedOn(Flatten(FinalFields(r, keepAlive, date)));
      RelayDecode(wire + rest, cap, end) ==
        if Bodyless(r.status) then
          if |rest| > cap || end != EOF then RelayError else RelayOut.Answer(r.status, hs, rest, |wire| + |rest|, false)
        else if |r.body| > cap then RelayError
        else if !r.isHead then RelayOut.Answer(r.status, hs, r.body, |wire|, true)
        else if |rest| < |r.body| then RelayError
        else RelayOut.Answer(r.status, hs, rest[..|r.body|], |wire| + |r.body|, true)
  {
    hide Sendable, FinalFields, Flatten, TrimmedFields, Trimmed, PassedOn, RelayDecode, Serialized, Bodyless;
    RelayReadsHead(r, keepAlive, date, rest, cap, end);
    assert "" + rest == rest;
    assert (r.body + rest)[..|r.body|] == r.body;
  }

  /** Whatever an upstream sends: an answer starts with HTTP/1. and has a body of at most cap bytes, taken unbroken
      from the stream; a parked connection has been read exactly to the body's end, and a body without an announced
      length is all there is. */
  lemma AnswersAreWhole(s: string, cap: int, end: IoError)
    ensures var out := RelayDecode(s, cap, end);
      out.Answer? ==>
        && "HTTP/1." <= s && |out.body| <= out.used <= |s| && |out.body| <= cap && out.body == s[out.used - |out.body|..out.used]
        && (!out.reusable ==> out.used == |s| && end == EOF)
  {
    hide UpstreamStatus, ScanBlock;
    var line := RawLine(s);
    if line.Some? {
      var n := |line.value|;
      if UpstreamStatus(line.value).Some? { StatusStarts(line.value); }
      assert line.value <= s;
      hide RawLine;
      var block := ScanBlock(s[n..], Kept([], -1));
      if block.Head? {
        assert s[n..][block.used..] == s[n + block.used..];
      }
    }
  }

  /** A line of an upstream's header block that has no colon changes nothing. */
  lemma ColonlessIsSkipped(text: string, kept: Kept)
    requires ':' !in text
    ensures KeepLine(text, kept) == kept
  {
    IndexIs(text, ':', |text|);
  }

  lemma StatusStarts(line: string)
    requires UpstreamStatus(line).Some?
    ensures "HTTP/1." <= line
  {
    TrimRightSpec(line, CRLF);
    var text := TrimRight(line, CRLF);
    assert Cut(text, ' ').before <= text <= line;
    hide TrimRight, ParseInt, Cut;
  }

  lemma SendableStatus(r: Response, date: string)
    requires Sendable(r, date)
    ensures -INT64_LIMIT <= r.status < INT64_LIMIT
  {
    hide Safe, WellFormed, PlainValue;
  }

  /** In the case the protocol intends: the relay recovers status and body, consumes the response to its last
      byte and parks the connection. */
  lemma RelayReadsServer(r: Response, keepAlive: bool, date: string, rest: string, cap: int, end: IoError)
    requires Sendable(r, date) && TrimmedFields(r.fields) && Trimmed(date, SPACES)
    requires !r.isHead && !Bodyless(r.status) && |r.body| <= cap
    ensures var wire, fs := Serialized(r, "HTTP/1.1", keepAlive, date), FinalFields(r, keepAlive, date);
      RelayDecode(wire + rest, cap, end) == RelayOut.Answer(r.status, PassedOn(Flatten(fs)), r.body, |wire|, true)
  {
    hide Sendable, FinalFields, Flatten, TrimmedFields, Trimmed, PassedOn, RelayDecode, Serialized, Bodyless;
    RelayReadsAny(r, keepAlive, date, rest, cap, end);
  }

  /** And for every name passed on, the client's response gets the last value that the upstream's handler gave it. */
  lemma RelayKeepsHeaders(r: Response, keepAlive: bool, date: string, base: Fields, name: string)
    requires Sendable(r, date) && WellFormed(base) && Canonical(name) == name
    ensures var vs := ValuesAt(r.fields, name);
      ValuesAt(SetAll(base, PassedOn(Flatten(FinalFields(r, keepAlive, date)))), name) ==
        if !Withheld(name) && vs != [] then [vs[|vs| - 1]] else ValuesAt(base, name)
  {
    hide Canonical, Withheld, Safe, WellFormed, FinalFields, Flatten, ValuesAt, Trimmed, PassedOn, SetAll, Bodyless;
    FinalLaw(r, keepAlive, date, name);
    SetAllLookup(base, FinalFields(r, keepAlive, date), name);
    WithheldNames(name);
  }

  /** So a header passed on arrives as the handler gave it if and only if it has one value. */
  lemma RelayKeepsExactly(r: Response, keepAlive: bool, date: string, base: Fields, name: string)
    requires Sendable(r, date) && WellFormed(base) && Canonical(name) == name
    requires !Withheld(name) && ValuesAt(r.fields, name) != []
    ensures ValuesAt(SetAll(base, PassedOn(Flatten(FinalFields(r, keepAlive, date)))), name) == ValuesAt(r.fields, name)
            <==> |ValuesAt(r.fields, name)| == 1
  {
    hide Canonical, Withheld, Sendable, WellFormed, FinalFields, Flatten, ValuesAt, PassedOn, SetAll;
    RelayKeepsHeaders(r, keepAlive, date, base, name);
    var vs := ValuesAt(r.fields, name);
    assert |vs| == 1 ==> vs == [vs[0]];
  }
}

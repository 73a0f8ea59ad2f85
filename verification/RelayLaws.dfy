/** Relay re-framing: the request the upstream's parser reads is the request the client sent. */
module RelayLaws {
  import opened Text
  import opened HeaderFields
  import opened RequestWire
  import opened HeaderLookup
  import HeaderNames
  import opened RelayRequest

  // ----- what an accepted request looks like -----

  predicate NameOk(name: string) {
    name != "" && ':' !in name && ' ' !in name && '\t' !in name && LF !in name
  }

  predicate ValueOk(value: string) {
    Trimmed(value, SPACES) && LF !in value
  }

  ghost predicate Clean(fs: Fields) {
    forall i :: 0 <= i < |fs| ==> NameOk(fs[i].name) && forall j :: 0 <= j < |fs[i].values| ==> ValueOk(fs[i].values[j])
  }

  lemma {:induction false} LineFromPlain(s: string, max: int, i: nat)
    requires i <= |s| && LF !in s[..i] && LineFrom(s, max, i).Line?
    ensures LF !in LineFrom(s, max, i).text
    decreases |s| - i
  {
    if s[i] != LF {
      assert s[..i + 1] == s[..i] + [s[i]];
      LineFromPlain(s, max, i + 1);
    } else {
      assert TrimSuffix(s[..i + 1], LF) == s[..i];
    }
  }

  lemma LinePlain(s: string, max: int)
    requires LineOf(s, max).Line?
    ensures LF !in LineOf(s, max).text
  {
    LineFromPlain(s, max, 0);
  }

  lemma HeaderLineOk(text: string)
    requires LF !in text && ParseHeaderLine(text).Some?
    ensures NameOk(ParseHeaderLine(text).value.name) && ValueOk(ParseHeaderLine(text).value.value)
  {
    hide TrimSpace, IndexOf;
    var cut := Cut(text, ':');
    IndexSpec(text, ':');
    TrimIsTrimmed(cut.after, SPACES);
    assert TrimSpace(cut.after) == Trim(cut.after, SPACES) by { TrimSpaceIs(cut.after); }
  }

  lemma TrimSpaceIs(s: string)
    ensures TrimSpace(s) == Trim(s, SPACES)
  {
  }

  lemma CanonicalNameOk(name: string)
    requires NameOk(name)
    ensures NameOk(Canonical(name)) && Canonical(Canonical(name)) == Canonical(name)
  {
    CanonicalIdempotent(name);
    if IsToken(name) {
      var r := Capitalize(name);
      forall i | 0 <= i < |r| ensures IsTokenChar(r[i]) {
        CaseOfLower(name[i]);
      }
    }
  }

  lemma AddClean(fs: Fields, h: Header)
    requires Clean(fs) && WellFormed(fs) && NameOk(h.name) && ValueOk(h.value)
    ensures Clean(Add(fs, h.name, h.value)) && WellFormed(Add(fs, h.name, h.value))
  {
    hide Canonical, NameOk, ValueOk, Find;
    AddLaw(fs, h.name, h.value, h.name);
    CanonicalNameOk(h.name);
  }

  lemma {:induction false} HeadersClean(s: string, lim: Limits, end: IoError, got: Collected)
    requires ParseHeaders(s, lim, end, got).HeaderBlock? && Clean(got.fs) && WellFormed(got.fs)
    ensures Clean(ParseHeaders(s, lim, end, got).fs) && WellFormed(ParseHeaders(s, lim, end, got).fs)
    decreases |s|
  {
    hide NextHeader, Add, Clean, WellFormed;
    var step := NextHeader(s, lim, end, got.total);
    if step.Taken? {
      TakenOk(s, lim, end, got.total);
      AddClean(got.fs, step.h);
      HeadersClean(s[step.used..], lim, end, got.Take(step.h, step.size));
    }
  }

  lemma TakenOk(s: string, lim: Limits, end: IoError, total: nat)
    requires NextHeader(s, lim, end, total).Taken?
    ensures var h := NextHeader(s, lim, end, total).h; NameOk(h.name) && ValueOk(h.value)
  {
    hide LineOf, ParseHeaderLine, NameOk, ValueOk;
    LinePlain(s, lim.maxHeaderLine);
    HeaderLineOk(LineOf(s, lim.maxHeaderLine).text);
  }

  predicate TargetOk(target: string) {
    "/" <= target && ' ' !in target && LF !in target
  }

  lemma RequestLineOk(line: string)
    requires LF !in line && ParseRequestLine(line).RequestLine?
    ensures var rl := ParseRequestLine(line); KnownMethod(rl.verb) && TargetOk(rl.target)
  {
    hide Split, KnownMethod;
    SplitParts(line, ' ', 1);
  }

  /** Everything the re-framing proof needs to know about a request the parser accepted. */
  ghost predicate Sound(req: Request) {
    && KnownMethod(req.verb) && TargetOk(req.rawTarget) && Clean(req.headers) && WellFormed(req.headers)
    && Decompose(req.rawTarget) == Some((req.path, req.query))
  }

  lemma AcceptedIsSound(s: string, lim: Limits, end: IoError, remote: string)
    requires Parse(s, lim, end, remote).Parsed?
    ensures Sound(Parse(s, lim, end, remote).req)
  {
    hide LineOf, ParseRequestLine, ParseHeaders, ParseBody, Has, Decompose, Clean, WellFormed, KnownMethod, TargetOk;
    LinePlain(s, lim.maxRequestLine);
    var line := LineOf(s, lim.maxRequestLine);
    RequestLineOk(line.text);
    EmptyClean();
    HeadersClean(s[line.used..], lim, end, NOTHING);
  }

  lemma EmptyClean()
    ensures Clean([]) && WellFormed([])
  {
  }

  // ----- reading back a header block -----

  predicate LineFits(h: Header, max: int) {
    NameOk(h.name) && ValueOk(h.value) && |h.Text()| + 2 <= max
  }

  /** The bytes of the header lines, without terminators. */
  function TextSize(hs: seq<Header>): nat {
    if hs == [] then 0 else |hs[0].Text()| + TextSize(hs[1..])
  }

  lemma HeaderLineBack(h: Header)
    requires NameOk(h.name) && ValueOk(h.value)
    ensures ParseHeaderLine(h.Text()) == Some(h)
    ensures LF !in h.Text() && h.Text() != "" && h.Text()[|h.Text()| - 1] != '\r'
  {
    hide TrimSpace, Cut, Trimmed;
    assert h.Text() == h.name + [':'] + (" " + h.value);
    CutAt(h.name, ':', " " + h.value);
    TrimDropsBlank(h.value);
    if h.value != "" {
      TrimmedEnd(h.value);
      assert h.Text()[|h.Text()| - 1] == h.value[|h.value| - 1];
    }
  }

  lemma TrimmedEnd(s: string)
    requires Trimmed(s, SPACES) && s != ""
    ensures s[|s| - 1] != '\r'
  {
    assert '\r' == SPACES[5];
  }

  lemma NextHeaderBack(h: Header, rest: string, lim: Limits, end: IoError, total: nat)
    requires LineFits(h, lim.maxHeaderLine) && total + |h.Text()| <= lim.maxHeaderBytes
    ensures NextHeader(h.Line() + rest, lim, end, total) == Taken(h, |h.Text()|, |h.Line()|)
  {
    hide LineOf, ParseHeaderLine, NameOk, ValueOk;
    HeaderLineBack(h);
    LineOfText(h.Text(), rest, lim.maxHeaderLine);
  }

  lemma BlankBack(rest: string, lim: Limits, end: IoError, total: nat)
    requires 2 <= lim.maxHeaderLine
    ensures NextHeader(CRLF + rest, lim, end, total) == Blank(2)
  {
    hide LineOf;
    LineOfText("", rest, lim.maxHeaderLine);
    assert "" + CRLF + rest == CRLF + rest;
  }

  lemma {:induction false} AddAllGrows(fs: Fields, hs: seq<Header>)
    ensures |AddAll(fs, hs)| >= |fs|
    decreases |hs|
  {
    if hs != [] { AddAllGrows(Add(fs, hs[0].name, hs[0].value), hs[1..]); }
  }

  /** A written header block reads back as its lines, added in order. */
  lemma {:induction false} BlockBack(hs: seq<Header>, rest: string, lim: Limits, end: IoError, got: Collected)
    requires forall k :: 0 <= k < |hs| ==> LineFits(hs[k], lim.maxHeaderLine)
    requires 2 <= lim.maxHeaderLine && got.total + TextSize(hs) <= lim.maxHeaderBytes
    requires |AddAll(got.fs, hs)| <= lim.maxHeaderCount
    ensures ParseHeaders(Block(hs) + CRLF + rest, lim, end, got) ==
            HeaderBlock(AddAll(got.fs, hs), |Block(hs)| + 2)
    decreases |hs|
  {
    hide NextHeader, Add, LineFits;
    if hs == [] {
      BlankBack(rest, lim, end, got.total);
      assert Block(hs) + CRLF + rest == CRLF + rest;
    } else {
      var h, more := hs[0], Block(hs[1..]) + CRLF + rest;
      assert Block(hs) + CRLF + rest == h.Line() + more;
      assert LineFits(h, lim.maxHeaderLine);
      FitsText(h, lim.maxHeaderLine);
      NextHeaderBack(h, more, lim, end, got.total);
      assert (h.Line() + more)[|h.Line()|..] == more;
      var next := got.Take(h, |h.Text()|);
      AddAllGrows(next.fs, hs[1..]);
      BlockBack(hs[1..], rest, lim, end, next);
    }
  }

  lemma FitsText(h: Header, max: int)
    requires LineFits(h, max)
    ensures |h.Line()| == |h.Text()| + 2
  {
  }

  // ----- the fields of the upstream request -----

  lemma {:induction false} ForwardedElement(fs: Fields, host: string, k: nat)
    requires k < |Forwarded(fs, host)|
    ensures exists i :: 0 <= i < |fs| && !HopByHop(fs[i].name) && Forwarded(fs, host)[k] == ForwardedField(fs[i], host)
  {
    hide HopByHop, ForwardedField;
    var first := if HopByHop(fs[0].name) then 0 else 1;
    if k >= first {
      ForwardedElement(fs[1..], host, k - first);
      var i :| 0 <= i < |fs| - 1 && !HopByHop(fs[1..][i].name)
               && Forwarded(fs[1..], host)[k - first] == ForwardedField(fs[1..][i], host);
      assert fs[1..][i] == fs[i + 1];
    } else {
      assert Forwarded(fs, host)[k] == ForwardedField(fs[0], host);
    }
  }

  /** Whether and where a name survives. */
  lemma {:induction false} ForwardedFind(fs: Fields, host: string, name: string)
    requires Distinct(fs)
    ensures Distinct(Forwarded(fs, host))
    ensures name in Names(Forwarded(fs, host)) <==> name in Names(fs) && !HopByHop(name)
    ensures ValuesAt(Forwarded(fs, host), name) ==
      if HopByHop(name) then [] else ForwardedField(Field(name, ValuesAt(fs, name)), host).values
  {
    hide HopByHop, ForwardedField;
    if fs == [] {
      FieldShape(Field(name, []), host);
      assert ValuesAt(fs, name) == [];
    } else {
      var f, rest := fs[0], Forwarded(fs[1..], host);
      DistinctTail(fs);
      ForwardedFind(fs[1..], host, name);
      ForwardedFind(fs[1..], host, f.name);
      FieldShape(f, host);
      ConsLookup(f, fs[1..], name);
      assert [f] + fs[1..] == fs;
      if HopByHop(f.name) {
        assert [] + rest == rest;
      } else {
        ConsLookup(ForwardedField(f, host), rest, name);
        ConsDistinct(ForwardedField(f, host), rest);
        assert f == Field(f.name, f.values);
      }
    }
  }

  /** Canonical names the relay treats specially. */
  lemma SpecialNames(name: string)
    requires Canonical(name) == name
    ensures HopByHop(name) <==>
      name == "Connection" || name == "Keep-Alive" || name == "Transfer-Encoding" || name == "Content-Length"
    ensures IsForwardedFor(name) <==> name == "X-Forwarded-For"
  {
    hide Canonical, ToLower, IsToken;
    HeaderNames.Known(HeaderNames.Connection);
    HeaderNames.Known(HeaderNames.KeepAlive);
    HeaderNames.Known(HeaderNames.TransferEncoding);
    HeaderNames.Known(HeaderNames.ContentLength);
    HeaderNames.Known(HeaderNames.XForwardedFor);
    var l := ToLower(name);
    if l == "connection" { CanonicalFold(name, "Connection"); }
    if l == "keep-alive" { CanonicalFold(name, "Keep-Alive"); }
    if l == "transfer-encoding" { CanonicalFold(name, "Transfer-Encoding"); }
    if l == "content-length" { CanonicalFold(name, "Content-Length"); }
    if l == "x-forwarded-for" { CanonicalFold(name, "X-Forwarded-For"); }
  }

  lemma ForwardedForIsNamed(fs: Fields)
    requires WellFormed(fs)
    ensures HasForwardedFor(fs) <==> "X-Forwarded-For" in Names(fs)
  {
    hide Canonical, IsForwardedFor;
    forall i | 0 <= i < |fs| ensures IsForwardedFor(fs[i].name) <==> fs[i].name == "X-Forwarded-For" {
      SpecialNames(fs[i].name);
    }
  }

  lemma OwnLookup(fs: Fields, host: string, size: nat, name: string)
    ensures var own := OwnFields(fs, host, size);
      && Distinct(own)
      && Names(own) == {"Content-Length", "Connection"} + (if HasForwardedFor(fs) then {} else {"X-Forwarded-For"})
      && ValuesAt(own, name) ==
        if name == "Content-Length" then [Itoa(size)] else if name == "Connection" then ["keep-alive"]
        else if name == "X-Forwarded-For" && !HasForwardedFor(fs) then [host] else []
  {
    hide HasForwardedFor, Itoa, Find;
    var l, c, x := Field("Content-Length", [Itoa(size)]), Field("Connection", ["keep-alive"]), Field("X-Forwarded-For", [host]);
    PairLookup(l, c, name);
    if HasForwardedFor(fs) {
      assert [] + [l, c] == [l, c];
    } else {
      ConsLookup(x, [l, c], name);
      ConsDistinct(x, [l, c]);
    }
  }

  /** The value list of a name in the upstream request: the framing and hop-by-hop names are dropped or
      re-derived, X-Forwarded-For is extended or added, and every other name keeps its values. */
  function RelayedValues(fs: Fields, host: string, size: nat, name: string): seq<string> {
    if name == "Content-Length" then [Itoa(size)]
    else if name == "Connection" then ["keep-alive"]
    else if name == "Keep-Alive" || name == "Transfer-Encoding" then []
    else if name != "X-Forwarded-For" then ValuesAt(fs, name)
    else if ValuesAt(fs, name) == [] then [host]
    else seq(|ValuesAt(fs, name)|, i requires 0 <= i < |ValuesAt(fs, name)| => ValuesAt(fs, name)[i] + ", " + host)
  }

  lemma RelayedLookup(fs: Fields, host: string, size: nat, name: string)
    requires WellFormed(fs) && Canonical(name) == name
    ensures ValuesAt(RelayFields(fs, host, size), name) == RelayedValues(fs, host, size, name)
    ensures Distinct(RelayFields(fs, host, size))
  {
    hide Canonical, HopByHop, HasForwardedFor, Itoa;
    SpecialNames(name);
    ForwardedFind(fs, host, name);
    ForwardedForIsNamed(fs);
    OwnLookup(fs, host, size, name);
    NamedHasValues(fs, name);
    NamedHasValues(fs, "X-Forwarded-For");
    AppendLookup(Forwarded(fs, host), OwnFields(fs, host, size), name);
    DisjointOwn(fs, host, size);
  }

  lemma DisjointOwn(fs: Fields, host: string, size: nat)
    requires WellFormed(fs)
    ensures Names(Forwarded(fs, host)) !! Names(OwnFields(fs, host, size))
  {
    hide Canonical, HopByHop, HasForwardedFor, Itoa;
    HeaderNames.Known(HeaderNames.Connection);
    HeaderNames.Known(HeaderNames.ContentLength);
    HeaderNames.Known(HeaderNames.XForwardedFor);
    SpecialNames("Connection");
    SpecialNames("Content-Length");
    ForwardedFind(fs, host, "Connection");
    ForwardedFind(fs, host, "Content-Length");
    ForwardedFind(fs, host, "X-Forwarded-For");
    ForwardedForIsNamed(fs);
    OwnLookup(fs, host, size, "");
  }

  // ----- the theorem -----

  /** The limits of the upstream's parser leave room for what the relay writes. */
  ghost predicate Fits(req: Request, host: string, lim: Limits) {
    var fs := RelayFields(req.headers, host, |req.body|);
    && |RelayRequestLine(req)| + 2 <= lim.maxRequestLine && 2 <= lim.maxHeaderLine
    && (forall k :: 0 <= k < |Flatten(fs)| ==> |Flatten(fs)[k].Text()| + 2 <= lim.maxHeaderLine)
    && TextSize(Flatten(fs)) <= lim.maxHeaderBytes && |fs| <= lim.maxHeaderCount
    && |req.body| <= lim.maxBodyBytes && |req.body| <= MAX_SLICE
  }

  /** A client address as net.SplitHostPort yields it. */
  predicate HostOk(host: string) {
    host != "" && ValueOk(host)
  }

  lemma ForwardedFieldClean(f: Field, host: string)
    requires NameOk(f.name) && f.values != [] && HostOk(host)
    requires forall j :: 0 <= j < |f.values| ==> ValueOk(f.values[j])
    ensures ForwardedField(f, host).values != []
    ensures forall j :: 0 <= j < |f.values| ==> ValueOk(ForwardedField(f, host).values[j])
  {
    var g := ForwardedField(f, host);
    forall j | 0 <= j < |f.values| ensures ValueOk(g.values[j]) {
      if IsForwardedFor(f.name) {
        JoinedOk(f.values[j], host);
        assert g.values[j] == f.values[j] + ", " + host;
      }
    }
  }

  lemma JoinedOk(v: string, host: string)
    requires ValueOk(v) && HostOk(host)
    ensures ValueOk(v + ", " + host)
  {
    var r := v + ", " + host;
    assert r[|r| - 1] == host[|host| - 1];
    assert r[0] == if v == "" then ',' else v[0];
  }

  lemma OwnClean(fs: Fields, host: string, size: nat)
    requires HostOk(host)
    ensures Clean(OwnFields(fs, host, size))
    ensures forall i :: 0 <= i < |OwnFields(fs, host, size)| ==>
      Canonical(OwnFields(fs, host, size)[i].name) == OwnFields(fs, host, size)[i].name
      && OwnFields(fs, host, size)[i].values != []
  {
    hide Canonical, ToLower, IsToken, Itoa, HasForwardedFor, NameOk, ValueOk;
    HeaderNames.Known(HeaderNames.Connection);
    HeaderNames.Known(HeaderNames.ContentLength);
    HeaderNames.Known(HeaderNames.XForwardedFor);
    ItoaOk(size);
    OwnNamesOk();
    HostValueOk(host);
  }

  lemma OwnNamesOk()
    ensures NameOk("X-Forwarded-For") && NameOk("Content-Length") && NameOk("Connection") && ValueOk("keep-alive")
  {
    hide NameOk, ValueOk;
    NameOkIs("X-Forwarded-For");
    NameOkIs("Content-Length");
    NameOkIs("Connection");
    KeepAliveOk();
  }

  lemma KeepAliveOk()
    ensures ValueOk("keep-alive")
  {
  }

  lemma NameOkIs(name: string)
    requires name != "" && forall c | c in name :: c != ':' && c != ' ' && c != '\t' && c != LF
    ensures NameOk(name)
  {
  }

  lemma HostValueOk(host: string)
    requires HostOk(host)
    ensures ValueOk(host)
  {
  }

  lemma ItoaOk(n: nat)
    ensures ValueOk(Itoa(n))
  {
    hide Itoa;
    ItoaPlain(n);
  }

  lemma RelayedClean(fs: Fields, host: string, size: nat)
    requires Clean(fs) && WellFormed(fs) && HostOk(host)
    ensures Clean(RelayFields(fs, host, size)) && WellFormed(RelayFields(fs, host, size))
  {
    hide Canonical, HopByHop, IsForwardedFor, HasForwardedFor, NameOk, ValueOk, HostOk, OwnFields;
    var a, b := Forwarded(fs, host), OwnFields(fs, host, size);
    OwnClean(fs, host, size);
    forall k | 0 <= k < |a|
      ensures NameOk(a[k].name) && Canonical(a[k].name) == a[k].name && a[k].values != []
      ensures forall j :: 0 <= j < |a[k].values| ==> ValueOk(a[k].values[j])
    {
      ForwardedElement(fs, host, k);
      var i :| 0 <= i < |fs| && !HopByHop(fs[i].name) && a[k] == ForwardedField(fs[i], host);
      ForwardedFieldClean(fs[i], host);
      FieldShape(fs[i], host);
    }
    HeaderNames.Known(HeaderNames.Host);
    RelayedLookup(fs, host, size, "Host");
  }

  lemma LinesFit(fs: Fields, max: int)
    requires Clean(fs) && forall k :: 0 <= k < |Flatten(fs)| ==> |Flatten(fs)[k].Text()| + 2 <= max
    ensures forall k :: 0 <= k < |Flatten(fs)| ==> LineFits(Flatten(fs)[k], max)
  {
    hide NameOk, ValueOk, Flatten;
    forall k | 0 <= k < |Flatten(fs)| ensures LineFits(Flatten(fs)[k], max) {
      FlattenElements(fs, k);
      var i :| 0 <= i < |fs| && Flatten(fs)[k].name == fs[i].name && Flatten(fs)[k].value in fs[i].values;
    }
  }

  lemma RequestLineBack(verb: string, target: string)
    requires KnownMethod(verb) && TargetOk(target)
    ensures ParseRequestLine(verb + " " + target + " HTTP/1.1") == RequestLine(verb, target, "HTTP/1.1")
    ensures LF !in verb + " " + target + " HTTP/1.1"
  {
    hide Split;
    var tail := "HTTP/1.1";
    assert ' ' !in verb && LF !in verb;
    assert verb + " " + target + " HTTP/1.1" == verb + [' '] + (target + [' '] + tail);
    SplitAt(verb, ' ', target + [' '] + tail);
    SplitAt(target, ' ', tail);
    SplitNone(tail, ' ');
    assert [verb] + ([target] + [tail]) == [verb, target, tail];
  }

  lemma BodyBack(fs: Fields, host: string, body: string, rest: string, lim: Limits, end: IoError)
    requires WellFormed(fs) && |body| <= lim.maxBodyBytes && |body| <= MAX_SLICE
    ensures ParseBody(body + rest, RelayFields(fs, host, |body|), lim, end) == Body(body, |body|)
  {
    hide Canonical, RelayFields, ToLower, IsToken, Itoa, Chunks, ParseInt;
    var out := RelayFields(fs, host, |body|);
    HeaderNames.Known(HeaderNames.TransferEncoding);
    HeaderNames.Known(HeaderNames.ContentLength);
    RelayedLookup(fs, host, |body|, "Transfer-Encoding");
    RelayedLookup(fs, host, |body|, "Content-Length");
    ParseIntOfItoa(|body|);
    assert ValuesAt(out, "Content-Length") == [Itoa(|body|)];
    TransferEncodingGone(fs, host, |body|);
    assert (body + rest)[..|body|] == body;
  }

  lemma TransferEncodingGone(fs: Fields, host: string, size: nat)
    requires WellFormed(fs)
    ensures Find(RelayFields(fs, host, size), "Transfer-Encoding") == |RelayFields(fs, host, size)|
  {
    hide Canonical, HopByHop, HasForwardedFor, Itoa, ToLower, IsToken;
    HeaderNames.Known(HeaderNames.TransferEncoding);
    SpecialNames("Transfer-Encoding");
    ForwardedFind(fs, host, "Transfer-Encoding");
    OwnLookup(fs, host, size, "Transfer-Encoding");
    AppendLookup(Forwarded(fs, host), OwnFields(fs, host, size), "Transfer-Encoding");
    FindIsNamed(RelayFields(fs, host, size), "Transfer-Encoding");
  }

  /** The upstream's view of a relayed request. */
  function Relayed(req: Request, host: string, remote: string): Request {
    req.(proto := "HTTP/1.1", headers := RelayFields(req.headers, host, |req.body|), remoteAddr := remote)
  }

  lemma HeadBack(req: Request, host: string, rest: string, lim: Limits, end: IoError)
    requires Sound(req) && HostOk(host) && Fits(req, host, lim)
    ensures var fs := RelayFields(req.headers, host, |req.body|);
      ParseHeaders(Block(Flatten(fs)) + CRLF + rest, lim, end, NOTHING) == HeaderBlock(fs, |Block(Flatten(fs))| + 2)
  {
    hide RelayFields, Clean, LineFits, TextSize, Flatten;
    var fs := RelayFields(req.headers, host, |req.body|);
    RelayedClean(req.headers, host, |req.body|);
    LinesFit(fs, lim.maxHeaderLine);
    AddAllFlatten(fs, 0);
    assert fs[..0] == [] && fs[0..] == fs;
    BlockBack(Flatten(fs), rest, lim, end, NOTHING);
  }

  lemma HostKept(fs: Fields, host: string, size: nat)
    requires WellFormed(fs)
    ensures Has(RelayFields(fs, host, size), "Host") <==> Has(fs, "Host")
  {
    hide Canonical, HopByHop, HasForwardedFor, Itoa, ToLower, IsToken;
    HeaderNames.Known(HeaderNames.Host);
    SpecialNames("Host");
    ForwardedFind(fs, host, "Host");
    OwnLookup(fs, host, size, "Host");
    var a, b := Forwarded(fs, host), OwnFields(fs, host, size);
    AppendLookup(a, b, "Host");
    FindIsNamed(fs, "Host");
    FindIsNamed(a + b, "Host");
  }

  lemma AfterLine(req: Request, host: string, rest: string, lim: Limits, end: IoError, remote: string, n: nat)
    requires Sound(req) && HostOk(host) && Fits(req, host, lim)
    ensures var head := Block(Flatten(RelayFields(req.headers, host, |req.body|))) + CRLF;
      var rl := RequestLine(req.verb, req.rawTarget, "HTTP/1.1");
      ParseAfterLine(head + (req.body + rest), rl, n, lim, end, remote) ==
        if Has(req.headers, "Host") then Parsed(Relayed(req, host, remote), n + |head| + |req.body|)
        else Faulted(Refused(400, NoCause))
  {
    hide RelayFields, Flatten, ParseHeaders, ParseBody, Has, Clean, KnownMethod, TargetOk, Fits, Decompose, HostOk;
    var fs := RelayFields(req.headers, host, |req.body|);
    var head := Block(Flatten(fs)) + CRLF;
    HeadBack(req, host, req.body + rest, lim, end);
    HostKept(req.headers, host, |req.body|);
    assert |req.body| <= lim.maxBodyBytes && |req.body| <= MAX_SLICE by { FitsBody(req, host, lim); }
    BodyBack(req.headers, host, req.body, rest, lim, end);
    assert (head + (req.body + rest))[|head|..] == req.body + rest;
  }

  lemma FitsBody(req: Request, host: string, lim: Limits)
    requires Fits(req, host, lim)
    ensures |req.body| <= lim.maxBodyBytes && |req.body| <= MAX_SLICE
    ensures |RelayRequestLine(req)| + 2 <= lim.maxRequestLine
  {
    hide RelayFields, Flatten, TextSize;
  }

  /** What the upstream reads: the same request, exactly when the client's carried a Host field. */
  lemma RelayReframes(req: Request, host: string, rest: string, lim: Limits, end: IoError, remote: string)
    requires Sound(req) && HostOk(host) && Fits(req, host, lim)
    ensures Parse(RelayBytes(req, host) + rest, lim, end, remote) ==
      if Has(req.headers, "Host") then Parsed(Relayed(req, host, remote), |RelayBytes(req, host)|)
      else Faulted(Refused(400, NoCause))
  {
    hide RelayFields, Flatten, ParseAfterLine, Has, Clean, KnownMethod, TargetOk, Fits, HostOk, LineOf, ParseRequestLine, Block;
    var line := RelayRequestLine(req);
    var head := Block(Flatten(RelayFields(req.headers, host, |req.body|))) + CRLF;
    FitsBody(req, host, lim);
    RequestLineBack(req.verb, req.rawTarget);
    assert line[|line| - 1] == '1';
    var after := head + (req.body + rest);
    LineOfText(line, after, lim.maxRequestLine);
    assert RelayBytes(req, host) + rest == line + CRLF + after;
    assert (line + CRLF + after)[|line| + 2..] == after;
    AfterLine(req, host, rest, lim, end, remote, |line| + 2);
  }

  /** Meaning-preserving re-framing, for every request the client-side parser accepts: same method, target,
      path, query and body, and RelayedValues for every header name. */
  lemma ReframingPreservesMeaning(
    s: string, lim: Limits, end: IoError, remote: string,
    host: string, rest: string, lim': Limits, end': IoError, remote': string, key: string)
    requires Parse(s, lim, end, remote).Parsed? && HostOk(host)
    requires Fits(Parse(s, lim, end, remote).req, host, lim')
    ensures var req := Parse(s, lim, end, remote).req;
      var out := Parse(RelayBytes(req, host) + rest, lim', end', remote');
      && (out.Parsed? <==> Has(req.headers, "Host"))
      && (out.Parsed? ==>
        && out.used == |RelayBytes(req, host)|
        && out.req.verb == req.verb && out.req.rawTarget == req.rawTarget
        && out.req.path == req.path && out.req.query == req.query && out.req.body == req.body
        && Values(out.req.headers, key) == RelayedValues(req.headers, host, |req.body|, Canonical(key)))
  {
    hide Parse, RelayFields, RelayedValues, Canonical, Has, Clean, Fits, HostOk, KnownMethod, TargetOk;
    var req := Parse(s, lim, end, remote).req;
    AcceptedIsSound(s, lim, end, remote);
    RelayReframes(req, host, rest, lim', end', remote');
    CanonicalIdempotent(key);
    RelayedLookup(req.headers, host, |req.body|, Canonical(key));
  }
}

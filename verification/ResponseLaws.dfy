/** Round trips of responses: serialize followed by either decoder gives the response back. */
module ResponseLaws {
  import opened Text
  import opened HeaderFields
  import opened HeaderLookup
  import HeaderNames
  import opened Responses
  import opened Decoders

  // ----- the serialized fields -----

  predicate PlainName(name: string) {
    ':' !in name && '\r' !in name && LF !in name
  }

  predicate PlainValue(value: string) {
    '\r' !in value && LF !in value
  }

  predicate PlainLine(h: Header) {
    PlainName(h.name) && PlainValue(h.value)
  }

  /** Header fields that cannot disturb the line structure. */
  ghost predicate Safe(fs: Fields) {
    forall i :: 0 <= i < |fs| ==>
      PlainName(fs[i].name) && forall j :: 0 <= j < |fs[i].values| ==> PlainValue(fs[i].values[j])
  }

  lemma SafePut(fs: Fields, name: string, value: string)
    requires Safe(fs) && PlainName(name) && PlainValue(value)
    ensures Safe(Put(fs, name, [value])) && Safe(Remove(fs, name))
  {
    hide PlainName, PlainValue, Find;
    var r, d, i := Put(fs, name, [value]), Remove(fs, name), Find(fs, name);
    assert forall k :: 0 <= k < |r| ==> r[k] == Field(name, [value]) || (k < |fs| && r[k] == fs[k]);
    assert forall k :: 0 <= k < |d| ==> d[k] == fs[if k < i then k else k + 1];
  }

  lemma SafeSet(fs: Fields, key: string, value: string)
    requires Safe(fs) && WellFormed(fs) && Canonical(key) == key && PlainName(key) && PlainValue(value)
    ensures Safe(Set(fs, key, value)) && Safe(Del(fs, key))
    ensures WellFormed(Set(fs, key, value)) && WellFormed(Del(fs, key))
  {
    hide Canonical, Put, Remove, Safe, PlainName, PlainValue;
    SafePut(fs, key, value);
    SetLaw(fs, key, value, key);
    DelLaw(fs, key, key);
  }

  lemma ItoaPlainValue(n: int)
    ensures PlainValue(Itoa(n)) && ' ' !in Itoa(n) && Trimmed(Itoa(n), SPACES)
  {
    hide Itoa;
    ItoaPlain(n);
  }

  /** The value list of a name after serialization. */
  function FinalValues(r: Response, keepAlive: bool, date: string, name: string): seq<string> {
    if name == "Connection" then [if keepAlive then "keep-alive" else "close"]
    else if name == "Content-Length" then if Bodyless(r.status) then [] else [Itoa(|r.body|)]
    else if name == "Date" && ValuesAt(r.fields, name) == [] then [date]
    else if name == "Server" && ValuesAt(r.fields, name) == [] then ["PulseHTTP/1.0"]
    else ValuesAt(r.fields, name)
  }

  lemma DefaultedLaw(fs: Fields, key: string, value: string, name: string)
    requires Safe(fs) && WellFormed(fs) && Canonical(key) == key && PlainName(key) && PlainValue(value)
    requires Canonical(name) == name
    ensures Safe(Defaulted(fs, key, value)) && WellFormed(Defaulted(fs, key, value))
    ensures ValuesAt(Defaulted(fs, key, value), name) ==
      if name == key && ValuesAt(fs, name) == [] then [value] else ValuesAt(fs, name)
  {
    hide Canonical, Safe, PlainName, PlainValue, Set;
    SafeSet(fs, key, value);
    SetLaw(fs, key, value, name);
    NamedHasValues(fs, key);
    FindIsNamed(fs, key);
  }

  lemma FramedLaw(fs: Fields, status: int, size: nat, name: string)
    requires Safe(fs) && WellFormed(fs) && Canonical(name) == name
    ensures Safe(Framed(fs, status, size)) && WellFormed(Framed(fs, status, size))
    ensures ValuesAt(Framed(fs, status, size), name) ==
      if name != "Content-Length" then ValuesAt(fs, name) else if Bodyless(status) then [] else [Itoa(size)]
  {
    hide Canonical, ToLower, IsToken, Safe, Set, Del, Itoa, Bodyless;
    HeaderNames.Known(HeaderNames.ContentLength);
    ItoaPlainValue(size);
    SafeSet(fs, "Content-Length", Itoa(size));
    SetLaw(fs, "Content-Length", Itoa(size), name);
    DelLaw(fs, "Content-Length", name);
  }

  /** serialize's header fields: exactly one Content-Length, equal to the body length, or none when the status
      forbids a body; exactly one Connection; Date and Server filled in; everything else as the handler set it. */
  lemma FinalLaw(r: Response, keepAlive: bool, date: string, name: string)
    requires Safe(r.fields) && WellFormed(r.fields) && PlainValue(date) && Canonical(name) == name
    ensures Safe(FinalFields(r, keepAlive, date)) && WellFormed(FinalFields(r, keepAlive, date))
    ensures ValuesAt(FinalFields(r, keepAlive, date), name) == FinalValues(r, keepAlive, date, name)
  {
    hide Canonical, ToLower, IsToken, Safe, WellFormed, Set, Defaulted, Framed, Itoa, Bodyless, ValuesAt;
    HeaderNames.Known(HeaderNames.Date);
    HeaderNames.Known(HeaderNames.Server);
    HeaderNames.Known(HeaderNames.Connection);
    assert PlainName("Date") && PlainName("Server") && PlainName("Connection");
    assert PlainValue("PulseHTTP/1.0") && PlainValue("keep-alive") && PlainValue("close");
    DefaultedLaw(r.fields, "Date", date, name);
    var fs := Defaulted(r.fields, "Date", date);
    DefaultedLaw(fs, "Server", "PulseHTTP/1.0", name);
    var fs' := Defaulted(fs, "Server", "PulseHTTP/1.0");
    FramedLaw(fs', r.status, |r.body|, name);
    var fs'' := Framed(fs', r.status, |r.body|);
    var v := if keepAlive then "keep-alive" else "close";
    SafeSet(fs'', "Connection", v);
    SetLaw(fs'', "Connection", v, name);
    assert Values(Set(fs'', "Connection", v), name) == ValuesAt(Set(fs'', "Connection", v), name);
    assert Values(fs'', name) == ValuesAt(fs'', name);
  }

  // ----- reading header lines back -----

  lemma LineBack(text: string, rest: string)
    requires PlainValue(text)
    ensures RawLine(text + CRLF + rest) == Some(text + CRLF) && Chomp(text + CRLF) == text
  {
    hide RawLine;
    var buf := text + CRLF;
    assert buf[..|buf| - 1] == text + "\r";
    RawLineFound(buf + rest, buf);
    if text != "" {
      assert text[|text| - 1] in text;
    }
    TrimRightAppend(text, CRLF, CRLF);
  }

  lemma PlainText(h: Header)
    requires PlainLine(h)
    ensures PlainValue(h.Text()) && h.Text() != "" && |h.Line()| == |h.Text()| + 2
    ensures Cut(h.Text(), ':') == Cutting(h.name, " " + h.value, true)
  {
    hide Cut;
    assert h.Text() == h.name + [':'] + (" " + h.value);
    CutAt(h.name, ':', " " + h.value);
  }

  /** What readResponse makes of a header line it reads. */
  function HeaderLength(h: Header, have: int): int {
    if EqualFold(h.name, "Content-Length") then ParseInt(TrimSpace(" " + h.value), 10).Ignoring() else have
  }

  function FoldLength(hs: seq<Header>, have: int): int
    decreases |hs|
  {
    if hs == [] then have else FoldLength(hs[1..], HeaderLength(hs[0], have))
  }

  lemma {:induction false} ScanLengthBack(hs: seq<Header>, rest: string, have: int)
    requires forall k :: 0 <= k < |hs| ==> PlainLine(hs[k])
    ensures ScanLength(Block(hs) + CRLF + rest, have) == Length(FoldLength(hs, have), |Block(hs)| + 2)
    decreases |hs|
  {
    hide RawLine, Chomp, PlainLine, EqualFold, ParseInt, TrimSpace, Cut;
    if hs == [] {
      assert PlainValue("");
      LineBack("", rest);
      assert Block(hs) + CRLF + rest == "" + CRLF + rest && "" + CRLF == CRLF;
    } else {
      var h, more := hs[0], Block(hs[1..]) + CRLF + rest;
      PlainText(h);
      LineBack(h.Text(), more);
      assert Block(hs) + CRLF + rest == h.Line() + more;
      assert (h.Line() + more)[|h.Line()|..] == more;
      ScanLengthBack(hs[1..], rest, HeaderLength(h, have));
    }
  }

  predicate HasLengthLine(hs: seq<Header>) {
    hs != [] && (hs[0].name == "Content-Length" || HasLengthLine(hs[1..]))
  }

  lemma {:induction false} LengthLineIsThere(hs: seq<Header>)
    ensures HasLengthLine(hs) <==> exists k :: 0 <= k < |hs| && hs[k].name == "Content-Length"
  {
    if hs != [] {
      LengthLineIsThere(hs[1..]);
      assert forall k :: 0 <= k < |hs| - 1 ==> hs[1..][k] == hs[k + 1];
    }
  }

  lemma {:induction false} FoldLengthIs(hs: seq<Header>, have: int, n: nat)
    requires n < INT64_LIMIT
    requires forall k :: 0 <= k < |hs| ==> Canonical(hs[k].name) == hs[k].name
    requires forall k :: 0 <= k < |hs| && hs[k].name == "Content-Length" ==> hs[k].value == Itoa(n)
    ensures FoldLength(hs, have) == if HasLengthLine(hs) then n else have
    decreases |hs|
  {
    hide Canonical, ToLower, IsToken, Itoa, ParseInt, TrimSpace;
    if hs != [] {
      var h := hs[0];
      HeaderNames.Known(HeaderNames.ContentLength);
      if EqualFold(h.name, "Content-Length") { CanonicalFold(h.name, "Content-Length"); }
      if h.name == "Content-Length" { LengthBack(n); }
      FoldLengthIs(hs[1..], HeaderLength(h, have), n);
    }
  }

  lemma LengthBack(n: nat)
    requires n < INT64_LIMIT
    ensures ParseInt(TrimSpace(" " + Itoa(n)), 10) == Value(n) && ParseInt(TrimSpace(Itoa(n)), 10) == Value(n)
  {
    hide Itoa, ParseInt;
    ItoaPlainValue(n);
    TrimDropsBlank(Itoa(n));
    TrimKeeps(Itoa(n), SPACES);
    ParseIntOfItoa(n);
  }

  /** The header lines of well-formed fields, seen line by line. */
  lemma LinesOfFields(fs: Fields, name: string)
    requires Safe(fs) && WellFormed(fs)
    ensures forall k :: 0 <= k < |Flatten(fs)| ==> PlainLine(Flatten(fs)[k]) && Canonical(Flatten(fs)[k].name) == Flatten(fs)[k].name
    ensures forall k :: 0 <= k < |Flatten(fs)| && Flatten(fs)[k].name == name ==> Flatten(fs)[k].value in ValuesAt(fs, name)
    ensures (exists k :: 0 <= k < |Flatten(fs)| && Flatten(fs)[k].name == name) <==> ValuesAt(fs, name) != []
  {
    hide Canonical, PlainName, PlainValue, Flatten, Find;
    var hs := Flatten(fs);
    forall k | 0 <= k < |hs|
      ensures PlainLine(hs[k]) && Canonical(hs[k].name) == hs[k].name
      ensures hs[k].name == name ==> hs[k].value in ValuesAt(fs, name)
    {
      FlattenElements(fs, k);
      var i :| 0 <= i < |fs| && hs[k].name == fs[i].name && hs[k].value in fs[i].values;
      FindUnique(fs, i);
    }
    var i := Find(fs, name);
    if i < |fs| {
      FlattenHas(fs, i);
      var k :| 0 <= k < |hs| && hs[k].name == fs[i].name;
    }
  }

  lemma {:induction false} FlattenHas(fs: Fields, i: nat)
    requires i < |fs| && fs[i].values != []
    ensures exists k :: 0 <= k < |Flatten(fs)| && Flatten(fs)[k].name == fs[i].name
  {
    var first := Spread(fs[0].name, fs[0].values);
    if i == 0 {
      assert Flatten(fs)[0] == first[0];
    } else {
      FlattenHas(fs[1..], i - 1);
      var k :| 0 <= k < |Flatten(fs[1..])| && Flatten(fs[1..])[k].name == fs[1..][i - 1].name;
      assert Flatten(fs)[|first| + k] == Flatten(fs[1..])[k];
    }
  }

  // ----- serialize, then readResponse -----

  /** The conditions under which a response can be sent at all and measured in an int64. */
  ghost predicate Sendable(r: Response, date: string) {
    && Safe(r.fields) && WellFormed(r.fields) && PlainValue(date)
    && -INT64_LIMIT <= r.status < INT64_LIMIT && |r.body| < INT64_LIMIT
  }

  /** Which responses have a body on the wire, and a Content-Length. */
  lemma WhoHasABody(r: Response, keepAlive: bool, date: string)
    requires WellFormed(r.fields)
    ensures var bodyless := r.status == 204 || r.status == 304 || (100 <= r.status && r.status <= 199);
      && SentBody(r) == (if bodyless || r.isHead then "" else r.body)
      && Values(Framed(r.fields, r.status, |r.body|), "Content-Length") == if bodyless then [] else [Itoa(|r.body|)]
  {
    hide Canonical, Itoa;
    SetLaw(r.fields, "Content-Length", Itoa(|r.body|), "Content-Length");
    DelLaw(r.fields, "Content-Length", "Content-Length");
    hide Set, Del, Values;
  }

  predicate Printable(value: string) {
    forall i :: 0 <= i < |value| ==> ' ' <= value[i]
  }

  lemma PhrasesEarly(code: int)
    requires code < 304
    ensures Printable(ReasonPhrase(code))
  {
  }

  lemma PhrasesMoved(code: int)
    requires 304 <= code < 404
    ensures Printable(ReasonPhrase(code))
  {
  }

  lemma PhrasesMissing(code: int)
    requires 404 <= code < 409
    ensures Printable(ReasonPhrase(code))
  {
  }

  lemma PhrasesConflict(code: int)
    requires 409 <= code < 413
    ensures Printable(ReasonPhrase(code))
  {
  }

  lemma PhrasesLarge(code: int)
    requires 413 <= code < 429
    ensures Printable(ReasonPhrase(code))
  {
  }

  lemma PhrasesMany(code: int)
    requires 429 <= code < 500
    ensures Printable(ReasonPhrase(code))
  {
  }

  lemma PhrasesBroken(code: int)
    requires 500 <= code < 503
    ensures Printable(ReasonPhrase(code))
  {
  }

  lemma PhrasesLate(code: int)
    requires 503 <= code
    ensures Printable(ReasonPhrase(code))
  {
  }

  lemma PhrasePlain(code: int)
    ensures PlainValue(ReasonPhrase(code))
  {
    hide ReasonPhrase;
    if code < 304 { PhrasesEarly(code); }
    else if code < 404 { PhrasesMoved(code); }
    else if code < 409 { PhrasesMissing(code); }
    else if code < 413 { PhrasesConflict(code); }
    else if code < 429 { PhrasesLarge(code); }
    else if code < 500 { PhrasesMany(code); }
    else if code < 503 { PhrasesBroken(code); }
    else { PhrasesLate(code); }
  }

  lemma StatusLineBack(status: int, rest: string)
    requires -INT64_LIMIT <= status < INT64_LIMIT
    ensures var line := StatusLine("HTTP/1.1", status);
      && RawLine(line + CRLF + rest) == Some(line + CRLF)
      && StatusIn(line + CRLF) == Some(status) && UpstreamStatus(line + CRLF) == Some(status)
  {
    hide Itoa, ReasonPhrase, RawLine, Chomp, ParseInt, Cut;
    var line, code, phrase := StatusLine("HTTP/1.1", status), Itoa(status), ReasonPhrase(status);
    PhrasePlain(status);
    ItoaPlainValue(status);
    ParseIntOfItoa(status);
    assert PlainValue(line);
    LineBack(line, rest);
    assert line == "HTTP/1.1" + [' '] + (code + [' '] + phrase);
    assert line + CRLF == "HTTP/1.1" + [' '] + (code + [' '] + (phrase + CRLF));
    CutAt("HTTP/1.1", ' ', code + [' '] + phrase);
    CutAt("HTTP/1.1", ' ', code + [' '] + (phrase + CRLF));
    CutAt(code, ' ', phrase);
    CutAt(code, ' ', phrase + CRLF);
  }

  /** The bytes of the body that readResponse waits for but a HEAD response does not carry. */
  function Unsent(r: Response): nat {
    if Bodyless(r.status) then 0 else |r.body| - |SentBody(r)|
  }

  lemma AnnouncedLength(r: Response, keepAlive: bool, date: string, rest: string)
    requires Sendable(r, date)
    ensures var block := Block(Flatten(FinalFields(r, keepAlive, date)));
      ScanLength(block + CRLF + rest, 0) == Length(if Bodyless(r.status) then 0 else |r.body|, |block| + 2)
  {
    hide Canonical, ToLower, IsToken, Safe, WellFormed, FinalFields, Flatten, Itoa, ValuesAt, Bodyless, PlainLine;
    var fs := FinalFields(r, keepAlive, date);
    HeaderNames.Known(HeaderNames.ContentLength);
    FinalLaw(r, keepAlive, date, "Content-Length");
    LinesOfFields(fs, "Content-Length");
    FoldLengthIs(Flatten(fs), 0, |r.body|);
    LengthLineIsThere(Flatten(fs));
    ScanLengthBack(Flatten(fs), rest, 0);
  }

  /** readResponse on a serialized response followed by anything: its status, consuming the response and, for a
      HEAD response, whatever follows up to the length it announced. */
  lemma ReadBack(r: Response, keepAlive: bool, date: string, rest: string)
    requires Sendable(r, date)
    ensures var wire := Serialized(r, "HTTP/1.1", keepAlive, date);
      ReadResponse(wire + rest) == if |rest| < Unsent(r) then ReadError else Got(r.status, |wire| + Unsent(r))
  {
    hide Safe, WellFormed, StatusLine, FinalFields, Flatten, Block, RawLine, StatusIn, Bodyless;
    var line, block := StatusLine("HTTP/1.1", r.status), Block(Flatten(FinalFields(r, keepAlive, date)));
    var after := SentBody(r) + rest;
    var s := block + CRLF + after;
    assert Serialized(r, "HTTP/1.1", keepAlive, date) + rest == line + CRLF + s;
    StatusLineBack(r.status, s);
    assert (line + CRLF + s)[|line + CRLF|..] == s;
    AnnouncedLength(r, keepAlive, date, after);
  }

  datatype Sent = Sent(r: Response, keepAlive: bool, date: string)

  function StreamOf(xs: seq<Sent>): string {
    if xs == [] then "" else Serialized(xs[0].r, "HTTP/1.1", xs[0].keepAlive, xs[0].date) + StreamOf(xs[1..])
  }

  /** Up to n calls of readResponse: the statuses, and the bytes left, or None on an error. */
  function ReadMany(s: string, n: nat): Option<(seq<int>, string)>
    decreases n
  {
    if n == 0 then Some(([], s))
    else
      match ReadResponse(s)
      case ReadError => None
      case Got(status, k) =>
        match ReadMany(s[k..], n - 1)
        case None => None
        case Some((more, left)) => Some(([status] + more, left))
  }

  function Statuses(xs: seq<Sent>): seq<int> {
    if xs == [] then [] else [xs[0].r.status] + Statuses(xs[1..])
  }

  /** A stream of non-HEAD responses reads back as the same statuses in order with nothing left over. */
  lemma {:induction false} StreamRoundTrip(xs: seq<Sent>, rest: string)
    requires forall x | x in xs :: Sendable(x.r, x.date) && !x.r.isHead
    ensures ReadMany(StreamOf(xs) + rest, |xs|) == Some((Statuses(xs), rest))
    decreases |xs|
  {
    hide Sendable, Serialized, ReadResponse;
    if xs == [] {
      assert StreamOf(xs) + rest == rest;
    } else {
      var x, more := xs[0], StreamOf(xs[1..]) + rest;
      var wire := Serialized(x.r, "HTTP/1.1", x.keepAlive, x.date);
      assert StreamOf(xs) + rest == wire + more;
      ReadBack(x.r, x.keepAlive, x.date, more);
      assert (wire + more)[|wire|..] == more;
      StreamRoundTrip(xs[1..], rest);
    }
  }
}

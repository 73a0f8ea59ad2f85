/** The two independent response decoders: the benchmark's readResponse (cmd/pulsebench/main.go) and the
    relay's (proxy/proxy.go). */
module Decoders {
  import opened Text
  import opened HeaderFields
  import opened RequestWire
  import opened Responses

  /** ReadString('\n'): the bytes up to and including the first LF, or an error when there is none. */
  function RawLine(s: string): (line: Option<string>)
    ensures line.Some? ==> 0 < |line.value| <= |s|
  {
    var i := IndexOf(s, LF);
    if i < |s| then Some(s[..i + 1]) else None
  }

  lemma RawLineFound(s: string, buf: string)
    requires buf <= s && buf != "" && buf[|buf| - 1] == LF && LF !in buf[..|buf| - 1]
    ensures RawLine(s) == Some(buf)
  {
    assert forall j :: 0 <= j < |buf| - 1 ==> s[j] == buf[..|buf| - 1][j];
    IndexIs(s, LF, |buf| - 1);
    assert s[..|buf|] == buf;
  }

  lemma RawLineMissing(s: string)
    requires LF !in s
    ensures RawLine(s) == None
  {
    IndexIs(s, LF, |s|);
  }

  method ReadString(r: Reader) returns (line: Option<string>)
    requires r.Valid()
    modifies r`pos
    ensures r.Valid() && line == RawLine(old(r.Rest()))
    ensures line.Some? ==> r.pos == old(r.pos) + |line.value| && r.Rest() == old(r.Rest())[|line.value|..]
  {
    hide RawLine;
    ghost var s := r.Rest();
    var buf := "";
    while true
      invariant r.Valid() && s == buf + r.Rest() && r.pos == old(r.pos) + |buf|
      invariant LF !in buf
      decreases |r.Rest()|
    {
      var chunk, end := r.ReadSlice();
      Gathered(s, buf, chunk, r.Rest());
      buf := buf + chunk;
      match end
      case Delimiter =>
        RawLineFound(s, buf);
        return Some(buf);
      case BufferFull =>
      case Failed(_) =>
        assert s == buf;
        RawLineMissing(s);
        return None;
    }
  }

  function Chomp(line: string): string {
    TrimRight(line, CRLF)
  }

  // ----- readResponse -----

  datatype LengthOut = Length(n: int, used: nat) | NoLength {
    function Shift(k: nat): LengthOut {
      match this
      case Length(n, used) => Length(n, used + k)
      case NoLength => NoLength
    }
  }

  /** The content length after one more header line. */
  function LengthAfter(text: string, have: int): int {
    var cut := Cut(text, ':');
    if cut.found && EqualFold(cut.before, "Content-Length") then ParseInt(TrimSpace(cut.after), 10).Ignoring() else have
  }

  function ScanLength(s: string, have: int): (out: LengthOut)
    ensures out.Length? ==> out.used <= |s|
    decreases |s|
  {
    match RawLine(s)
    case None => NoLength
    case Some(line) =>
      if Chomp(line) == "" then Length(have, |line|)
      else ScanLength(s[|line|..], LengthAfter(Chomp(line), have)).Shift(|line|)
  }

  datatype ReadOut = Got(status: int, used: nat) | ReadError

  /** The status code of a status line. */
  function StatusIn(line: string): Option<int> {
    var parts := Cut(line, ' ');
    if !parts.found then None
    else
      match ParseInt(Cut(parts.after, ' ').before, 10)
      case Value(n) => Some(n)
      case _ => None
  }

  function ReadResponse(s: string): (out: ReadOut)
    ensures out.Got? ==> 0 < out.used <= |s|
  {
    match RawLine(s)
    case None => ReadError
    case Some(line) =>
      match StatusIn(line)
      case None => ReadError
      case Some(status) =>
        match ScanLength(s[|line|..], 0)
        case NoLength => ReadError
        case Length(n, k) =>
          if n <= 0 then Got(status, |line| + k)
          else if |s| - |line| - k < n then ReadError
          else Got(status, |line| + k + n)
  }

  method ReadLength(r: Reader) returns (out: LengthOut)
    requires r.Valid()
    modifies r`pos
    ensures r.Valid() && out == ScanLength(old(r.Rest()), 0)
    ensures out.Length? ==> r.pos == old(r.pos) + out.used
  {
    hide RawLine, LengthAfter, Chomp;
    ghost var goal := ScanLength(r.Rest(), 0);
    var contentLength, start := 0, r.pos;
    while true
      invariant r.Valid() && start == old(r.pos) <= r.pos
      invariant goal == ScanLength(r.Rest(), contentLength).Shift(r.pos - start)
      decreases |r.Rest()|
    {
      var line := ReadString(r);
      if line.None? {
        return NoLength;
      }
      var text := Chomp(line.value);
      if text == "" {
        return Length(contentLength, r.pos - start);
      }
      contentLength := LengthAfter(text, contentLength);
    }
  }

  method ReadOneResponse(r: Reader) returns (out: ReadOut)
    requires r.Valid()
    modifies r`pos
    ensures r.Valid() && out == ReadResponse(old(r.Rest()))
    ensures out.Got? ==> r.pos == old(r.pos) + out.used
  {
    hide RawLine, StatusIn;
    ghost var s := r.Rest();
    var line := ReadString(r);
    if line.None? {
      return ReadError;
    }
    var status := StatusIn(line.value);
    if status.None? {
      return ReadError;
    }
    ghost var block := r.Rest();
    var length := ReadLength(r);
    assert length.Length? ==> r.Rest() == block[length.used..];
    match length
    case NoLength => return ReadError;
    case Length(n, k) =>
      if n > 0 {
        var data, err := r.ReadFull(n);
        if err.Some? {
          return ReadError;
        }
        return Got(status.value, |line.value| + k + n);
      }
      return Got(status.value, |line.value| + k);
  }

  // ----- the relay's decoder -----

  /** What the relay keeps of the upstream's header block; length -1 means no Content-Length. */
  datatype Kept = Kept(headers: seq<Header>, length: int)
  datatype BlockOut = Head(kept: Kept, used: nat) | BadBlock {
    function Shift(k: nat): BlockOut {
      match this
      case Head(kept, used) => Head(kept, used + k)
      case BadBlock => BadBlock
    }
  }

  predicate Stripped(name: string) {
    var l := ToLower(name);
    l == "connection" || l == "keep-alive" || l == "transfer-encoding" || l == "date" || l == "server"
  }

  function KeepLine(text: string, kept: Kept): Kept {
    var cut := Cut(text, ':');
    if !cut.found then kept
    else
      var value := TrimSpace(cut.after);
      if ToLower(cut.before) == "content-length" then kept.(length := ParseInt(value, 10).Ignoring())
      else if Stripped(cut.before) then kept
      else kept.(headers := kept.headers + [Header(cut.before, value)])
  }

  function ScanBlock(s: string, kept: Kept): (out: BlockOut)
    ensures out.Head? ==> out.used <= |s|
    decreases |s|
  {
    match RawLine(s)
    case None => BadBlock
    case Some(line) =>
      if Chomp(line) == "" then Head(kept, |line|)
      else ScanBlock(s[|line|..], KeepLine(Chomp(line), kept)).Shift(|line|)
  }

  /** An upstream response; reusable means the connection is parked. */
  datatype RelayOut = Answer(status: int, headers: seq<Header>, body: string, used: nat, reusable: bool) | RelayError

  function UpstreamStatus(line: string): Option<int> {
    var parts := Cut(Chomp(line), ' ');
    if !parts.found || !("HTTP/1." <= parts.before) then None
    else
      match ParseInt(Cut(parts.after, ' ').before, 10)
      case Value(n) => Some(n)
      case _ => None
  }

  /** The body after the header block: by Content-Length, else everything up to EOF within the cap. */
  function UpstreamBody(s: string, length: int, cap: int, end: IoError): Option<string> {
    if length >= 0 then
      if length > cap || |s| < length then None else Some(s[..length])
    else if |s| > cap then None
    else if end != EOF then None
    else Some(s)
  }

  function RelayDecode(s: string, cap: int, end: IoError): RelayOut {
    match RawLine(s)
    case None => RelayError
    case Some(line) =>
      match UpstreamStatus(line)
      case None => RelayError
      case Some(status) =>
        match ScanBlock(s[|line|..], Kept([], -1))
        case BadBlock => RelayError
        case Head(kept, k) =>
          match UpstreamBody(s[|line|..][k..], kept.length, cap, end)
          case None => RelayError
          case Some(body) => Answer(status, kept.headers, body, |line| + k + |body|, kept.length >= 0)
  }

  method ReadBlock(r: Reader) returns (out: BlockOut)
    requires r.Valid()
    modifies r`pos
    ensures r.Valid() && out == ScanBlock(old(r.Rest()), Kept([], -1))
    ensures out.Head? ==> r.pos == old(r.pos) + out.used
  {
    hide RawLine, KeepLine, Chomp;
    ghost var goal := ScanBlock(r.Rest(), Kept([], -1));
    var kept, start := Kept([], -1), r.pos;
    while true
      invariant r.Valid() && start == old(r.pos) <= r.pos
      invariant goal == ScanBlock(r.Rest(), kept).Shift(r.pos - start)
      decreases |r.Rest()|
    {
      var line := ReadString(r);
      if line.None? {
        return BadBlock;
      }
      var text := Chomp(line.value);
      if text == "" {
        return Head(kept, r.pos - start);
      }
      kept := KeepLine(text, kept);
    }
  }

  /** io.ReadAll over a LimitReader of cap+1 bytes: what was read, or the stream's error before the limit. */
  method ReadUpTo(r: Reader, limit: nat) returns (data: string, failed: bool)
    requires r.Valid()
    modifies r`pos
    ensures r.Valid()
    ensures |old(r.Rest())| < limit ==> data == old(r.Rest()) && failed == (r.ending != EOF)
    ensures |old(r.Rest())| >= limit ==> |data| == limit && data <= old(r.Rest()) && !failed
    ensures r.pos == old(r.pos) + |data|
  {
    var rest := r.Rest();
    if |rest| < limit {
      data, failed := rest, r.ending != EOF;
    } else {
      data, failed := rest[..limit], false;
    }
    r.pos := r.pos + |data|;
  }

  method ReadUpstreamBody(r: Reader, length: int, cap: int) returns (body: Option<string>)
    requires r.Valid()
    modifies r`pos
    ensures r.Valid() && body == UpstreamBody(old(r.Rest()), length, cap, r.ending)
    ensures body.Some? ==> r.pos == old(r.pos) + |body.value|
  {
    if length >= 0 {
      if length > cap {
        return None;
      }
      var data, err := r.ReadFull(length);
      body := if err.Some? then None else Some(data);
    } else {
      var data, failed := ReadUpTo(r, if cap >= 0 then cap + 1 else 0);
      body := if failed || |data| > cap then None else Some(data);
    }
  }

  /** relayConn's reading half; on success the response writer gets the upstream's answer, else it is untouched. */
  method ReadAnswer(r: Reader, cap: int, w: ResponseWriter) returns (out: RelayOut)
    requires r.Valid() && w.Valid()
    modifies r`pos, w, w.headers, w.body
    ensures r.Valid() && w.Valid() && (w.body == old(w.body) || fresh(w.body)) && w.hijacked == old(w.hijacked)
    ensures out == RelayDecode(old(r.Rest()), cap, r.ending)
    ensures out.Answer? ==> r.pos == old(r.pos) + out.used
    ensures out.RelayError? ==> w.View() == old(w.View()) && w.body == old(w.body)
    ensures out.Answer? ==> w.View() == Response(
      if w.hijacked then old(w.status) else out.status, SetAll(old(w.View()).fields, out.headers), out.body, old(w.isHead))
  {
    hide RawLine, UpstreamStatus, ScanBlock, UpstreamBody;
    var line := ReadString(r);
    if line.None? {
      return RelayError;
    }
    var status := UpstreamStatus(line.value);
    if status.None? {
      return RelayError;
    }
    ghost var head := r.Rest();
    var block := ReadBlock(r);
    assert block.Head? ==> r.Rest() == head[block.used..];
    if block.BadBlock? {
      return RelayError;
    }
    var body := ReadUpstreamBody(r, block.kept.length, cap);
    if body.None? {
      return RelayError;
    }
    out := Answer(status.value, block.kept.headers, body.value, |line.value| + block.used + |body.value|, block.kept.length >= 0);
    w.WriteHeader(status.value);
    SetEach(w, block.kept.headers);
    w.SetBody(body.value);
  }

  /** Setting header lines one by one. */
  function SetAll(fs: Fields, hs: seq<Header>): Fields
    decreases |hs|
  {
    if hs == [] then fs else SetAll(Set(fs, hs[0].name, hs[0].value), hs[1..])
  }

  method SetEach(w: ResponseWriter, hs: seq<Header>)
    requires w.Valid()
    modifies w.headers
    ensures w.Valid() && w.headers.Contents() == SetAll(old(w.headers.Contents()), hs)
  {
    hide Set;
    ghost var goal := SetAll(w.headers.Contents(), hs);
    for i := 0 to |hs|
      invariant w.Valid() && goal == SetAll(w.headers.Contents(), hs[i..])
    {
      assert hs[i..][0] == hs[i] && hs[i..][1..] == hs[i + 1..];
      w.headers.SetKey(hs[i].name, hs[i].value);
    }
  }
}

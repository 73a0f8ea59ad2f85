/** The relay's request encoder (proxy/proxy.go), and the proof that what it writes upstream means what the
    client sent. */
module RelayRequest {
  import opened Text
  import opened HeaderFields
  import opened RequestWire

  // ----- names -----

  predicate HopByHop(name: string) {
    var l := ToLower(name);
    l == "connection" || l == "keep-alive" || l == "transfer-encoding" || l == "content-length"
  }

  predicate IsForwardedFor(name: string) {
    ToLower(name) == "x-forwarded-for"
  }

  // ----- what is written upstream -----

  /** The callback passed to Range, over the remaining header lines. */
  function RelayLines(hs: seq<Header>, host: string): seq<Header> {
    if hs == [] then []
    else
      var h, rest := hs[0], RelayLines(hs[1..], host);
      if HopByHop(h.name) then rest
      else if IsForwardedFor(h.name) then [Header(h.name, h.value + ", " + host)] + rest
      else [h] + rest
  }

  function ForwardedField(f: Field, host: string): Field {
    if IsForwardedFor(f.name)
    then Field(f.name, seq(|f.values|, i requires 0 <= i < |f.values| => f.values[i] + ", " + host))
    else f
  }

  /** The client's fields that survive: hop-by-hop and framing fields dropped, X-Forwarded-For extended. */
  function Forwarded(fs: Fields, host: string): Fields {
    if fs == [] then []
    else (if HopByHop(fs[0].name) then [] else [ForwardedField(fs[0], host)]) + Forwarded(fs[1..], host)
  }

  predicate HasForwardedFor(fs: Fields) {
    exists i :: 0 <= i < |fs| && IsForwardedFor(fs[i].name)
  }

  function OwnFields(fs: Fields, host: string, size: nat): Fields {
    (if HasForwardedFor(fs) then [] else [Field("X-Forwarded-For", [host])])
    + [Field("Content-Length", [Itoa(size)]), Field("Connection", ["keep-alive"])]
  }

  /** The header fields of the upstream request. */
  function RelayFields(fs: Fields, host: string, size: nat): Fields {
    Forwarded(fs, host) + OwnFields(fs, host, size)
  }

  function RelayRequestLine(req: Request): string {
    req.verb + " " + req.rawTarget + " HTTP/1.1"
  }

  function RelayBytes(req: Request, host: string): string {
    RelayRequestLine(req) + CRLF + Block(Flatten(RelayFields(req.headers, host, |req.body|))) + CRLF + req.body
  }

  lemma {:induction false} RelayLinesSnoc(hs: seq<Header>, h: Header, host: string)
    ensures RelayLines(hs + [h], host) == RelayLines(hs, host) + RelayLines([h], host)
  {
    hide HopByHop, IsForwardedFor;
    if hs == [] {
      assert hs + [h] == [h];
    } else {
      assert (hs + [h])[0] == hs[0] && (hs + [h])[1..] == hs[1..] + [h];
      RelayLinesSnoc(hs[1..], h, host);
    }
  }

  lemma RelayLinesOne(h: Header, host: string)
    ensures RelayLines([h], host) ==
      if HopByHop(h.name) then []
      else [Header(h.name, if IsForwardedFor(h.name) then h.value + ", " + host else h.value)]
  {
    hide HopByHop, IsForwardedFor;
    assert [h][1..] == [];
    assert RelayLines([], host) == [];
  }

  lemma {:induction false} RelayLinesAppend(a: seq<Header>, b: seq<Header>, host: string)
    ensures RelayLines(a + b, host) == RelayLines(a, host) + RelayLines(b, host)
    decreases |a|
  {
    hide HopByHop, IsForwardedFor;
    if a == [] {
      assert a + b == b;
    } else {
      assert (a + b)[0] == a[0] && (a + b)[1..] == a[1..] + b;
      RelayLinesAppend(a[1..], b, host);
    }
  }

  lemma {:induction false} RelaySpread(f: Field, n: nat, host: string)
    requires n <= |f.values|
    ensures RelayLines(Spread(f.name, f.values[..n]), host) ==
      if HopByHop(f.name) then []
      else Spread(f.name, ForwardedField(f, host).values[..n])
    decreases n
  {
    hide HopByHop, IsForwardedFor;
    if n > 0 {
      var h := Header(f.name, f.values[n - 1]);
      assert Spread(f.name, f.values[..n]) == Spread(f.name, f.values[..n - 1]) + [h];
      RelaySpread(f, n - 1, host);
      RelayLinesSnoc(Spread(f.name, f.values[..n - 1]), h, host);
      RelayLinesOne(h, host);
    }
  }

  /** Filtering the header lines is filtering the fields. */
  lemma {:induction false} RelayFlatten(fs: Fields, host: string)
    ensures RelayLines(Flatten(fs), host) == Flatten(Forwarded(fs, host))
  {
    hide HopByHop, ForwardedField;
    if fs != [] {
      var f := fs[0];
      RelayFlatten(fs[1..], host);
      RelayLinesAppend(Spread(f.name, f.values), Flatten(fs[1..]), host);
      RelaySpread(f, |f.values|, host);
      var g := ForwardedField(f, host);
      FieldShape(f, host);
      assert f.values[..|f.values|] == f.values && g.values[..|f.values|] == g.values;
      assert ([g] + Forwarded(fs[1..], host))[1..] == Forwarded(fs[1..], host);
      assert [] + Forwarded(fs[1..], host) == Forwarded(fs[1..], host);
    }
  }

  lemma FieldShape(f: Field, host: string)
    ensures ForwardedField(f, host).name == f.name && |ForwardedField(f, host).values| == |f.values|
  {
  }

  lemma BlockOfFields(a: Fields, b: Fields)
    ensures Block(Flatten(a + b)) == Block(Flatten(a)) + Block(Flatten(b))
  {
    FlattenAppend(a, b);
    BlockAppend(Flatten(a), Flatten(b));
  }

  lemma OneLine(name: string, value: string)
    ensures Flatten([Field(name, [value])]) == [Header(name, value)]
    ensures Block([Header(name, value)]) == Header(name, value).Line()
  {
    assert [Field(name, [value])][1..] == [];
    assert Spread(name, [value]) == [Header(name, value)];
    assert Block([Header(name, value)][1..]) == "";
  }

  lemma OwnBlock(fs: Fields, host: string, size: nat)
    ensures Block(Flatten(OwnFields(fs, host, size))) ==
      (if HasForwardedFor(fs) then "" else Header("X-Forwarded-For", host).Line())
      + (Header("Content-Length", Itoa(size)).Line() + Header("Connection", "keep-alive").Line())
  {
    hide HasForwardedFor, Itoa;
    var f, l, c := [Field("X-Forwarded-For", [host])], [Field("Content-Length", [Itoa(size)])], [Field("Connection", ["keep-alive"])];
    OneLine("X-Forwarded-For", host);
    OneLine("Content-Length", Itoa(size));
    OneLine("Connection", "keep-alive");
    BlockOfFields(l, c);
    BlockOfFields(if HasForwardedFor(fs) then [] else f, l + c);
  }

  lemma XffIsNotHop(name: string)
    ensures IsForwardedFor(name) ==> !HopByHop(name)
  {
  }

  /** Some X-Forwarded-For line is among those written for hs. */
  ghost predicate WritesForwarded(hs: seq<Header>) {
    exists j :: 0 <= j < |hs| && !HopByHop(hs[j].name) && IsForwardedFor(hs[j].name)
  }

  lemma WritesAppend(a: seq<Header>, b: seq<Header>)
    ensures WritesForwarded(a + b) <==> WritesForwarded(a) || WritesForwarded(b)
  {
    hide HopByHop, IsForwardedFor;
    assert forall j :: 0 <= j < |a| ==> (a + b)[j] == a[j];
    assert forall j :: 0 <= j < |b| ==> (a + b)[|a| + j] == b[j];
  }

  lemma WritesNext(hs: seq<Header>, i: nat)
    requires i < |hs|
    ensures WritesForwarded(hs[..i + 1]) <==>
            WritesForwarded(hs[..i]) || (!HopByHop(hs[i].name) && IsForwardedFor(hs[i].name))
  {
    hide HopByHop, IsForwardedFor;
    WritesAppend(hs[..i], [hs[i]]);
    assert hs[..i + 1] == hs[..i] + [hs[i]];
    assert [hs[i]][0] == hs[i];
  }

  lemma WritesSpread(name: string, values: seq<string>)
    requires values != []
    ensures WritesForwarded(Spread(name, values)) <==> IsForwardedFor(name)
  {
    XffIsNotHop(name);
    hide HopByHop, IsForwardedFor;
    assert Spread(name, values)[0].name == name;
  }

  lemma {:induction false} LinesNameFields(fs: Fields)
    requires forall i :: 0 <= i < |fs| ==> fs[i].values != []
    ensures HasForwardedFor(fs) <==> WritesForwarded(Flatten(fs))
  {
    hide HopByHop, IsForwardedFor, WritesForwarded;
    if fs == [] {
      assert !WritesForwarded([]) by { NothingForwarded(); }
    } else {
      LinesNameFields(fs[1..]);
      WritesSpread(fs[0].name, fs[0].values);
      WritesAppend(Spread(fs[0].name, fs[0].values), Flatten(fs[1..]));
      assert forall i :: 0 <= i < |fs| - 1 ==> fs[1..][i] == fs[i + 1];
    }
  }

  lemma NothingForwarded()
    ensures !WritesForwarded([])
  {
  }

  lemma RelayLineNext(hs: seq<Header>, i: nat, host: string)
    requires i < |hs|
    ensures var h, before := hs[i], Block(RelayLines(hs[..i], host));
      Block(RelayLines(hs[..i + 1], host)) ==
        if HopByHop(h.name) then before
        else before + Header(h.name, if IsForwardedFor(h.name) then h.value + ", " + host else h.value).Line()
  {
    hide HopByHop, IsForwardedFor;
    var h := hs[i];
    assert hs[..i + 1] == hs[..i] + [h];
    RelayLinesSnoc(hs[..i], h, host);
    RelayLinesOne(h, host);
    BlockAppend(RelayLines(hs[..i], host), RelayLines([h], host));
    OneLine(h.name, h.value);
    OneLine(h.name, h.value + ", " + host);
  }

  /** The Range loop: the surviving client lines, and whether X-Forwarded-For was among them. */
  method WriteHeaders(headers: Headers, host: string) returns (out: string, wrote: bool)
    requires headers.Valid()
    ensures out == Block(Flatten(Forwarded(headers.Contents(), host)))
    ensures wrote == HasForwardedFor(headers.Contents())
  {
    hide HopByHop, IsForwardedFor, WritesForwarded, HasForwardedFor, Forwarded;
    var lines := Flatten(headers.Contents());
    out, wrote := "", false;
    NothingForwarded();
    for i := 0 to |lines|
      invariant out == Block(RelayLines(lines[..i], host))
      invariant wrote <==> WritesForwarded(lines[..i])
    {
      var h := lines[i];
      RelayLineNext(lines, i, host);
      WritesNext(lines, i);
      if !HopByHop(h.name) {
        if IsForwardedFor(h.name) {
          out := out + Header(h.name, h.value + ", " + host).Line();
          wrote := true;
        } else {
          out := out + Header(h.name, h.value).Line();
        }
      }
    }
    assert lines[..|lines|] == lines;
    RelayFlatten(headers.Contents(), host);
    headers.ContentsWellFormed();
    LinesNameFields(headers.Contents());
  }

  /** relayConn's writes, in order. */
  method WriteRequest(req: Request, headers: Headers, host: string) returns (out: string)
    requires headers.Valid() && headers.Contents() == req.headers
    ensures out == RelayBytes(req, host)
  {
    hide HasForwardedFor, Forwarded, Itoa, Block, Flatten;
    out := RelayRequestLine(req) + CRLF;
    var lines, wrote := WriteHeaders(headers, host);
    var own := if wrote then "" else Header("X-Forwarded-For", host).Line();
    own := own + (Header("Content-Length", Itoa(|req.body|)).Line() + Header("Connection", "keep-alive").Line());
    OwnBlock(req.headers, host, |req.body|);
    BlockOfFields(Forwarded(req.headers, host), OwnFields(req.headers, host, |req.body|));
    out := out + (lines + own) + CRLF + req.body;
  }
}

/** The buffered response of httpcore/response.go: its writer, and what serialize puts on the wire. */
module Responses {
  import opened Text
  import opened HeaderFields

  function ReasonPhrase(code: int): string {
    match code
    case 100 => "Continue"
    case 200 => "OK"
    case 201 => "Created"
    case 202 => "Accepted"
    case 204 => "No Content"
    case 301 => "Moved Permanently"
    case 302 => "Found"
    case 304 => "Not Modified"
    case 400 => "Bad Request"
    case 401 => "Unauthorized"
    case 403 => "Forbidden"
    case 404 => "Not Found"
    case 405 => "Method Not Allowed"
    case 408 => "Request Timeout"
    case 409 => "Conflict"
    case 411 => "Length Required"
    case 413 => "Payload Too Large"
    case 414 => "URI Too Long"
    case 415 => "Unsupported Media Type"
    case 429 => "Too Many Requests"
    case 431 => "Request Header Fields Too Large"
    case 500 => "Internal Server Error"
    case 501 => "Not Implemented"
    case 502 => "Bad Gateway"
    case 503 => "Service Unavailable"
    case 504 => "Gateway Timeout"
    case 505 => "HTTP Version Not Supported"
    case _ => "Status"
  }

  predicate Bodyless(status: int) {
    status == 204 || status == 304 || 100 <= status < 200
  }

  /** The buffered response as a value. */
  datatype Response = Response(status: int, fields: Fields, body: string, isHead: bool)

  function Defaulted(fs: Fields, key: string, value: string): Fields {
    if Has(fs, key) then fs else Set(fs, key, value)
  }

  function Framed(fs: Fields, status: int, size: nat): Fields {
    if Bodyless(status) then Del(fs, "Content-Length") else Set(fs, "Content-Length", Itoa(size))
  }

  /** The header fields as serialized. */
  function FinalFields(r: Response, keepAlive: bool, date: string): Fields {
    var fs := Defaulted(Defaulted(r.fields, "Date", date), "Server", "PulseHTTP/1.0");
    Set(Framed(fs, r.status, |r.body|), "Connection", if keepAlive then "keep-alive" else "close")
  }

  function StatusLine(proto: string, status: int): string {
    proto + " " + Itoa(status) + " " + ReasonPhrase(status)
  }

  function SentBody(r: Response): string {
    if r.isHead || Bodyless(r.status) then "" else r.body
  }

  function Serialized(r: Response, proto: string, keepAlive: bool, date: string): string {
    StatusLine(proto, r.status) + CRLF + Block(Flatten(FinalFields(r, keepAlive, date))) + CRLF + SentBody(r)
  }

  // What Error writes after the status.
  function ErrorText(status: int, msg: string): string {
    Itoa(status) + " " + (if msg == "" then ReasonPhrase(status) else msg) + "\n"
  }

  /** The response after Error: the body so far is replaced, unless the response is frozen. */
  function ErrorView(v: Response, hijacked: bool, code: int, msg: string): Response {
    if hijacked then v
    else Response(code, Set(v.fields, "Content-Type", "text/plain; charset=utf-8"), ErrorText(code, msg), v.isHead)
  }

  /** body[..size] is Go's slice, body.Length its capacity. */
  class ResponseWriter {
    var status: int
    const headers: Headers
    var body: array<char>
    var size: nat
    var isHead: bool
    var hijacked: bool

    ghost predicate Valid()
      reads this, headers
    {
      headers.Valid() && size <= body.Length
    }

    function Body(): string
      requires size <= body.Length
      reads this, body
    {
      body[..size]
    }

    function View(): Response
      requires Valid()
      reads this, headers, body
    {
      Response(status, headers.Contents(), Body(), isHead)
    }

    constructor ()
      ensures Valid() && fresh(headers) && fresh(body) && !hijacked
      ensures View() == Response(200, [], "", false)
    {
      status, size, isHead, hijacked := 200, 0, false, false;
      headers := new Headers();
      body := new char[0];
    }

    method WriteHeader(code: int)
      requires Valid()
      modifies this
      ensures Valid() && body == old(body) && hijacked == old(hijacked)
      ensures View() == if hijacked then old(View()) else old(View()).(status := code)
    {
      if !hijacked {
        status := code;
      }
    }

    /** append(w.body[:at], p...): in place when the capacity allows, else into a larger copy. */
    method Append(at: nat, p: string)
      requires Valid() && at <= size
      modifies this`body, this`size, body
      ensures Valid() && (body == old(body) || fresh(body))
      ensures Body() == old(Body())[..at] + p
    {
      if at + |p| > body.Length {
        var capacity: nat :| capacity >= at + |p|;
        var larger := new char[capacity];
        forall i | 0 <= i < at {
          larger[i] := body[i];
        }
        body := larger;
      }
      forall i | 0 <= i < |p| {
        body[at + i] := p[i];
      }
      size := at + |p|;
    }

    method Write(p: string)
      requires Valid()
      modifies this, body
      ensures Valid() && (body == old(body) || fresh(body)) && hijacked == old(hijacked)
      ensures View() == if hijacked then old(View()) else old(View()).(body := old(Body()) + p)
    {
      if !hijacked {
        Append(size, p);
        assert old(Body())[..old(size)] == old(Body());
      }
    }

    method SetBody(b: string)
      requires Valid()
      modifies this, body
      ensures Valid() && (body == old(body) || fresh(body)) && hijacked == old(hijacked)
      ensures View() == old(View()).(body := b)
    {
      Append(0, b);
    }

    method Error(code: int, msg: string)
      requires Valid()
      modifies this, headers, body
      ensures Valid() && (body == old(body) || fresh(body)) && hijacked == old(hijacked)
      ensures View() == ErrorView(old(View()), hijacked, code, msg)
    {
      if hijacked {
        return;
      }
      status := code;
      size := 0;
      headers.SetKey("Content-Type", "text/plain; charset=utf-8");
      Append(0, ErrorText(code, msg));
    }

    method Hijack()
      requires Valid()
      modifies this`hijacked
      ensures Valid() && hijacked && View() == old(View())
    {
      hijacked := true;
    }

    /** The header fields serialize fills in or overwrites. */
    method FinishHeaders(keepAlive: bool, date: string)
      requires Valid()
      modifies headers
      ensures Valid() && headers.Contents() == FinalFields(old(View()), keepAlive, date)
    {
      hide Canonical, Itoa, Has, Set, Del;
      var dated := headers.HasKey("Date");
      if !dated {
        headers.SetKey("Date", date);
      }
      var served := headers.HasKey("Server");
      if !served {
        headers.SetKey("Server", "PulseHTTP/1.0");
      }
      if Bodyless(status) {
        headers.DelKey("Content-Length");
      } else {
        headers.SetKey("Content-Length", Itoa(size));
      }
      if keepAlive {
        headers.SetKey("Connection", "keep-alive");
      } else {
        headers.SetKey("Connection", "close");
      }
    }

    method Serialize(proto: string, keepAlive: bool, date: string) returns (wire: string)
      requires Valid()
      modifies headers
      ensures Valid() && wire == Serialized(old(View()), proto, keepAlive, date)
      ensures View() == old(View()).(fields := FinalFields(old(View()), keepAlive, date))
    {
      hide FinalFields, StatusLine, Block, Flatten;
      wire := StatusLine(proto, status) + CRLF;
      FinishHeaders(keepAlive, date);
      var block := headers.WriteTo();
      wire := wire + block + CRLF;
      if !isHead && !Bodyless(status) {
        wire := wire + body[..size];
      }
    }
  }

  /** Adding a handler's header lines one by one. */
  method AddLines(w: ResponseWriter, fs: Fields)
    requires w.Valid() && w.headers.Contents() == [] && WellFormed(fs)
    modifies w.headers
    ensures w.Valid() && w.headers.Contents() == fs
  {
    var hs := Flatten(fs);
    AddAllFlatten(fs, 0);
    assert fs[..0] == [] && fs[0..] == fs;
    for i := 0 to |hs|
      invariant w.Valid() && AddAll(w.headers.Contents(), hs[i..]) == fs
    {
      assert hs[i..][0] == hs[i] && hs[i..][1..] == hs[i + 1..];
      w.headers.AddKey(hs[i].name, hs[i].value);
    }
    assert hs[|hs|..] == [];
  }

  method DropLines(w: ResponseWriter)
    requires w.Valid()
    modifies w.headers
    ensures w.Valid() && w.headers.Contents() == []
  {
    while |w.headers.keys| > 0
      invariant w.Valid()
      decreases |w.headers.keys|
    {
      var key := w.headers.keys[0];
      ghost var fs := w.headers.Contents();
      w.headers.ContentsWellFormed();
      assert fs[0].name == key && Canonical(key) == key;
      FindIs(fs, key, 0);
      hide Canonical;
      w.headers.DelKey(key);
      assert |w.headers.Contents()| == |w.headers.keys|;
    }
  }

  /** A response as far as any handler can see and change it. */
  datatype Frame = Frame(view: Response, hijacked: bool)

  /** The effect of arbitrary code on the response: afterwards it is f. */
  method Become(w: ResponseWriter, f: Frame)
    requires w.Valid() && WellFormed(f.view.fields)
    modifies w, w.headers
    ensures w.Valid() && fresh(w.body) && Frame(w.View(), w.hijacked) == f
  {
    hide WellFormed, Flatten, AddAll;
    DropLines(w);
    AddLines(w, f.view.fields);
    w.status, w.isHead, w.hijacked := f.view.status, f.view.isHead, f.hijacked;
    w.body := new char[|f.view.body|](i requires 0 <= i < |f.view.body| => f.view.body[i]);
    w.size := |f.view.body|;
    assert w.Body() == f.view.body;
  }
}

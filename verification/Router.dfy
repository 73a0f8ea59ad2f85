/** Route registration and dispatch: first match wins, and an unmatched verb is told from an unmatched path. */
module Router {
  import opened Text
  import opened HeaderFields
  import opened Responses

  /** One path segment of a pattern: a capture when param is non-empty, else literal text. */
  datatype Segment = Segment(literal: string, param: string)

  datatype Route<H> = Route(verb: string, segments: seq<Segment>, handler: H)

  datatype Outcome<H> =
    | Handled(handler: H, params: map<string, string>)
    | NotAllowed(verbs: seq<string>)
    | NotFound

  function PathParts(path: string): (parts: seq<string>)
    ensures |parts| >= 1
  {
    Split(Trim(path, "/"), '/')
  }

  function SegmentOf(part: string): Segment {
    if part != "" && part[0] == ':' then Segment("", part[1..]) else Segment(part, "")
  }

  function Compile(pattern: string): (segs: seq<Segment>)
    ensures |segs| == |PathParts(pattern)|
  {
    var parts := PathParts(pattern);
    seq(|parts|, i requires 0 <= i < |parts| => SegmentOf(parts[i]))
  }

  // ----- matching -----

  predicate Fits(segs: seq<Segment>, parts: seq<string>) {
    && |segs| == |parts|
    && forall i :: 0 <= i < |segs| ==> segs[i].param != "" || segs[i].literal == parts[i]
  }

  /** Params are what the captures of the pattern caught; of two captures with one name, the later. */
  ghost predicate Captured(segs: seq<Segment>, parts: seq<string>, params: map<string, string>)
    requires |segs| == |parts|
  {
    && (forall k :: k in params ==> exists i :: 0 <= i < |segs| && segs[i].param == k)
    && "" !in params
    && forall i :: 0 <= i < |segs| && segs[i].param != "" && Last(segs, i) ==>
         segs[i].param in params && params[segs[i].param] == parts[i]
  }

  ghost predicate Last(segs: seq<Segment>, i: nat)
    requires i < |segs|
  {
    forall j :: i < j < |segs| ==> segs[j].param != segs[i].param
  }

  lemma {:induction false} LastExists(segs: seq<Segment>, i: nat) returns (l: nat)
    requires i < |segs|
    ensures i <= l < |segs| && segs[l].param == segs[i].param && Last(segs, l)
    decreases |segs| - i
  {
    l := i;
    if j :| i < j < |segs| && segs[j].param == segs[i].param {
      l := LastExists(segs, j);
    }
  }

  lemma CapturedOnce(segs: seq<Segment>, parts: seq<string>, p: map<string, string>, q: map<string, string>)
    requires |segs| == |parts| && Captured(segs, parts, p) && Captured(segs, parts, q)
    ensures p == q
  {
    CapturedWithin(segs, parts, p, q);
    CapturedWithin(segs, parts, q, p);
  }

  lemma CapturedWithin(segs: seq<Segment>, parts: seq<string>, p: map<string, string>, q: map<string, string>)
    requires |segs| == |parts| && Captured(segs, parts, p) && Captured(segs, parts, q)
    ensures forall k | k in p :: k in q && q[k] == p[k]
  {
    forall k | k in p
      ensures k in q && q[k] == p[k]
    {
      var i :| 0 <= i < |segs| && segs[i].param == k;
      var l := LastExists(segs, i);
    }
  }

  /** The parameters after i segments have been matched. */
  ghost predicate MatchedTo(segs: seq<Segment>, parts: seq<string>, params: map<string, string>, i: nat)
    requires i <= |segs| == |parts|
  {
    Fits(segs[..i], parts[..i]) && Captured(segs[..i], parts[..i], params)
  }

  lemma MatchStart(segs: seq<Segment>, parts: seq<string>, params: map<string, string>)
    requires |segs| == |parts| && params == map[]
    ensures MatchedTo(segs, parts, params, 0)
  {
  }

  lemma MatchEnd(segs: seq<Segment>, parts: seq<string>, params: map<string, string>)
    requires |segs| == |parts| && MatchedTo(segs, parts, params, |segs|)
    ensures Fits(segs, parts) && Captured(segs, parts, params)
  {
    assert segs[..|segs|] == segs && parts[..|segs|] == parts;
  }

  lemma MatchNext(segs: seq<Segment>, parts: seq<string>, params: map<string, string>, i: nat)
    requires i < |segs| == |parts| && MatchedTo(segs, parts, params, i)
    ensures segs[i].param != "" ==> MatchedTo(segs, parts, params[segs[i].param := parts[i]], i + 1)
    ensures segs[i].param == "" && segs[i].literal == parts[i] ==> MatchedTo(segs, parts, params, i + 1)
    ensures segs[i].param == "" && segs[i].literal != parts[i] ==> !Fits(segs, parts)
  {
    assert segs[..i + 1] == segs[..i] + [segs[i]] && parts[..i + 1] == parts[..i] + [parts[i]];
    CaptureNext(segs[..i], parts[..i], params, segs[i], parts[i]);
    hide Captured;
    if segs[i].param != "" || segs[i].literal == parts[i] {
      FitsNext(segs[..i], parts[..i], segs[i], parts[i]);
    }
  }

  lemma FitsNext(segs: seq<Segment>, parts: seq<string>, s: Segment, part: string)
    requires Fits(segs, parts) && (s.param != "" || s.literal == part)
    ensures Fits(segs + [s], parts + [part])
  {
  }

  method Match(segs: seq<Segment>, parts: seq<string>) returns (out: Option<map<string, string>>)
    ensures out.Some? <==> Fits(segs, parts)
    ensures out.Some? ==> Captured(segs, parts, out.value)
  {
    FitsLengthOf(segs, parts);
    if |segs| != |parts| {
      return None;
    }
    var params: map<string, string> := map[];
    MatchStart(segs, parts, params);
    hide Fits, Captured, MatchedTo;
    var i := 0;
    while i < |segs|
      invariant 0 <= i <= |segs|
      invariant MatchedTo(segs, parts, params, i)
    {
      var s := segs[i];
      MatchNext(segs, parts, params, i);
      if s.param != "" {
        params := params[s.param := parts[i]];
      } else if s.literal != parts[i] {
        return None;
      }
      i := i + 1;
    }
    MatchEnd(segs, parts, params);
    return Some(params);
  }

  lemma FitsLengthOf(segs: seq<Segment>, parts: seq<string>)
    ensures |segs| != |parts| ==> !Fits(segs, parts)
  {
  }

  lemma CaptureNext(segs: seq<Segment>, parts: seq<string>, params: map<string, string>, s: Segment, part: string)
    requires |segs| == |parts| && Captured(segs, parts, params)
    ensures Captured(segs + [s], parts + [part], if s.param != "" then params[s.param := part] else params)
  {
    var all := segs + [s];
    var now := if s.param != "" then params[s.param := part] else params;
    forall k | k in now
      ensures exists i :: 0 <= i < |all| && all[i].param == k
    {
      if k in params {
        var i :| 0 <= i < |segs| && segs[i].param == k;
        assert all[i].param == k;
      } else {
        assert all[|segs|].param == k;
      }
    }
    forall i | 0 <= i < |segs| && segs[i].param != "" && Last(all, i)
      ensures Last(segs, i) && segs[i].param != s.param
    {
      assert all[|segs|] == s;
      forall j | i < j < |segs| ensures segs[j].param != segs[i].param {
        assert all[j] == segs[j];
      }
    }
  }

  // ----- verbs, in byte order -----

  /** Go's < on strings. */
  predicate Less(a: string, b: string) {
    b != "" && (a == "" || a[0] < b[0] || (a[0] == b[0] && Less(a[1..], b[1..])))
  }

  /** a and b part at place k, where a has the smaller byte. */
  predicate PartsAt(a: string, b: string, k: nat) {
    k < |a| && k < |b| && a[..k] == b[..k] && a[k] < b[k]
  }

  lemma PartsNext(a: string, b: string, k: nat)
    requires a != "" && b != "" && a[0] == b[0]
    ensures PartsAt(a, b, k + 1) <==> PartsAt(a[1..], b[1..], k)
    ensures !PartsAt(a, b, 0)
  {
    if k + 1 < |a| && k + 1 < |b| {
      assert a[..k + 1] == [a[0]] + a[1..][..k] && b[..k + 1] == [b[0]] + b[1..][..k];
      assert a[1..][..k] == a[..k + 1][1..] && b[1..][..k] == b[..k + 1][1..];
    }
  }

  lemma PrefixNext(a: string, b: string)
    requires a != "" && b != "" && a[0] == b[0]
    ensures a < b <==> a[1..] < b[1..]
  {
    assert a == [a[0]] + a[1..] && b == [b[0]] + b[1..];
    if a < b { assert b[..|a|][1..] == b[1..][..|a| - 1]; }
    if a[1..] < b[1..] { assert b[..|a|] == [b[0]] + b[1..][..|a| - 1]; }
  }

  /** It is the order by bytes: a goes first where the two part, or when it is the beginning of b. */
  lemma {:induction false} LessExactly(a: string, b: string)
    ensures Less(a, b) <==> a < b || exists k: nat :: PartsAt(a, b, k)
  {
    if a != "" && b != "" && a[0] == b[0] {
      var c, d := a[1..], b[1..];
      LessExactly(c, d);
      PrefixNext(a, b);
      if k: nat :| PartsAt(a, b, k) { PartsNext(a, b, if k > 0 then k - 1 else 0); }
      if k: nat :| PartsAt(c, d, k) { PartsNext(a, b, k); }
    } else if a != "" && b != "" {
      assert PartsAt(a, b, 0) <==> a[0] < b[0];
      forall k: nat ensures k > 0 && PartsAt(a, b, k) ==> a[0] == b[0] {
        FirstAgrees(a, b, k);
      }
    }
  }

  lemma FirstAgrees(a: string, b: string, k: nat)
    requires a != "" && b != ""
    ensures k > 0 && PartsAt(a, b, k) ==> a[0] == b[0]
  {
    if k > 0 && PartsAt(a, b, k) { assert a[..k][0] == b[..k][0]; }
  }

  lemma {:induction false} LessIsTotal(a: string, b: string)
    ensures !(Less(a, b) && Less(b, a))
    ensures a == b <==> !Less(a, b) && !Less(b, a)
  {
    if a != "" && b != "" {
      LessIsTotal(a[1..], b[1..]);
      assert a == [a[0]] + a[1..] && b == [b[0]] + b[1..];
    }
  }

  lemma {:induction false} LessIsTransitive(a: string, b: string, c: string)
    requires Less(a, b) && Less(b, c)
    ensures Less(a, c)
  {
    if a != "" && a[0] == b[0] == c[0] {
      LessIsTransitive(a[1..], b[1..], c[1..]);
    }
  }

  predicate Increasing(s: seq<string>) {
    forall i :: 0 <= i < |s| - 1 ==> Less(s[i], s[i + 1])
  }

  lemma {:induction false} IncreasingFrom(s: seq<string>, i: nat, j: nat)
    requires Increasing(s) && i < j < |s|
    ensures Less(s[i], s[j])
    decreases j
  {
    if i < j - 1 {
      IncreasingFrom(s, i, j - 1);
      LessIsTransitive(s[i], s[j - 1], s[j - 1 + 1]);
    }
  }

  /** A set of verbs has only one increasing list. */
  lemma {:induction false} IncreasingIsUnique(s: seq<string>, t: seq<string>)
    requires Increasing(s) && Increasing(t) && forall x :: x in s <==> x in t
    ensures s == t
  {
    HasMember(s);
    HasMember(t);
    if s != [] {
      HeadIsLeast(s, t);
      HeadIsLeast(t, s);
      LessIsTotal(s[0], t[0]);
      forall x ensures x in s[1..] <==> x in t[1..] {
        TailMembers(s, x);
        TailMembers(t, x);
      }
      IncreasingIsUnique(s[1..], t[1..]);
      assert s == [s[0]] + s[1..] && t == [t[0]] + t[1..];
    }
  }

  lemma HasMember(s: seq<string>)
    ensures s != [] <==> exists x :: x in s
  {
    if s != [] { assert s[0] in s; }
  }

  lemma HeadIsLeast(s: seq<string>, t: seq<string>)
    requires s != [] && t != [] && Increasing(s) && t[0] in s
    ensures !Less(t[0], s[0])
  {
    var k :| 0 <= k < |s| && s[k] == t[0];
    if k > 0 { IncreasingFrom(s, 0, k); }
    LessIsTotal(s[0], t[0]);
  }

  lemma TailMembers(s: seq<string>, x: string)
    requires s != [] && Increasing(s)
    ensures x in s[1..] <==> x in s && x != s[0]
  {
    if k :| 0 <= k < |s[1..]| && s[1..][k] == x {
      IncreasingFrom(s, 0, k + 1);
      LessIsTotal(s[0], x);
    }
    if x in s && x != s[0] {
      var k :| 0 <= k < |s| && s[k] == x;
      assert s[1..][k - 1] == x;
    }
  }

  function Insert(s: seq<string>, x: string): seq<string> {
    if s == [] || !Less(s[0], x) then [x] + s else [s[0]] + Insert(s[1..], x)
  }

  /** sort.Strings, as an insertion sort. */
  function SortStrings(s: seq<string>): seq<string> {
    if s == [] then [] else Insert(SortStrings(s[1..]), s[0])
  }

  lemma {:induction false} InsertSpec(s: seq<string>, x: string)
    requires Increasing(s) && x !in s
    ensures Increasing(Insert(s, x))
    ensures forall y :: y in Insert(s, x) <==> y == x || y in s
    ensures Insert(s, x) != [] && (Insert(s, x)[0] == x || (s != [] && Insert(s, x)[0] == s[0]))
  {
    if s == [] {
    } else if !Less(s[0], x) {
      LessIsTotal(s[0], x);
    } else {
      InsertSpec(s[1..], x);
      var r := Insert(s[1..], x);
      assert |s| > 1 ==> Less(s[0], s[0 + 1]);
      assert s == [s[0]] + s[1..];
      assert forall i :: 0 < i < |r| ==> ([s[0]] + r)[i] == r[i - 1];
    }
  }

  lemma {:induction false} SortSpec(s: seq<string>)
    requires forall i, j :: 0 <= i < j < |s| ==> s[i] != s[j]
    ensures Increasing(SortStrings(s))
    ensures forall x :: x in SortStrings(s) <==> x in s
  {
    if s != [] {
      SortSpec(s[1..]);
      assert s == [s[0]] + s[1..];
      assert s[0] !in s[1..];
      InsertSpec(SortStrings(s[1..]), s[0]);
    }
  }

  /** strings.Join. */
  function Join(parts: seq<string>, sep: string): string {
    if parts == [] then "" else if |parts| == 1 then parts[0] else parts[0] + sep + Join(parts[1..], sep)
  }

  // ----- dispatch -----

  predicate Serves(routeVerb: string, verb: string) {
    routeVerb == verb || (verb == "HEAD" && routeVerb == "GET")
  }

  predicate Takes<H>(rt: Route<H>, verb: string, parts: seq<string>) {
    Fits(rt.segments, parts) && Serves(rt.verb, verb)
  }

  /** Route i takes the request and no earlier one does. */
  ghost predicate First<H>(routes: seq<Route<H>>, verb: string, parts: seq<string>, i: nat) {
    && i < |routes| && Takes(routes[i], verb, parts)
    && forall j :: 0 <= j < i ==> !Takes(routes[j], verb, parts)
  }

  ghost predicate NoneTakes<H>(routes: seq<Route<H>>, verb: string, parts: seq<string>) {
    forall j :: 0 <= j < |routes| ==> !Takes(routes[j], verb, parts)
  }

  ghost predicate OffersVerb<H>(routes: seq<Route<H>>, parts: seq<string>, verb: string) {
    exists j :: 0 <= j < |routes| && Fits(routes[j].segments, parts) && routes[j].verb == verb
  }

  /** The outcome the routes call for. */
  ghost predicate Dispatched<H>(routes: seq<Route<H>>, verb: string, parts: seq<string>, out: Outcome<H>) {
    match out
    case Handled(handler, params) =>
      exists i: nat :: First(routes, verb, parts, i) && handler == routes[i].handler
                       && Captured(routes[i].segments, parts, params)
    case NotAllowed(verbs) =>
      NoneTakes(routes, verb, parts) && verbs != [] && Increasing(verbs)
      && forall v :: v in verbs <==> OffersVerb(routes, parts, v)
    case NotFound =>
      forall v :: !OffersVerb(routes, parts, v)
  }

  function AllowText(verbs: seq<string>): string {
    Join(verbs, ", ")
  }

  /** What a handler is told of the request. */
  datatype Visit = Visit(verb: string, path: string, params: map<string, string>)

  /** A handler is known by what it makes of the response it finds. */
  type Handler = (Visit, Frame) -> Frame

  /** Handlers change header fields through the header object, which keeps them well-formed. */
  ghost predicate Sane(h: Handler) {
    forall visit: Visit, f: Frame :: WellFormed(f.view.fields) ==> WellFormed(h(visit, f).view.fields)
  }

  /** The handler a new router has for paths no route matches. */
  function NoSuchResource(visit: Visit, f: Frame): Frame {
    Frame(ErrorView(f.view, f.hijacked, 404, "no such resource: " + visit.path), f.hijacked)
  }

  /** The response after dispatch. */
  function Resulting(f: Frame, out: Outcome<Handler>, notFound: Handler, verb: string, path: string): Frame {
    match out
    case Handled(h, params) => h(Visit(verb, path, params), f)
    case NotAllowed(verbs) =>
      Frame(ErrorView(f.view.(fields := Set(f.view.fields, "Allow", AllowText(verbs))), f.hijacked, 405,
                      verb + " not allowed here"), f.hijacked)
    case NotFound => notFound(Visit(verb, path, map[]), f)
  }

  class Router {
    var routes: seq<Route<Handler>>
    var notFound: Handler

    ghost predicate Valid()
      reads this
    {
      Sane(notFound) && forall i :: 0 <= i < |routes| ==> Sane(routes[i].handler)
    }

    constructor ()
      ensures Valid() && routes == [] && notFound == NoSuchResource
    {
      routes, notFound := [], NoSuchResource;
      new;
      SaneDefault();
    }

    method Handle(verb: string, pattern: string, h: Handler)
      requires Valid() && Sane(h)
      modifies this`routes
      ensures Valid() && routes == old(routes) + [Route(verb, Compile(pattern), h)]
    {
      hide Sane, Split, Trim;
      var segs := [];
      var parts := PathParts(pattern);
      var i := 0;
      while i < |parts|
        invariant 0 <= i <= |parts| && segs == Compile(pattern)[..i] && routes == old(routes)
      {
        if parts[i] != "" && parts[i][0] == ':' {
          segs := segs + [Segment("", parts[i][1..])];
        } else {
          segs := segs + [Segment(parts[i], "")];
        }
        i := i + 1;
      }
      assert Compile(pattern)[..i] == Compile(pattern);
      routes := routes + [Route(verb, segs, h)];
    }

    /** Finds the outcome and runs what it calls for. */
    method Serve(verb: string, path: string, w: ResponseWriter) returns (out: Outcome<Handler>)
      requires Valid() && w.Valid()
      modifies w, w.headers, w.body
      ensures Dispatched(routes, verb, PathParts(path), out)
      ensures out.Handled? <==>
        exists i :: 0 <= i < |routes| && Fits(routes[i].segments, PathParts(path))
                    && (routes[i].verb == verb || (verb == "HEAD" && routes[i].verb == "GET"))
      ensures out.NotFound? <==> forall i :: 0 <= i < |routes| ==> !Fits(routes[i].segments, PathParts(path))
      ensures w.Valid() && (w.body == old(w.body) || fresh(w.body))
      ensures out.NotAllowed? && !w.hijacked ==>
        w.status == 405 && Values(w.View().fields, "Allow") == [Join(out.verbs, ", ")]
      ensures out.NotFound? && !w.hijacked && notFound == NoSuchResource ==> w.status == 404
      ensures Frame(w.View(), w.hijacked) ==
        Resulting(old(Frame(w.View(), w.hijacked)), out, notFound, verb, path)
    {
      hide Fits, Captured, Increasing, ErrorView, Set, PathParts, Dispatched, Sane, WellFormed;
      out := Dispatch(routes, verb, PathParts(path));
      WhichOutcome(routes, verb, PathParts(path), out);
      DispatchedSane(routes, verb, PathParts(path), out);
      w.headers.ContentsWellFormed();
      ghost var before := Frame(w.View(), w.hijacked);
      ResultShows(before, out, notFound, verb, path);
      match out
      case Handled(h, params) =>
        Run(h, Visit(verb, path, params), w);
      case NotAllowed(verbs) =>
        w.headers.SetKey("Allow", Join(verbs, ", "));
        w.Error(405, verb + " not allowed here");
      case NotFound =>
        Run(notFound, Visit(verb, path, map[]), w);
    }
  }

  /** What the client is shown when no handler runs. */
  lemma ResultShows(f: Frame, out: Outcome<Handler>, notFound: Handler, verb: string, path: string)
    requires WellFormed(f.view.fields)
    ensures var r := Resulting(f, out, notFound, verb, path);
      && (out.NotAllowed? && !f.hijacked ==>
            r.view.status == 405 && Values(r.view.fields, "Allow") == [Join(out.verbs, ", ")])
      && (out.NotAllowed? ==> r.hijacked == f.hijacked)
      && (out.NotFound? && notFound == NoSuchResource ==> r.hijacked == f.hijacked && (!f.hijacked ==> r.view.status == 404))
  {
    hide Canonical, Join, WellFormed, ErrorText, Values, Set;
    CanonicalLength("Allow");
    CanonicalLength("Content-Type");
    if out.NotAllowed? {
      SetLaw(f.view.fields, "Allow", Join(out.verbs, ", "), "Allow");
      SetLaw(Set(f.view.fields, "Allow", Join(out.verbs, ", ")), "Content-Type", "text/plain; charset=utf-8", "Allow");
    }
  }

  /** Which outcome it is: a route takes its own verb, and a GET route takes HEAD too. */
  lemma WhichOutcome<H>(routes: seq<Route<H>>, verb: string, parts: seq<string>, out: Outcome<H>)
    requires Dispatched(routes, verb, parts, out)
    ensures out.Handled? <==>
      exists i :: 0 <= i < |routes| && Fits(routes[i].segments, parts)
                  && (routes[i].verb == verb || (verb == "HEAD" && routes[i].verb == "GET"))
    ensures out.NotFound? <==> forall i :: 0 <= i < |routes| ==> !Fits(routes[i].segments, parts)
  {
    Kinds(routes, verb, parts, out);
    hide Fits, Dispatched;
  }

  lemma SaneDefault()
    ensures Sane(NoSuchResource)
  {
    forall visit: Visit, f: Frame | WellFormed(f.view.fields)
      ensures WellFormed(NoSuchResource(visit, f).view.fields)
    {
      SetLaw(f.view.fields, "Content-Type", "text/plain; charset=utf-8", "");
      hide Set, WellFormed;
    }
  }

  lemma DispatchedSane(routes: seq<Route<Handler>>, verb: string, parts: seq<string>, out: Outcome<Handler>)
    requires Dispatched(routes, verb, parts, out)
    requires forall i :: 0 <= i < |routes| ==> Sane(routes[i].handler)
    ensures out.Handled? ==> Sane(out.handler)
  {
    hide Fits, Captured, Increasing, Sane;
  }

  /** Calling a handler. */
  method Run(h: Handler, visit: Visit, w: ResponseWriter)
    requires Sane(h) && w.Valid()
    modifies w, w.headers
    ensures w.Valid() && fresh(w.body)
    ensures Frame(w.View(), w.hijacked) == h(visit, old(Frame(w.View(), w.hijacked)))
  {
    w.headers.ContentsWellFormed();
    Become(w, h(visit, Frame(w.View(), w.hijacked)));
  }

  /** The loop over the routes, and the 405 list. */
  method Dispatch<H>(routes: seq<Route<H>>, verb: string, parts: seq<string>) returns (out: Outcome<H>)
    ensures Dispatched(routes, verb, parts, out)
  {
    hide Fits, Captured, Increasing;
    var allowed: set<string> := {};
    var i := 0;
    while i < |routes|
      invariant 0 <= i <= |routes|
      invariant NoneTakes(routes[..i], verb, parts)
      invariant forall v :: v in allowed <==> OffersVerb(routes[..i], parts, v)
    {
      var rt := routes[i];
      var params := Match(rt.segments, parts);
      OffersNext(routes, i, parts);
      if params.Some? {
        if rt.verb == verb || (verb == "HEAD" && rt.verb == "GET") {
          assert First(routes, verb, parts, i) by {
            assert forall j :: 0 <= j < i ==> routes[..i][j] == routes[j];
          }
          return Handled(rt.handler, params.value);
        }
        allowed := allowed + {rt.verb};
      }
      i := i + 1;
    }
    assert routes[..i] == routes;
    if |allowed| > 0 {
      var verbs := Collect(allowed);
      SortSpec(verbs);
      HasMember(verbs);
      verbs := SortStrings(verbs);
      HasMember(verbs);
      return NotAllowed(verbs);
    }
    return NotFound;
  }

  lemma OffersNext<H>(routes: seq<Route<H>>, i: nat, parts: seq<string>)
    requires i < |routes|
    ensures forall v :: OffersVerb(routes[..i + 1], parts, v) <==>
                        OffersVerb(routes[..i], parts, v) || (Fits(routes[i].segments, parts) && routes[i].verb == v)
  {
    hide Fits;
    var now, was := routes[..i + 1], routes[..i];
    assert now == was + [routes[i]];
    forall v
      ensures OffersVerb(now, parts, v) <==>
              OffersVerb(was, parts, v) || (Fits(routes[i].segments, parts) && routes[i].verb == v)
    {
      if j :| 0 <= j < |was| && Fits(was[j].segments, parts) && was[j].verb == v {
        assert now[j] == was[j];
      }
      if Fits(routes[i].segments, parts) && routes[i].verb == v {
        assert now[i].verb == v;
      }
    }
  }

  /** The keys of a set in the arbitrary order of a map iteration. */
  method Collect(allowed: set<string>) returns (verbs: seq<string>)
    ensures forall i, j :: 0 <= i < j < |verbs| ==> verbs[i] != verbs[j]
    ensures forall v :: v in verbs <==> v in allowed
  {
    verbs := [];
    var rest := allowed;
    while rest != {}
      invariant rest <= allowed
      invariant forall v :: v in verbs <==> v in allowed && v !in rest
      invariant forall i, j :: 0 <= i < j < |verbs| ==> verbs[i] != verbs[j]
    {
      var m :| m in rest;
      verbs := verbs + [m];
      rest := rest - {m};
    }
  }

  // ----- laws -----

  /** The routes leave one outcome: which handler, which parameters, which Allow list. */
  lemma DispatchIsDetermined<H>(routes: seq<Route<H>>, verb: string, parts: seq<string>, a: Outcome<H>, b: Outcome<H>)
    requires Dispatched(routes, verb, parts, a) && Dispatched(routes, verb, parts, b)
    ensures a == b
  {
    Kinds(routes, verb, parts, a);
    Kinds(routes, verb, parts, b);
    hide Fits, Captured, Increasing, Serves, OffersVerb;
    match a
    case Handled(_, _) =>
      var i: nat :| First(routes, verb, parts, i) && a.handler == routes[i].handler
                    && Captured(routes[i].segments, parts, a.params);
      var j: nat :| First(routes, verb, parts, j) && b.handler == routes[j].handler
                    && Captured(routes[j].segments, parts, b.params);
      FirstIsUnique(routes, verb, parts, i, j);
      FitsLengthOf(routes[i].segments, parts);
      CapturedOnce(routes[i].segments, parts, a.params, b.params);
    case NotAllowed(verbs) =>
      IncreasingIsUnique(verbs, b.verbs);
    case NotFound =>
  }

  lemma FirstIsUnique<H>(routes: seq<Route<H>>, verb: string, parts: seq<string>, i: nat, j: nat)
    requires First(routes, verb, parts, i) && First(routes, verb, parts, j)
    ensures i == j
  {
  }

  /** Which of the three outcomes it is. */
  lemma Kinds<H>(routes: seq<Route<H>>, verb: string, parts: seq<string>, out: Outcome<H>)
    requires Dispatched(routes, verb, parts, out)
    ensures out.Handled? <==> exists i :: 0 <= i < |routes| && Takes(routes[i], verb, parts)
    ensures out.NotFound? <==> forall i :: 0 <= i < |routes| ==> !Fits(routes[i].segments, parts)
  {
    hide Fits, Captured, Increasing, Serves;
    match out
    case Handled(_, _) =>
      var i: nat :| First(routes, verb, parts, i);
    case NotAllowed(verbs) =>
      assert verbs[0] in verbs;
      var j :| 0 <= j < |routes| && Fits(routes[j].segments, parts) && routes[j].verb == verbs[0];
    case NotFound =>
      forall i | 0 <= i < |routes|
        ensures !Fits(routes[i].segments, parts)
      {
        assert !OffersVerb(routes, parts, routes[i].verb);
      }
  }

  // ----- what a pattern matches -----

  /** A path fits a pattern if and only if it has as many parts and each fits the pattern's own: any part fits a colon
      with a name behind it, which is the name it is handed over under; else only the same text fits, but a lone
      colon stands for an empty part. */
  lemma PatternExactly(pattern: string, parts: seq<string>)
    ensures var own := PathParts(pattern);
      && (Fits(Compile(pattern), parts) <==> |parts| == |own| && forall i :: 0 <= i < |own| ==>
            if own[i] == ":" then parts[i] == "" else ":" <= own[i] || parts[i] == own[i])
      && forall i :: 0 <= i < |own| ==> Compile(pattern)[i].param == if ":" <= own[i] then own[i][1..] else ""
  {
    hide PathParts;
    var own := PathParts(pattern);
    forall i | 0 <= i < |own|
      ensures Compile(pattern)[i].param == if ":" <= own[i] then own[i][1..] else ""
      ensures Compile(pattern)[i].param == "" ==> Compile(pattern)[i].literal == if own[i] == ":" then "" else own[i]
      ensures Compile(pattern)[i].param != "" <==> ":" <= own[i] && own[i] != ":"
    {
      if ":" <= own[i] { assert own[i] == ":" + own[i][1..]; }
    }
    hide Compile;
  }

  // ----- filling a pattern -----

  predicate SlashFree(parts: seq<string>) {
    forall i :: 0 <= i < |parts| ==> '/' !in parts[i]
  }

  lemma {:induction false} SplitOfJoin(parts: seq<string>)
    requires parts != [] && SlashFree(parts)
    ensures Split(Join(parts, "/"), '/') == parts
  {
    if |parts| == 1 {
      SplitNone(parts[0], '/');
    } else {
      SplitOfJoin(parts[1..]);
      SplitAt(parts[0], '/', Join(parts[1..], "/"));
      assert parts == [parts[0]] + parts[1..];
    }
  }

  lemma CutWhole(s: string)
    ensures var cut := Cut(s, '/');
      if cut.found then |cut.after| < |s| && s == cut.before + "/" + cut.after else Split(s, '/') == [s]
  {
    var i := IndexOf(s, '/');
    if i < |s| {
      assert s == s[..i] + [s[i]] + s[i + 1..];
    }
  }

  lemma {:induction false} JoinOfSplit(s: string)
    ensures Join(Split(s, '/'), "/") == s
    decreases |s|
  {
    CutWhole(s);
    hide IndexOf, Cut;
    var cut := Cut(s, '/');
    if cut.found {
      JoinOfSplit(cut.after);
      assert Split(s, '/') == [cut.before] + Split(cut.after, '/');
      assert Split(s, '/')[1..] == Split(cut.after, '/');
    }
  }

  /** A joined path neither starts nor ends with a slash exactly when its outer parts are non-empty. */
  predicate Edged(parts: seq<string>) {
    |parts| == 1 || (|parts| > 1 && parts[0] != "" && parts[|parts| - 1] != "")
  }

  lemma JoinTrimmed(parts: seq<string>)
    requires parts != [] && SlashFree(parts)
    ensures Trimmed(Join(parts, "/"), "/") <==> Edged(parts)
  {
    var j := Join(parts, "/");
    if |parts| > 1 {
      JoinEnd(parts);
      if parts[0] != "" { assert parts[0][0] in parts[0]; }
    } else if j != "" {
      assert j[0] in parts[0] && j[|j| - 1] in parts[0];
    }
  }

  lemma {:induction false} JoinEnd(parts: seq<string>)
    requires |parts| > 1 && SlashFree(parts)
    ensures var j := Join(parts, "/"); j != "" && (j[|j| - 1] == '/' <==> parts[|parts| - 1] == "")
  {
    var rest := Join(parts[1..], "/");
    var j := Join(parts, "/");
    assert parts[1..][|parts| - 2] == parts[|parts| - 1];
    if |parts| > 2 {
      JoinEnd(parts[1..]);
      assert j[|j| - 1] == rest[|rest| - 1];
    } else if rest != "" {
      assert rest[|rest| - 1] in parts[1];
      assert j[|j| - 1] == rest[|rest| - 1];
    }
  }

  lemma {:induction false} TrimLeftPrepend(t: string, s: string, cut: string)
    requires s == "" || s[0] !in cut
    requires forall x | x in t :: x in cut
    ensures TrimLeft(t + s, cut) == s
  {
    if t == "" {
      assert t + s == s;
    } else {
      assert (t + s)[1..] == t[1..] + s && (t + s)[0] == t[0];
      TrimLeftPrepend(t[1..], s, cut);
    }
  }

  predicate Slashes(s: string) {
    forall x | x in s :: x == '/'
  }

  lemma PartsOfPath(lead: string, parts: seq<string>, tail: string)
    requires SlashFree(parts) && Edged(parts) && Slashes(lead) && Slashes(tail)
    ensures PathParts(lead + Join(parts, "/") + tail) == parts
  {
    var j := Join(parts, "/");
    JoinTrimmed(parts);
    SplitOfJoin(parts);
    assert lead + j + tail == lead + (j + tail);
    if j == "" {
      TrimLeftPrepend(lead + tail, "", "/");
      assert lead + tail + "" == lead + j + tail;
    } else {
      TrimLeftPrepend(lead, j + tail, "/");
      TrimRightAppend(j, tail, "/");
    }
  }

  /** What a pattern's own parts are like. */
  lemma PatternParts(pattern: string)
    ensures SlashFree(PathParts(pattern)) && Edged(PathParts(pattern))
  {
    var t := Trim(pattern, "/");
    TrimIsTrimmed(pattern, "/");
    forall k | 0 <= k < |PathParts(pattern)|
      ensures '/' !in PathParts(pattern)[k]
    {
      SplitParts(t, '/', k);
    }
    JoinOfSplit(t);
    JoinTrimmed(PathParts(pattern));
  }

  /** The parts of a path that puts values[i] in the place of capture i. */
  function Filled(segs: seq<Segment>, values: seq<string>): (parts: seq<string>)
    requires |segs| == |values|
    ensures |parts| == |segs|
  {
    seq(|segs|, i requires 0 <= i < |segs| => if segs[i].param != "" then values[i] else segs[i].literal)
  }

  /** Every capture has a name and a non-empty slash-free value. */
  predicate Fillable(pattern: string, values: seq<string>) {
    && |values| == |Compile(pattern)|
    && (forall i :: 0 <= i < |values| ==> PathParts(pattern)[i] != ":")
    && forall i :: 0 <= i < |values| && Compile(pattern)[i].param != "" ==> values[i] != "" && '/' !in values[i]
  }

  /** Part i of the filled path: slash-free, and empty only where the pattern's own part is. */
  lemma FilledPart(pattern: string, values: seq<string>, i: nat)
    requires Fillable(pattern, values) && i < |values|
    requires '/' !in PathParts(pattern)[i]
    ensures var seg, part := Compile(pattern)[i], Filled(Compile(pattern), values)[i];
      && '/' !in part && (PathParts(pattern)[i] != "" ==> part != "")
      && (seg.param != "" || seg.literal == part)
  {
    hide PathParts;
    var own := PathParts(pattern)[i];
    assert Compile(pattern)[i] == SegmentOf(own);
    if own != "" && own[0] == ':' {
      assert own == ":" + own[1..];
    }
  }

  lemma FilledParts(pattern: string, values: seq<string>)
    requires Fillable(pattern, values)
    ensures var parts := Filled(Compile(pattern), values);
      SlashFree(parts) && Edged(parts) && Fits(Compile(pattern), parts)
  {
    PatternParts(pattern);
    var own, segs := PathParts(pattern), Compile(pattern);
    var parts := Filled(segs, values);
    hide PathParts, Compile, Filled, Fillable;
    forall i | 0 <= i < |own|
      ensures '/' !in parts[i] && (own[i] != "" ==> parts[i] != "") && (segs[i].param != "" || segs[i].literal == parts[i])
    {
      FilledPart(pattern, values, i);
    }
  }

  ghost predicate DistinctNames(segs: seq<Segment>) {
    forall i, j :: 0 <= i < j < |segs| && segs[i].param != "" ==> segs[j].param != segs[i].param
  }

  /** What the captures of a filled pattern give back. */
  ghost predicate Returned(segs: seq<Segment>, values: seq<string>, params: map<string, string>)
    requires |segs| == |values|
  {
    forall i :: 0 <= i < |segs| && segs[i].param != "" ==>
      segs[i].param in params && params[segs[i].param] == values[i]
  }

  ghost predicate Consistent(segs: seq<Segment>, values: seq<string>)
    requires |segs| == |values|
  {
    forall i, j :: 0 <= i < j < |segs| && segs[i].param == segs[j].param != "" ==> values[i] == values[j]
  }

  lemma CapturedFilling(segs: seq<Segment>, values: seq<string>, params: map<string, string>)
    requires |segs| == |values| && Captured(segs, Filled(segs, values), params)
    ensures forall name :: name in params <==> name != "" && exists i :: 0 <= i < |segs| && segs[i].param == name
    ensures Returned(segs, values, params) <==> Consistent(segs, values)
  {
    var parts := Filled(segs, values);
    forall i | 0 <= i < |segs| && segs[i].param != ""
      ensures segs[i].param in params && (Consistent(segs, values) ==> params[segs[i].param] == values[i])
    {
      var l := LastExists(segs, i);
      assert parts[l] == values[l];
    }
  }

  /**
   * Values put into a registered pattern come back: when no earlier route takes the path, this
   * one does, with any slashes before and after it, and hands its handler a value under every
   * name. Each capture's own value comes back exactly when captures of one name were given one
   * value, so always when the names are distinct.
   */
  lemma FillingComesBack<H>(routes: seq<Route<H>>, k: nat, pattern: string, values: seq<string>,
                            lead: string, tail: string, verb: string, out: Outcome<H>)
    requires k < |routes| && routes[k].segments == Compile(pattern) && Serves(routes[k].verb, verb)
    requires Fillable(pattern, values) && Slashes(lead) && Slashes(tail)
    requires var parts := PathParts(lead + Join(Filled(Compile(pattern), values), "/") + tail);
      && NoneTakes(routes[..k], verb, parts) && Dispatched(routes, verb, parts, out)
    ensures out.Handled? && out.handler == routes[k].handler
    ensures var segs := Compile(pattern);
      && (forall name :: name in out.params <==> name != "" && exists i :: 0 <= i < |segs| && segs[i].param == name)
      && (Returned(segs, values, out.params) <==> Consistent(segs, values))
      && (DistinctNames(segs) ==> Returned(segs, values, out.params))
  {
    var segs := Compile(pattern);
    var parts := Filled(segs, values);
    FilledParts(pattern, values);
    PartsOfPath(lead, parts, tail);
    hide PathParts, Fits, Captured, Filled, Fillable, Compile, Serves, Returned, Consistent;
    assert Takes(routes[k], verb, parts);
    assert First(routes, verb, parts, k) by {
      assert forall j :: 0 <= j < k ==> routes[..k][j] == routes[j];
    }
    Kinds(routes, verb, parts, out);
    var i: nat :| First(routes, verb, parts, i) && out.handler == routes[i].handler
                  && Captured(routes[i].segments, parts, out.params);
    FirstIsUnique(routes, verb, parts, i, k);
    CapturedFilling(segs, values, out.params);
    if DistinctNames(segs) { DistinctAgree(segs, values); }
  }

  lemma DistinctAgree(segs: seq<Segment>, values: seq<string>)
    requires |segs| == |values| && DistinctNames(segs)
    ensures Consistent(segs, values)
  {
  }
}

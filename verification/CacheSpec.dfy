/** The response cache of cache/cache.go as a sequence of stored responses, most recently used first. */
module CacheSpec {
  import opened Text
  import opened HeaderFields
  import opened Responses

  datatype Stored = Stored(key: string, body: string, contentType: string, etag: string, expires: int)

  function IndexOfKey(s: seq<Stored>, key: string): (i: nat)
    ensures i <= |s| && (i < |s| ==> s[i].key == key)
  {
    if s == [] || s[0].key == key then 0 else 1 + IndexOfKey(s[1..], key)
  }

  function Without(s: seq<Stored>, key: string): seq<Stored> {
    var i := IndexOfKey(s, key);
    if i < |s| then s[..i] + s[i + 1..] else s
  }

  /** get: a fresh entry moves to the front; an expired one is dropped. */
  function Get(s: seq<Stored>, key: string, now: int): (seq<Stored>, Option<Stored>) {
    var i := IndexOfKey(s, key);
    if i == |s| then (s, None)
    else if now > s[i].expires then (Without(s, key), None)
    else ([s[i]] + Without(s, key), Some(s[i]))
  }

  /** put: the entry goes to the front, replacing its key's old one; the rest is cut to the capacity. */
  function Put(s: seq<Stored>, e: Stored, capacity: nat): seq<Stored> {
    var all := [e] + Without(s, e.key);
    if |all| > capacity then all[..capacity] else all
  }

  /** The lookup, unless the request bypasses it. */
  function Consult(s: seq<Stored>, key: string, bypass: bool, now: int): (seq<Stored>, Option<Stored>) {
    if bypass then (s, None) else Get(s, key, now)
  }

  function AfterGet(s: seq<Stored>, kept: Option<Stored>, capacity: nat): seq<Stored> {
    if kept.None? then s else Put(s, kept.value, capacity)
  }

  /** A mutating request invalidates its path and its raw target. */
  function AfterOther(s: seq<Stored>, verb: string, path: string, target: string): seq<Stored> {
    if Mutating(verb) then Without(Without(s, path), target) else s
  }

  // ----- header conditions -----

  /** The first place sub occurs in s, or |s| + 1; strings.Index. */
  function IndexOfText(s: string, sub: string): (i: nat)
    ensures i <= |s| + 1
    ensures i <= |s| ==> i + |sub| <= |s| && s[i..i + |sub|] == sub
    decreases |s|
  {
    if sub <= s then 0
    else if s == "" then 1
    else
      var i := IndexOfText(s[1..], sub);
      assert i <= |s[1..]| ==> s[1..][i..i + |sub|] == s[i + 1..i + 1 + |sub|];
      i + 1
  }

  const NS_PER_SECOND := 1_000_000_000

  /** The time to live that a response's Cache-Control asks for, or the default. */
  function TtlOf(cc: string, default: int): int {
    var i := IndexOfText(cc, "max-age=");
    if i > |cc| then default
    else
      match ParseInt(TrimRight(cc[i + 8..], " ,;"), 10)
      case Value(secs) => if secs >= 0 then secs * NS_PER_SECOND else default
      case _ => default
  }

  predicate NoStore(cc: string) {
    IndexOfText(cc, "no-store") <= |cc|
  }

  predicate Mutating(verb: string) {
    verb == "POST" || verb == "PUT" || verb == "DELETE" || verb == "PATCH"
  }

  /** etagFor, over the hexadecimal digest of a body. */
  function EtagFor(digest: string -> string, body: string): string {
    "\"" + digest(body) + "\""
  }

  /** The response on a hit: the stored one, or a bodyless 304 when the client already has it. */
  function HitView(v: Response, hijacked: bool, e: Stored, ifNoneMatch: string): Response {
    var tagged := Set(Set(v.fields, "ETag", e.etag), "X-Cache", "HIT");
    if ifNoneMatch == e.etag then v.(fields := tagged, status := if hijacked then v.status else 304)
    else v.(
      fields := if e.contentType != "" then Set(tagged, "Content-Type", e.contentType) else tagged,
      status := if hijacked then v.status else 200, body := e.body)
  }

  /** The values a client finds under a name on a hit. */
  function HitValues(v: Response, e: Stored, ifNoneMatch: string, name: string): seq<string> {
    if Canonical(name) == Canonical("ETag") then [e.etag]
    else if Canonical(name) == Canonical("X-Cache") then ["HIT"]
    else if Canonical(name) == Canonical("Content-Type") && ifNoneMatch != e.etag && e.contentType != "" then [e.contentType]
    else Values(v.fields, name)
  }

  /** What a response v that was to be answered from the entry e has become: the entry with its body, or 304 for a
      client that named the entry's tag; the status is not set on a frozen response. */
  ghost predicate ShowsHit(v: Response, r: Response, frozen: bool, e: Stored, ifNoneMatch: string) {
    && r.isHead == v.isHead
    && (frozen ==> r.status == v.status)
    && (!frozen ==> r.status == if ifNoneMatch == e.etag then 304 else 200)
    && (ifNoneMatch != e.etag ==> r.body == e.body)
    && forall name :: Values(r.fields, name) == HitValues(v, e, ifNoneMatch, name)
  }

  /** What the handler's response v has become once it was stored as e. */
  ghost predicate ShowsMiss(v: Response, r: Response, frozen: bool, e: Stored, ifNoneMatch: string) {
    && r.isHead == v.isHead
    && (ifNoneMatch != e.etag ==> r.status == v.status && r.body == v.body)
    && (ifNoneMatch == e.etag ==> r.body == "" && (if frozen then r.status == v.status else r.status == 304))
    && forall name :: Values(r.fields, name) ==
         if Canonical(name) == Canonical("ETag") then [e.etag]
         else if Canonical(name) == Canonical("X-Cache") then ["MISS"]
         else Values(v.fields, name)
  }

  /** What the cache stores of a handler's response, if anything. */
  function Kept(key: string, v: Response, now: int, ttl: int, digest: string -> string): Option<Stored> {
    var cc := HeaderFields.Get(v.fields, "Cache-Control");
    if NoStore(cc) || v.status != 200 then None
    else Some(Stored(key, v.body, HeaderFields.Get(v.fields, "Content-Type"), EtagFor(digest, v.body), now + TtlOf(cc, ttl)))
  }

  /** The response after a miss whose result was stored. */
  function MissView(v: Response, hijacked: bool, e: Stored, ifNoneMatch: string): Response {
    var tagged := Set(Set(v.fields, "ETag", e.etag), "X-Cache", "MISS");
    if ifNoneMatch == e.etag then v.(fields := tagged, status := if hijacked then v.status else 304, body := "")
    else v.(fields := tagged)
  }
}

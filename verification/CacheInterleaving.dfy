/** The cache when requests overlap. The lock is held while a GET is looked up, while its response is stored and
    while a write invalidates, but not while a handler runs, so these three are the steps that interleave. */
module CacheInterleaving {
  import opened Text
  import HeaderFields
  import RequestWire
  import opened Responses
  import opened CacheSpec
  import opened CacheLaws

  /** A GET is known by the place of its arrival. */
  datatype Step =
    | Arrive(key: string, bypass: bool, now: int)       // the lookup
    | Return(get: nat, r: Response)                     // the handler of that GET has returned
    | Wrote(verb: string, target: string, completed: bool) // the handler of a request that is not a GET has ended;
                                                           // completed means that it returned and did not panic

  /** The decoded path of a raw target, as the parser gives it to the request. */
  function PathOf(target: string): Option<string> {
    match RequestWire.Decompose(target)
    case None => None
    case Some((path, _)) => Some(path)
  }

  /** A run: targets are those of accepted requests; only a GET that arrived and was not answered from the cache
      runs its handler, and it returns once. */
  ghost predicate IsRun(steps: seq<Step>, c: Config) {
    && (forall k :: 0 <= k < |steps| && steps[k].Arrive? ==> PathOf(steps[k].key).Some?)
    && (forall k :: 0 <= k < |steps| && steps[k].Wrote? ==> PathOf(steps[k].target).Some?)
    && forall k :: 0 <= k < |steps| && steps[k].Return? ==>
      && steps[k].get < k && steps[steps[k].get].Arrive? && !Hits(steps, steps[k].get, c)
      && forall m :: 0 <= m < k && steps[m].Return? ==> steps[m].get != steps[k].get
  }

  /** What step k stores, if anything. */
  function Stores(steps: seq<Step>, k: nat, c: Config): Option<Stored>
    requires k < |steps|
  {
    match steps[k]
    case Return(g, r) =>
      if g < k && steps[g].Arrive? then Kept(steps[g].key, r, steps[g].now, c.ttl, c.digest) else None
    case _ => None
  }

  /** The cache before step n. */
  function At(steps: seq<Step>, n: nat, c: Config): seq<Stored>
    requires n <= |steps|
  {
    if n == 0 then []
    else
      var s := At(steps, n - 1, c);
      match steps[n - 1]
      case Arrive(key, bypass, now) => Consult(s, key, bypass, now).0
      case Return(_, _) => AfterGet(s, Stores(steps, n - 1, c), c.capacity)
      case Wrote(verb, target, completed) =>
        if completed && PathOf(target).Some? then AfterOther(s, verb, PathOf(target).value, target) else s
  }

  /** What the GET that arrives at step k is answered with from the cache. */
  function Found(steps: seq<Step>, k: nat, c: Config): Option<Stored>
    requires k < |steps| && steps[k].Arrive?
  {
    Consult(At(steps, k, c), steps[k].key, steps[k].bypass, steps[k].now).1
  }

  predicate Hits(steps: seq<Step>, k: nat, c: Config) {
    k < |steps| && steps[k].Arrive? && Found(steps, k, c).Some?
  }

  /** Step k ends a write to the resource of the key: a mutating request whose decoded path is the key's. */
  predicate Writes(steps: seq<Step>, k: nat, key: string)
    requires k < |steps|
  {
    && steps[k].Wrote? && steps[k].verb in {"POST", "PUT", "DELETE", "PATCH"}
    && PathOf(key).Some? && PathOf(steps[k].target) == PathOf(key)
  }

  /** Step k makes the cache drop the key: a mutating request that returned, and whose path or target is the key. */
  predicate Invalidates(steps: seq<Step>, k: nat, key: string)
    requires k < |steps|
  {
    && steps[k].Wrote? && steps[k].completed && Mutating(steps[k].verb) && PathOf(steps[k].target).Some?
    && (PathOf(steps[k].target).value == key || steps[k].target == key)
  }

  ghost predicate Untouched(steps: seq<Step>, j: nat, n: nat, key: string, c: Config)
    requires n <= |steps|
  {
    forall k :: j < k < n ==> !Invalidates(steps, k, key) && (Stores(steps, k, c).Some? ==> Stores(steps, k, c).value.key != key)
  }

  lemma {:induction false} AtDistinct(steps: seq<Step>, n: nat, c: Config)
    requires n <= |steps|
    ensures DistinctKeys(At(steps, n, c))
  {
    hide Get, Put, Without, DistinctKeys, Stores, PathOf;
    if n == 0 {
      EmptyDistinct();
    } else {
      var s := At(steps, n - 1, c);
      AtDistinct(steps, n - 1, c);
      match steps[n - 1]
      case Arrive(key, _, now) => GetLaw(s, key, now);
      case Return(_, _) =>
        var kept := Stores(steps, n - 1, c);
        if kept.Some? { PutLaw(s, kept.value, c.capacity); }
      case Wrote(_, target, completed) =>
        if completed && PathOf(target).Some? {
          WithoutLaw(s, PathOf(target).value);
          WithoutLaw(Without(s, PathOf(target).value), target);
        }
    }
  }

  /** One step: an entry there afterwards was stored by it, or was there before and is not touched. */
  lemma EntryBefore(steps: seq<Step>, n: nat, c: Config, e: Stored)
    requires 0 < n <= |steps| && e in At(steps, n, c)
    ensures Stores(steps, n - 1, c) == Some(e)
            || (e in At(steps, n - 1, c) && Untouched(steps, n - 2, n, e.key, c))
  {
    hide Get, Put, Without, DistinctKeys, Stores, PathOf;
    var s := At(steps, n - 1, c);
    AtDistinct(steps, n - 1, c);
    match steps[n - 1]
    case Arrive(key, _, now) =>
      GetLaw(s, key, now);
      StoresOnReturn(steps, n - 1, c);
    case Return(_, _) =>
      var kept := Stores(steps, n - 1, c);
      if kept.Some? { PutLaw(s, kept.value, c.capacity); }
    case Wrote(_, target, completed) =>
      StoresOnReturn(steps, n - 1, c);
      if completed && PathOf(target).Some? {
        WithoutLaw(s, PathOf(target).value);
        WithoutLaw(Without(s, PathOf(target).value), target);
      }
  }

  lemma StoresOnReturn(steps: seq<Step>, k: nat, c: Config)
    requires k < |steps|
    ensures Stores(steps, k, c).Some? ==> steps[k].Return? && steps[k].get < k && steps[steps[k].get].Arrive?
    ensures Stores(steps, k, c).Some? ==> Stores(steps, k, c).value.key == steps[steps[k].get].key
  {
    hide TtlOf, NoStore, EtagFor, HeaderFields.Get;
  }

  /** In every interleaving, each entry was stored by some GET's return, and nothing has touched its key since. */
  lemma {:induction false} EntryIsLatest(steps: seq<Step>, n: nat, c: Config, e: Stored) returns (j: nat)
    requires n <= |steps| && e in At(steps, n, c)
    ensures j < n && Stores(steps, j, c) == Some(e) && Untouched(steps, j, n, e.key, c)
    decreases n
  {
    hide Stores, Invalidates;
    EntryBefore(steps, n, c, e);
    if Stores(steps, n - 1, c) == Some(e) {
      j := n - 1;
    } else {
      j := EntryIsLatest(steps, n - 1, c, e);
    }
  }

  /** What a hit returns, in every interleaving: the body that the handler of one GET produced, stored at step j,
      and the last to be stored for the key. */
  lemma HitComesFrom(steps: seq<Step>, i: nat, c: Config) returns (j: nat)
    requires Hits(steps, i, c)
    ensures j < i && steps[j].Return? && steps[j].get < j && steps[steps[j].get].Arrive?
    ensures steps[steps[j].get].key == steps[i].key && steps[j].r.status == 200
    ensures Found(steps, i, c).value.body == steps[j].r.body
    ensures Stores(steps, j, c) == Found(steps, i, c) && Untouched(steps, j, i, steps[i].key, c)
  {
    hide Get, DistinctKeys, TtlOf, NoStore, EtagFor, HeaderFields.Get;
    var e := Found(steps, i, c).value;
    AtDistinct(steps, i, c);
    GetLaw(At(steps, i, c), steps[i].key, steps[i].now);
    j := EntryIsLatest(steps, i, c, e);
    StoresOnReturn(steps, j, c);
  }

  // ----- when a stale read survives a write -----

  /** A write to the key's resource ended after step a and before step b. */
  ghost predicate WrittenBetween(steps: seq<Step>, a: nat, b: nat, key: string) {
    exists k :: a < k < b && k < |steps| && Writes(steps, k, key)
  }

  /** Why the write at step k leaves an entry that was stored at step j alone: it ended before the entry was stored,
      or its handler panicked, or neither its path nor its target is the key. */
  predicate Misses(steps: seq<Step>, k: nat, j: nat, key: string)
    requires k < |steps| && steps[k].Wrote?
  {
    k < j || !steps[k].completed || (PathOf(steps[k].target) != Some(key) && steps[k].target != key)
  }

  /** A hit is stale when a write to its resource ended after the GET that it replays had arrived. That happens if
      and only if one of those writes ended before that GET's handler returned, or panicked, or has neither the
      key for its path nor for its target. */
  lemma StaleExactly(steps: seq<Step>, i: nat, c: Config) returns (j: nat)
    requires Hits(steps, i, c)
    ensures j < i && steps[j].Return? && steps[j].get < j && steps[steps[j].get].Arrive?
    ensures Stores(steps, j, c) == Found(steps, i, c) && Found(steps, i, c).value.body == steps[j].r.body
    ensures var a, key := steps[j].get, steps[i].key;
      && (WrittenBetween(steps, a, i, key) <==>
           exists k :: a < k < i && Writes(steps, k, key) && Misses(steps, k, j, key))
      && forall k :: a < k < i && Writes(steps, k, key) ==> Misses(steps, k, j, key)
  {
    hide Stores, Found, PathOf;
    j := HitComesFrom(steps, i, c);
    var a, key := steps[j].get, steps[i].key;
    forall k | a < k < i && Writes(steps, k, key)
      ensures Misses(steps, k, j, key)
    {
      ReturnIsNoWrite(steps, j, key);
      assert j < k ==> !Invalidates(steps, k, key);
    }
  }

  lemma ReturnIsNoWrite(steps: seq<Step>, j: nat, key: string)
    requires j < |steps| && steps[j].Return?
    ensures !Writes(steps, j, key)
  {
  }

  /** GETs whose handlers return before anything else happens. */
  ghost predicate Apart(steps: seq<Step>) {
    forall j :: 0 <= j < |steps| && steps[j].Return? ==> j == steps[j].get + 1
  }

  /** So when no request overlaps a running GET, a hit on a target that is its own path, without query or escapes,
      is stale if and only if a write to it panicked: writes that return are never survived. */
  lemma ApartIsFresh(steps: seq<Step>, i: nat, c: Config) returns (j: nat)
    requires Apart(steps) && Hits(steps, i, c) && PathOf(steps[i].key) == Some(steps[i].key)
    ensures j < i && steps[j].Return? && steps[j].get < j && Stores(steps, j, c) == Found(steps, i, c)
    ensures WrittenBetween(steps, steps[j].get, i, steps[i].key) <==>
            exists k :: steps[j].get < k < i && Writes(steps, k, steps[i].key) && !steps[k].completed
    ensures (forall k :: 0 <= k < i && steps[k].Wrote? ==> steps[k].completed) ==>
            !WrittenBetween(steps, steps[j].get, i, steps[i].key)
  {
    hide Stores, Found, PathOf;
    j := StaleExactly(steps, i, c);
    var a, key := steps[j].get, steps[i].key;
    assert j == a + 1;
    forall k | a < k < i && Writes(steps, k, key)
      ensures !steps[k].completed
    {
      ReturnIsNoWrite(steps, j, key);
      assert Misses(steps, k, j, key);
    }
  }

  // ----- the three ways, each at one input -----

  const OLD := Response(200, [], "old", false)

  /** A GET misses; while its handler runs a POST to the same target returns; then the GET returns what it read
      before, and the next GET is served that. */
  const OVERLAP: seq<Step> := [Arrive("/a", false, 0), Wrote("POST", "/a", true), Return(0, OLD), Arrive("/a", false, 1)]

  /** Nothing overlaps, but the GET has a query, and the POST to its path does not. */
  const QUERY: seq<Step> := [Arrive("/a?x", false, 0), Return(0, OLD), Wrote("POST", "/a", true), Arrive("/a?x", false, 1)]

  /** Nothing overlaps, but the handler of the POST panics, after whatever it has done. */
  const PANIC: seq<Step> := [Arrive("/a", false, 0), Return(0, OLD), Wrote("POST", "/a", false), Arrive("/a", false, 1)]

  lemma UnescapeA()
    ensures Unescape("/a", false) == Some("/a")
  {
    var a := "/a";
    var l := a[1..];
    assert l == ['a'] && l[1..] == "";
    assert Unescape(l[1..], false) == Some("");
    assert [l[0]] + "" == l;
    assert Unescape(l, false) == Some(l);
    assert [a[0]] + l == a;
  }

  lemma PathOfA()
    ensures PathOf("/a") == Some("/a")
  {
    UnescapeA();
    hide Unescape;
    IndexIs("/a", '?', 2);
    assert Text.Cut("/a", '?') == Cutting("/a", "", false);
  }

  lemma PathOfAX()
    ensures PathOf("/a?x") == Some("/a")
  {
    UnescapeA();
    QueryX();
    hide Unescape, ParseQuery;
    var a := "/a";
    assert '?' !in a;
    CutAt(a, '?', "x");
    assert a + ['?'] + "x" == "/a?x";
  }

  lemma QueryX()
    ensures ParseQuery("x", map[]).Some?
  {
    var x := "x";
    assert x[1..] == "" && [x[0]] + "" == x;
    assert Unescape(x[1..], true) == Some("");
    assert Unescape(x, true) == Some(x);
    IndexIs(x, '&', 1);
    IndexIs(x, '=', 1);
    assert Text.Cut(x, '&') == Cutting(x, "", false) && Text.Cut(x, '=') == Cutting(x, "", false);
  }

  lemma OldIsKept(key: string, c: Config)
    ensures Kept(key, OLD, 0, c.ttl, c.digest) == Some(Stored(key, "old", "", EtagFor(c.digest, "old"), c.ttl))
  {
    hide EtagFor, Canonical;
    assert HeaderFields.Get([], "Cache-Control") == "" && HeaderFields.Get([], "Content-Type") == "";
    assert IndexOfText("", "no-store") == 1 && IndexOfText("", "max-age=") == 1;
  }

  function OldEntry(key: string, c: Config): Stored {
    Stored(key, "old", "", EtagFor(c.digest, "old"), c.ttl)
  }

  /** A GET of the key at time 1 is answered with the entry. */
  lemma OldIsServed(steps: seq<Step>, key: string, c: Config)
    requires |steps| == 4 && steps[3] == Arrive(key, false, 1) && c.ttl > 0 && At(steps, 3, c) == [OldEntry(key, c)]
    ensures Hits(steps, 3, c) && Found(steps, 3, c).value.body == "old"
  {
    hide EtagFor, At;
    var s := At(steps, 3, c);
    assert IndexOfKey(s, key) == 0;
    assert Consult(s, key, false, 1).1 == Some(s[0]);
  }

  lemma MissAtFirst(steps: seq<Step>, key: string, c: Config)
    requires |steps| > 0 && steps[0] == Arrive(key, false, 0)
    ensures At(steps, 1, c) == [] && !Hits(steps, 0, c)
  {
    assert At(steps, 0, c) == [];
  }

  lemma StoreOld(steps: seq<Step>, n: nat, key: string, c: Config)
    requires 0 < n < |steps| && steps[0] == Arrive(key, false, 0) && steps[n] == Return(0, OLD)
    requires At(steps, n, c) == [] && c.capacity > 0
    ensures At(steps, n + 1, c) == [OldEntry(key, c)]
  {
    OldIsKept(key, c);
    hide EtagFor, Kept;
    assert Put([], OldEntry(key, c), c.capacity) == [OldEntry(key, c)];
  }

  /** Four steps: a GET arrives and returns at step r, a write ends at step w, a GET arrives. */
  lemma FourIsRun(steps: seq<Step>, r: nat, w: nat, c: Config)
    requires |steps| == 4 && ((r == 1 && w == 2) || (r == 2 && w == 1))
    requires steps[0].Arrive? && steps[3].Arrive? && steps[r].Return? && steps[r].get == 0 && steps[w].Wrote?
    requires PathOf(steps[0].key).Some? && PathOf(steps[3].key).Some? && PathOf(steps[w].target).Some?
    requires !Hits(steps, 0, c)
    ensures IsRun(steps, c)
    ensures r == 1 ==> Apart(steps)
  {
    hide PathOf, Hits;
  }

  lemma OverlapHits(c: Config)
    requires c.capacity > 0 && c.ttl > 0
    ensures !Hits(OVERLAP, 0, c) && Hits(OVERLAP, 3, c) && Found(OVERLAP, 3, c).value.body == "old"
  {
    hide PathOf, OldEntry, Hits, Found;
    MissAtFirst(OVERLAP, "/a", c);
    EmptyStays(OVERLAP, 1, c);
    hide At;
    StoreOld(OVERLAP, 2, "/a", c);
    OldIsServed(OVERLAP, "/a", c);
  }

  lemma EmptyStays(steps: seq<Step>, k: nat, c: Config)
    requires k < |steps| && steps[k].Wrote? && At(steps, k, c) == []
    ensures At(steps, k + 1, c) == []
  {
    hide PathOf;
  }

  lemma StaleSurvivesOverlap(c: Config)
    requires c.capacity > 0 && c.ttl > 0
    ensures IsRun(OVERLAP, c) && Hits(OVERLAP, 3, c) && Found(OVERLAP, 3, c).value.body == "old"
    ensures WrittenBetween(OVERLAP, 0, 3, "/a")
  {
    OverlapHits(c);
    PathOfA();
    hide PathOf, At, Hits, Found, IsRun;
    FourIsRun(OVERLAP, 2, 1, c);
    assert Writes(OVERLAP, 1, "/a");
  }

  lemma OtherKeyStays(steps: seq<Step>, key: string, other: string, c: Config)
    requires |steps| > 2 && steps[2] == Wrote("POST", other, true) && PathOf(other) == Some(other) && other != key
    requires At(steps, 2, c) == [OldEntry(key, c)]
    ensures At(steps, 3, c) == At(steps, 2, c)
  {
    hide PathOf, EtagFor;
    var s := At(steps, 2, c);
    assert IndexOfKey(s[1..], other) == 0;
    assert Without(s, other) == s;
  }

  lemma QueryHits(c: Config)
    requires c.capacity > 0 && c.ttl > 0
    ensures !Hits(QUERY, 0, c) && Hits(QUERY, 3, c) && Found(QUERY, 3, c).value.body == "old"
  {
    PathOfA();
    assert |"/a?x"| != |"/a"|;
    hide PathOf, OldEntry, At, Hits, Found;
    MissAtFirst(QUERY, "/a?x", c);
    StoreOld(QUERY, 1, "/a?x", c);
    OtherKeyStays(QUERY, "/a?x", "/a", c);
    OldIsServed(QUERY, "/a?x", c);
  }

  lemma StaleSurvivesQuery(c: Config)
    requires c.capacity > 0 && c.ttl > 0
    ensures IsRun(QUERY, c) && Apart(QUERY) && Hits(QUERY, 3, c) && Found(QUERY, 3, c).value.body == "old"
    ensures WrittenBetween(QUERY, 0, 3, "/a?x")
  {
    QueryHits(c);
    PathOfA();
    PathOfAX();
    hide PathOf, At, Hits, Found, IsRun, Apart;
    FourIsRun(QUERY, 1, 2, c);
    assert Writes(QUERY, 2, "/a?x");
  }

  lemma PanicHits(c: Config)
    requires c.capacity > 0 && c.ttl > 0
    ensures !Hits(PANIC, 0, c) && Hits(PANIC, 3, c) && Found(PANIC, 3, c).value.body == "old"
  {
    hide PathOf, OldEntry, Hits, Found;
    MissAtFirst(PANIC, "/a", c);
    StoreOld(PANIC, 1, "/a", c);
    PanickedStays(PANIC, 2, c);
    hide At;
    OldIsServed(PANIC, "/a", c);
  }

  lemma PanickedStays(steps: seq<Step>, k: nat, c: Config)
    requires k < |steps| && steps[k].Wrote? && !steps[k].completed
    ensures At(steps, k + 1, c) == At(steps, k, c)
  {
  }

  lemma StaleSurvivesPanic(c: Config)
    requires c.capacity > 0 && c.ttl > 0
    ensures IsRun(PANIC, c) && Apart(PANIC) && Hits(PANIC, 3, c) && Found(PANIC, 3, c).value.body == "old"
    ensures WrittenBetween(PANIC, 0, 3, "/a")
  {
    PanicHits(c);
    PathOfA();
    hide PathOf, At, Hits, Found, IsRun, Apart;
    FourIsRun(PANIC, 1, 2, c);
    assert Writes(PANIC, 2, "/a");
  }
}

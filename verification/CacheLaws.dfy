/** What the response cache promises over whole runs of requests that do not overlap. */
module CacheLaws {
  import opened Text
  import HeaderFields
  import opened Responses
  import opened CacheSpec

  /** What a request's handler would do if it runs. */
  datatype Outcome = Returned(r: Response) | Panicked

  datatype Event =
    | Fetch(target: string, bypass: bool, ifNoneMatch: string, now: int, outcome: Outcome)
    | Other(verb: string, path: string, target: string, outcome: Outcome)

  datatype Reply = FromCache(e: Stored, notModified: bool) | FromHandler

  datatype Config = Config(capacity: nat, ttl: int, digest: string -> string)

  /** One request through the middleware: the methods BeforeGet, AfterGet and AfterOther composed. */
  function Step(s: seq<Stored>, ev: Event, c: Config): (seq<Stored>, Reply) {
    match ev
    case Other(verb, path, target, outcome) =>
      (if outcome.Returned? then AfterOther(s, verb, path, target) else s, FromHandler)
    case Fetch(target, bypass, ifNoneMatch, now, outcome) =>
      match Consult(s, target, bypass, now)
      case (s', Some(e)) => (s', FromCache(e, ifNoneMatch == e.etag))
      case (s', None) =>
        (match outcome
         case Panicked => (s', FromHandler)
         case Returned(r) => (AfterGet(s', Kept(target, r, now, c.ttl, c.digest), c.capacity), FromHandler))
  }

  function Run(evs: seq<Event>, c: Config): seq<Stored> {
    if evs == [] then [] else Step(Run(evs[..|evs| - 1], c), evs[|evs| - 1], c).0
  }

  /** The cache state before event k. */
  function Before(evs: seq<Event>, k: nat, c: Config): seq<Stored>
    requires k <= |evs|
  {
    Run(evs[..k], c)
  }

  function ReplyAt(evs: seq<Event>, k: nat, c: Config): Reply
    requires k < |evs|
  {
    Step(Before(evs, k, c), evs[k], c).1
  }

  /** The response event k stored, if any: the handler ran, returned 200 and did not say no-store. */
  function StoredAt(evs: seq<Event>, k: nat, c: Config): Option<Stored>
    requires k < |evs|
  {
    if evs[k].Fetch? && ReplyAt(evs, k, c).FromHandler? && evs[k].outcome.Returned?
    then Kept(evs[k].target, evs[k].outcome.r, evs[k].now, c.ttl, c.digest) else None
  }

  /** A mutating request for the key that returned normally. */
  predicate Invalidates(ev: Event, key: string) {
    ev.Other? && ev.outcome.Returned? && Mutating(ev.verb) && (ev.path == key || ev.target == key)
  }

  predicate StoresKey(evs: seq<Event>, k: nat, key: string, c: Config)
    requires k < |evs|
  {
    StoredAt(evs, k, c).Some? && evs[k].target == key
  }

  /** Event j stored the key, and nothing after it stored or invalidated it. */
  ghost predicate LatestStore(evs: seq<Event>, j: nat, key: string, c: Config) {
    && j < |evs| && StoresKey(evs, j, key, c)
    && forall k :: j < k < |evs| ==> !StoresKey(evs, k, key, c) && !Invalidates(evs[k], key)
  }

  ghost predicate DistinctKeys(s: seq<Stored>) {
    forall i, j :: 0 <= i < j < |s| ==> s[i].key != s[j].key
  }

  // ----- sequence operations -----

  lemma {:induction false} IndexOfKeySpec(s: seq<Stored>, key: string)
    ensures forall i :: 0 <= i < IndexOfKey(s, key) ==> s[i].key != key
  {
    if s != [] && s[0].key != key { IndexOfKeySpec(s[1..], key); }
  }

  lemma WithoutLaw(s: seq<Stored>, key: string)
    requires DistinctKeys(s)
    ensures DistinctKeys(Without(s, key))
    ensures forall e :: e in Without(s, key) <==> e in s && e.key != key
  {
    var i, r := IndexOfKey(s, key), Without(s, key);
    IndexOfKeySpec(s, key);
    assert i < |s| ==> forall k :: 0 <= k < |r| ==> r[k] == s[if k < i then k else k + 1];
    forall e ensures e in r <==> e in s && e.key != key {
      if e in s && e.key != key && i < |s| {
        var k :| 0 <= k < |s| && s[k] == e;
        assert r[if k < i then k else k - 1] == e;
      }
    }
  }

  lemma GetLaw(s: seq<Stored>, key: string, now: int)
    requires DistinctKeys(s)
    ensures var (s', found) := Get(s, key, now);
      && DistinctKeys(s') && (forall e :: e in s' ==> e in s)
      && (found.Some? ==> found.value in s && found.value.key == key && now <= found.value.expires)
      && (found.None? ==> forall e :: e in s' ==> e.key != key)
  {
    hide Without;
    WithoutLaw(s, key);
    IndexOfKeySpec(s, key);
  }

  lemma PutLaw(s: seq<Stored>, e: Stored, capacity: nat)
    requires DistinctKeys(s)
    ensures DistinctKeys(Put(s, e, capacity)) && |Put(s, e, capacity)| <= capacity
    ensures forall x :: x in Put(s, e, capacity) ==> x == e || (x in s && x.key != e.key)
  {
    hide Without;
    WithoutLaw(s, e.key);
    assert forall x :: x in Without(s, e.key) ==> x.key != e.key;
  }

  // ----- freshness -----

  lemma {:induction false} RunDistinct(evs: seq<Event>, c: Config)
    ensures DistinctKeys(Run(evs, c))
  {
    hide Get, Put, Without, Kept, DistinctKeys;
    if evs == [] {
      assert DistinctKeys([]) by { EmptyDistinct(); }
    } else {
      RunDistinct(evs[..|evs| - 1], c);
      StepDistinct(Run(evs[..|evs| - 1], c), evs[|evs| - 1], c);
    }
  }

  lemma EmptyDistinct()
    ensures DistinctKeys([])
  {
  }

  lemma StepDistinct(s: seq<Stored>, ev: Event, c: Config)
    requires DistinctKeys(s)
    ensures DistinctKeys(Step(s, ev, c).0)
  {
    hide Get, Put, Without, Kept, DistinctKeys;
    match ev
    case Other(verb, path, target, _) =>
      WithoutLaw(s, path);
      WithoutLaw(Without(s, path), target);
    case Fetch(target, bypass, _, now, outcome) =>
      GetLaw(s, target, now);
      var (s', found) := Consult(s, target, bypass, now);
      if outcome.Returned? {
        var kept := Kept(target, outcome.r, now, c.ttl, c.digest);
        if kept.Some? { PutLaw(s', kept.value, c.capacity); }
      }
  }

  /** One event: every entry afterwards is the one just stored, or was there before and not touched. */
  lemma StepEntries(evs: seq<Event>, c: Config, e: Stored)
    requires evs != [] && e in Run(evs, c)
    ensures var k := |evs| - 1;
      (StoredAt(evs, k, c) == Some(e) && evs[k].target == e.key)
      || (e in Before(evs, k, c) && !StoresKey(evs, k, e.key, c) && !Invalidates(evs[k], e.key))
  {
    hide Get, Put, Without, DistinctKeys;
    var k := |evs| - 1;
    var s, ev := Run(evs[..k], c), evs[k];
    RunDistinct(evs[..k], c);
    match ev
    case Other(verb, path, target, _) =>
      WithoutLaw(s, path);
      WithoutLaw(Without(s, path), target);
    case Fetch(target, bypass, _, now, outcome) =>
      GetLaw(s, target, now);
      var (s', found) := Consult(s, target, bypass, now);
      if outcome.Returned? {
        var kept := Kept(target, outcome.r, now, c.ttl, c.digest);
        if kept.Some? { PutLaw(s', kept.value, c.capacity); }
      }
  }

  /** The prefix of a run has the same replies and stores. */
  lemma PrefixSame(evs: seq<Event>, n: nat, k: nat, c: Config)
    requires k < n <= |evs|
    ensures Before(evs[..n], k, c) == Before(evs, k, c)
    ensures StoredAt(evs[..n], k, c) == StoredAt(evs, k, c)
  {
    hide Run, Step, Kept;
    assert evs[..n][..k] == evs[..k];
  }

  /** Every entry in the cache is what the latest store of its key put there. */
  lemma {:induction false} EntriesAreLatest(evs: seq<Event>, c: Config, e: Stored)
    requires e in Run(evs, c)
    ensures exists j :: LatestStore(evs, j, e.key, c) && StoredAt(evs, j, c) == Some(e)
  {
    hide Step, Kept, StoredAt, Invalidates;
    var n := |evs| - 1;
    StepEntries(evs, c, e);
    if StoredAt(evs, n, c) == Some(e) && evs[n].target == e.key {
      assert LatestStore(evs, n, e.key, c);
    } else {
      EntriesAreLatest(evs[..n], c, e);
      var j :| LatestStore(evs[..n], j, e.key, c) && StoredAt(evs[..n], j, c) == Some(e);
      forall k | 0 <= k < n ensures StoredAt(evs[..n], k, c) == StoredAt(evs, k, c) && evs[..n][k] == evs[k] {
        PrefixSame(evs, n, k, c);
      }
      assert LatestStore(evs, j, e.key, c);
    }
  }

  lemma ConsultHit(s: seq<Stored>, ev: Event, c: Config)
    requires DistinctKeys(s) && Step(s, ev, c).1.FromCache?
    ensures ev.Fetch? && !ev.bypass
    ensures var reply := Step(s, ev, c).1;
      reply.e in s && reply.e.key == ev.target && ev.now <= reply.e.expires
      && (reply.notModified <==> ev.ifNoneMatch == reply.e.etag)
  {
    hide Get, DistinctKeys, Kept;
    GetLaw(s, ev.target, ev.now);
  }

  lemma KeptShape(evs: seq<Event>, j: nat, c: Config)
    requires j < |evs| && StoredAt(evs, j, c).Some?
    ensures evs[j].Fetch? && evs[j].outcome.Returned? && evs[j].outcome.r.status == 200
    ensures var e, r := StoredAt(evs, j, c).value, evs[j].outcome.r;
      && e.body == r.body && e.contentType == HeaderFields.Get(r.fields, "Content-Type")
      && e.etag == EtagFor(c.digest, r.body)
      && e.expires == evs[j].now + TtlOf(HeaderFields.Get(r.fields, "Cache-Control"), c.ttl)
      && !NoStore(HeaderFields.Get(r.fields, "Cache-Control"))
  {
    hide Run, Step, HeaderFields.Get, TtlOf, NoStore, EtagFor;
  }

  /** Section 4.2 of RFC 9111 for this cache: a hit is the latest stored 200 of its target, still within that
      GET's time to live, and no mutating request for the target has returned since; the cache answers 304
      exactly when the client presents the tag of that very body. */
  lemma HitsAreFresh(evs: seq<Event>, i: nat, c: Config) returns (j: nat)
    requires i < |evs| && ReplyAt(evs, i, c).FromCache?
    ensures j < i && LatestStore(evs[..i], j, evs[i].target, c)
    ensures evs[i].Fetch? && evs[j].Fetch? && evs[j].outcome.Returned?
    ensures var e, r := ReplyAt(evs, i, c).e, evs[j].outcome.r;
      && r.status == 200 && !NoStore(HeaderFields.Get(r.fields, "Cache-Control"))
      && e.body == r.body && e.contentType == HeaderFields.Get(r.fields, "Content-Type")
      && e.etag == EtagFor(c.digest, e.body)
      && evs[i].now <= evs[j].now + TtlOf(HeaderFields.Get(r.fields, "Cache-Control"), c.ttl)
      && (ReplyAt(evs, i, c).notModified <==> evs[i].ifNoneMatch == EtagFor(c.digest, e.body))
  {
    hide Run, Step, HeaderFields.Get, TtlOf, NoStore, EtagFor, DistinctKeys, StoredAt;
    var s := Before(evs, i, c);
    RunDistinct(evs[..i], c);
    ConsultHit(s, evs[i], c);
    var e := ReplyAt(evs, i, c).e;
    EntriesAreLatest(evs[..i], c, e);
    j :| LatestStore(evs[..i], j, e.key, c) && StoredAt(evs[..i], j, c) == Some(e);
    assert evs[..i][j] == evs[j];
    KeptShape(evs[..i], j, c);
  }

  // ----- LRU inclusion -----

  function Keys(s: seq<Stored>): seq<string> {
    seq(|s|, i requires 0 <= i < |s| => s[i].key)
  }

  function PlaceOf(ks: seq<string>, key: string): (i: nat)
    ensures i <= |ks|
  {
    if ks == [] || ks[0] == key then 0 else 1 + PlaceOf(ks[1..], key)
  }

  function DropKey(ks: seq<string>, key: string): seq<string> {
    var i := PlaceOf(ks, key);
    if i < |ks| then ks[..i] + ks[i + 1..] else ks
  }

  function Cut(ks: seq<string>, n: nat): seq<string> {
    if |ks| > n then ks[..n] else ks
  }

  lemma {:induction false} KeyPlace(s: seq<Stored>, key: string)
    ensures PlaceOf(Keys(s), key) == IndexOfKey(s, key)
  {
    if s != [] {
      assert Keys(s)[1..] == Keys(s[1..]);
      KeyPlace(s[1..], key);
    }
  }

  lemma KeysWithout(s: seq<Stored>, key: string)
    ensures Keys(Without(s, key)) == DropKey(Keys(s), key)
    ensures |DropKey(Keys(s), key)| == if key in Keys(s) then |s| - 1 else |s|
  {
    hide IndexOfKey, PlaceOf;
    KeyPlace(s, key);
    IndexOfKeySpec(s, key);
    var i, ks := IndexOfKey(s, key), Keys(s);
    if i < |s| {
      assert Keys(s[..i] + s[i + 1..]) == ks[..i] + ks[i + 1..];
      assert ks[i] in ks;
    } else {
      assert forall j :: 0 <= j < |s| ==> ks[j] == s[j].key;
    }
  }

  lemma {:induction false} DropAbsent(ks: seq<string>, key: string)
    requires key !in ks
    ensures DropKey(ks, key) == ks
  {
    if ks != [] && ks[0] != key { DropAbsent(ks[1..], key); }
  }

  lemma {:induction false} PlacePrefix(p: seq<string>, q: seq<string>, key: string)
    requires p <= q
    ensures PlaceOf(p, key) == if PlaceOf(q, key) < |p| then PlaceOf(q, key) else |p|
  {
    if p != [] && p[0] != key {
      assert p[1..] <= q[1..];
      PlacePrefix(p[1..], q[1..], key);
    }
  }

  lemma DropPrefix(p: seq<string>, q: seq<string>, key: string)
    requires p <= q
    ensures DropKey(p, key) <= DropKey(q, key)
  {
    hide PlaceOf;
    PlacePrefix(p, q, key);
    var i := PlaceOf(q, key);
    if i < |p| {
      assert p == q[..|p|];
      assert DropKey(p, key) == DropKey(q, key)[..|p| - 1];
    } else {
      assert p == q[..|p|];
      assert DropKey(p, key) == p && DropKey(q, key)[..|p|] == p;
    }
  }

  /** The keys after one event, when storing depends on the target alone. */
  function KeysAfter(ks: seq<string>, ev: Event, cacheable: string -> bool, capacity: nat): seq<string> {
    match ev
    case Other(verb, path, target, outcome) =>
      if outcome.Returned? && Mutating(verb) then DropKey(DropKey(ks, path), target) else ks
    case Fetch(target, _, _, _, _) => if cacheable(target) then Cut([target] + DropKey(ks, target), capacity) else ks
  }

  ghost predicate Storable(ev: Event, c: Config) {
    ev.Fetch? && ev.outcome.Returned? && Kept(ev.target, ev.outcome.r, ev.now, c.ttl, c.digest).Some?
  }

  /** Whether a GET's response may be stored depends only on its target. */
  ghost predicate ByTarget(evs: seq<Event>, cacheable: string -> bool, c: Config) {
    forall k :: 0 <= k < |evs| && evs[k].Fetch? ==> (Storable(evs[k], c) <==> cacheable(evs[k].target))
  }

  ghost predicate OnlyCacheable(ks: seq<string>, cacheable: string -> bool) {
    forall k | k in ks :: cacheable(k)
  }

  lemma GetKeys(s: seq<Stored>, key: string, now: int)
    ensures var (s', found) := Get(s, key, now);
      && (found.Some? ==> key in Keys(s) && Keys(s') == [key] + DropKey(Keys(s), key) && |s'| == |s|)
      && (found.None? ==> Keys(s') == DropKey(Keys(s), key) && |s'| <= |s|)
  {
    hide PlaceOf, IndexOfKey;
    KeysWithout(s, key);
    KeyPlace(s, key);
    var i := IndexOfKey(s, key);
    if i < |s| {
      assert Keys(s)[i] == key;
      assert Keys([s[i]] + Without(s, key)) == [key] + Keys(Without(s, key));
    }
  }

  lemma PutKeys(s: seq<Stored>, e: Stored, capacity: nat)
    ensures Keys(Put(s, e, capacity)) == Cut([e.key] + DropKey(Keys(s), e.key), capacity)
  {
    hide PlaceOf, IndexOfKey;
    KeysWithout(s, e.key);
    var all := [e] + Without(s, e.key);
    assert Keys(all) == [e.key] + DropKey(Keys(s), e.key);
    assert |all| > capacity ==> Keys(all[..capacity]) == Keys(all)[..capacity];
  }

  lemma DropTwice(s: seq<Stored>, key: string)
    requires DistinctKeys(s)
    ensures DropKey(DropKey(Keys(s), key), key) == DropKey(Keys(s), key)
  {
    hide PlaceOf, Without;
    WithoutLaw(s, key);
    KeysWithout(s, key);
    var r := Without(s, key);
    forall i | 0 <= i < |Keys(r)| ensures Keys(r)[i] != key {
      assert r[i] in r;
    }
    DropAbsent(Keys(r), key);
  }

  lemma StepKeys(s: seq<Stored>, ev: Event, cacheable: string -> bool, c: Config)
    requires DistinctKeys(s) && |s| <= c.capacity && OnlyCacheable(Keys(s), cacheable)
    requires ev.Fetch? ==> (Storable(ev, c) <==> cacheable(ev.target))
    ensures Keys(Step(s, ev, c).0) == KeysAfter(Keys(s), ev, cacheable, c.capacity)
  {
    hide Get, Put, Without, Kept, DistinctKeys, PlaceOf, DropKey, Keys;
    KeysLength(s);
    match ev
    case Other(verb, path, target, _) =>
      KeysWithout(s, path);
      KeysWithout(Without(s, path), target);
    case Fetch(target, bypass, _, now, outcome) =>
      GetKeys(s, target, now);
      KeysWithout(s, target);
      var (s', found) := Consult(s, target, bypass, now);
      if !cacheable(target) {
        DropAbsent(Keys(s), target);
      } else if found.None? {
        DropTwice(s, target);
        PutKeys(s', Kept(target, outcome.r, now, c.ttl, c.digest).value, c.capacity);
        KeptKey(target, outcome.r, now, c);
      }
  }

  lemma KeptKey(target: string, r: Response, now: int, c: Config)
    requires Kept(target, r, now, c.ttl, c.digest).Some?
    ensures Kept(target, r, now, c.ttl, c.digest).value.key == target
  {
    hide HeaderFields.Get, TtlOf, NoStore;
  }

  lemma KeysLength(s: seq<Stored>)
    ensures |Keys(s)| == |s|
  {
  }

  lemma {:induction false} DropMembers(ks: seq<string>, key: string)
    ensures forall k | k in DropKey(ks, key) :: k in ks
    ensures |DropKey(ks, key)| <= |ks|
  {
  }

  lemma {:induction false} RunBounds(evs: seq<Event>, cacheable: string -> bool, c: Config)
    requires ByTarget(evs, cacheable, c)
    ensures |Run(evs, c)| <= c.capacity && OnlyCacheable(Keys(Run(evs, c)), cacheable)
    ensures evs != [] ==> Keys(Run(evs, c)) == KeysAfter(Keys(Run(evs[..|evs| - 1], c)), evs[|evs| - 1], cacheable, c.capacity)
  {
    hide Step, DistinctKeys, Storable, DropKey, Keys;
    if evs == [] {
      KeysLength([]);
    } else {
      var n, ev := |evs| - 1, evs[|evs| - 1];
      var s := Run(evs[..n], c);
      assert ByTarget(evs[..n], cacheable, c) by {
        assert forall k :: 0 <= k < n ==> evs[..n][k] == evs[k];
      }
      RunBounds(evs[..n], cacheable, c);
      RunDistinct(evs[..n], c);
      StepKeys(s, ev, cacheable, c);
      KeysLength(s);
      KeysLength(Run(evs, c));
      match ev
      case Other(_, path, target, _) =>
        DropMembers(Keys(s), path);
        DropMembers(DropKey(Keys(s), path), target);
      case Fetch(target, _, _, _, _) => DropMembers(Keys(s), target);
    }
  }

  lemma KeysAfterPrefix(p: seq<string>, q: seq<string>, ev: Event, cacheable: string -> bool, m: nat, n: nat)
    requires p <= q && m <= n
    ensures KeysAfter(p, ev, cacheable, m) <= KeysAfter(q, ev, cacheable, n)
  {
    hide DropKey;
    match ev
    case Other(_, path, target, _) =>
      DropPrefix(p, q, path);
      DropPrefix(DropKey(p, path), DropKey(q, path), target);
    case Fetch(target, _, _, _, _) =>
      DropPrefix(p, q, target);
      var a, b := [target] + DropKey(p, target), [target] + DropKey(q, target);
      assert a <= b;
      assert Cut(a, m) <= b && |Cut(a, m)| <= |Cut(b, n)|;
  }

  /** The inclusion property of LRU, through hits, expiries, bypasses, evictions and invalidations: at every
      moment the smaller cache's keys are a recency-order prefix of the larger one's. */
  lemma {:induction false} Inclusion(evs: seq<Event>, cacheable: string -> bool, c: Config, larger: nat)
    requires ByTarget(evs, cacheable, c) && c.capacity <= larger
    ensures Keys(Run(evs, c)) <= Keys(Run(evs, c.(capacity := larger)))
  {
    hide Run, Keys, KeysAfter;
    var d := c.(capacity := larger);
    assert ByTarget(evs, cacheable, d) by { SameStorable(evs, cacheable, c, larger); }
    RunBounds(evs, cacheable, c);
    RunBounds(evs, cacheable, d);
    if evs == [] {
      assert Run(evs, c) == Run(evs, d) by { EmptyRun(c); EmptyRun(d); }
    } else {
      var n := |evs| - 1;
      assert ByTarget(evs[..n], cacheable, c) by {
        assert forall k :: 0 <= k < n ==> evs[..n][k] == evs[k];
      }
      Inclusion(evs[..n], cacheable, c, larger);
      KeysAfterPrefix(Keys(Run(evs[..n], c)), Keys(Run(evs[..n], d)), evs[n], cacheable, c.capacity, larger);
    }
  }

  lemma EmptyRun(c: Config)
    ensures Run([], c) == []
  {
  }

  lemma SameStorable(evs: seq<Event>, cacheable: string -> bool, c: Config, larger: nat)
    requires ByTarget(evs, cacheable, c)
    ensures ByTarget(evs, cacheable, c.(capacity := larger))
  {
    hide Kept;
    forall k | 0 <= k < |evs| ensures Storable(evs[k], c.(capacity := larger)) <==> Storable(evs[k], c) {
    }
  }

  /** Hits over a run. */
  function Hits(evs: seq<Event>, c: Config): nat {
    if evs == [] then 0
    else Hits(evs[..|evs| - 1], c) + if ReplyAt(evs, |evs| - 1, c).FromCache? then 1 else 0
  }

  /** No entry is past its time when a request arrives. */
  ghost predicate NothingExpires(evs: seq<Event>, c: Config) {
    forall k, e :: 0 <= k < |evs| && evs[k].Fetch? && e in Before(evs, k, c) ==> evs[k].now <= e.expires
  }

  lemma HitMeansPresent(s: seq<Stored>, ev: Event, c: Config)
    requires DistinctKeys(s)
    requires ev.Fetch? ==> forall e | e in s :: ev.now <= e.expires
    ensures Step(s, ev, c).1.FromCache? <==> ev.Fetch? && !ev.bypass && ev.target in Keys(s)
  {
    hide Put, Kept, DistinctKeys;
    if ev.Fetch? {
      IndexOfKeySpec(s, ev.target);
      var i := IndexOfKey(s, ev.target);
      if i < |s| {
        assert Keys(s)[i] == ev.target && s[i] in s;
      } else {
        assert forall j :: 0 <= j < |s| ==> Keys(s)[j] == s[j].key != ev.target;
      }
    }
  }

  /** Hence a larger cache never has fewer hits when nothing expires. */
  lemma {:induction false} LargerHitsMore(evs: seq<Event>, cacheable: string -> bool, c: Config, larger: nat)
    requires ByTarget(evs, cacheable, c) && c.capacity <= larger
    requires NothingExpires(evs, c) && NothingExpires(evs, c.(capacity := larger))
    ensures Hits(evs, c) <= Hits(evs, c.(capacity := larger))
  {
    hide Run, Keys, Step, DistinctKeys;
    if evs != [] {
      var n, d := |evs| - 1, c.(capacity := larger);
      assert forall k :: 0 <= k < n ==> evs[..n][k] == evs[k] && evs[..n][..k] == evs[..k];
      assert ByTarget(evs[..n], cacheable, c);
      LargerHitsMore(evs[..n], cacheable, c, larger);
      Inclusion(evs[..n], cacheable, c, larger);
      RunDistinct(evs[..n], c);
      RunDistinct(evs[..n], d);
      HitMeansPresent(Run(evs[..n], c), evs[n], c);
      HitMeansPresent(Run(evs[..n], d), evs[n], d);
    }
  }
}

/** What the client of a cached route is shown: on a hit, on a miss that was stored, and over whole runs. */
module CacheViews {
  import opened Text
  import opened HeaderFields
  import opened Responses
  import opened CacheSpec
  import CacheLaws
  import CacheInterleaving

  lemma TagNames()
    ensures Canonical("ETag") != Canonical("X-Cache") && Canonical("Content-Type") != Canonical("ETag")
    ensures Canonical("Content-Type") != Canonical("X-Cache")
  {
    CanonicalLength("ETag");
    CanonicalLength("X-Cache");
    CanonicalLength("Content-Type");
  }

  lemma TaggedLaw(fs: Fields, etag: string, mark: string, name: string)
    requires WellFormed(fs)
    ensures var tagged := Set(Set(fs, "ETag", etag), "X-Cache", mark);
      WellFormed(tagged) && Values(tagged, name) ==
        if Canonical(name) == Canonical("ETag") then [etag]
        else if Canonical(name) == Canonical("X-Cache") then [mark]
        else Values(fs, name)
  {
    hide Canonical, WellFormed, Set, Values;
    TagNames();
    SetLaw(fs, "ETag", etag, name);
    SetLaw(Set(fs, "ETag", etag), "X-Cache", mark, name);
  }

  lemma HitShows(v: Response, hijacked: bool, e: Stored, ifNoneMatch: string)
    requires WellFormed(v.fields)
    ensures ShowsHit(v, HitView(v, hijacked, e, ifNoneMatch), hijacked, e, ifNoneMatch)
  {
    hide Canonical, WellFormed, Set, Values;
    TagNames();
    var tagged := Set(Set(v.fields, "ETag", e.etag), "X-Cache", "HIT");
    forall name: string
      ensures Values(HitView(v, hijacked, e, ifNoneMatch).fields, name) == HitValues(v, e, ifNoneMatch, name)
    {
      TaggedLaw(v.fields, e.etag, "HIT", name);
      SetLaw(tagged, "Content-Type", e.contentType, name);
    }
  }

  lemma MissShows(v: Response, hijacked: bool, e: Stored, ifNoneMatch: string)
    requires WellFormed(v.fields)
    ensures ShowsMiss(v, MissView(v, hijacked, e, ifNoneMatch), hijacked, e, ifNoneMatch)
  {
    hide Canonical, WellFormed, Set, Values;
    forall name: string
      ensures Values(MissView(v, hijacked, e, ifNoneMatch).fields, name) ==
        if Canonical(name) == Canonical("ETag") then [e.etag]
        else if Canonical(name) == Canonical("X-Cache") then ["MISS"]
        else Values(v.fields, name)
    {
      TaggedLaw(v.fields, e.etag, "MISS", name);
    }
  }

  // ----- what is stored, and what is served -----

  predicate OccursAt(s: string, sub: string, i: nat) {
    i + |sub| <= |s| && s[i..i + |sub|] == sub
  }

  /** strings.Index: the first place, or past the end. */
  lemma {:induction false} IndexOfTextIsFirst(s: string, sub: string, i: nat)
    requires OccursAt(s, sub, i)
    ensures IndexOfText(s, sub) <= i
    decreases |s|
  {
    if !(sub <= s) {
      assert i > 0 by { assert s[0..|sub|] == s[..|sub|]; }
      assert s[1..][i - 1..i - 1 + |sub|] == s[i..i + |sub|];
      IndexOfTextIsFirst(s[1..], sub, i - 1);
    }
  }

  /** A handler's response is stored if and only if its status is 200 and its first Cache-Control value has no-store
      nowhere in it. What is stored is the body, its tag, the first Content-Type, and when that expires. */
  lemma KeptExactly(key: string, v: Response, now: int, ttl: int, digest: string -> string)
    ensures var cc := HeaderFields.Get(v.fields, "Cache-Control"); var kept := Kept(key, v, now, ttl, digest);
      && (kept.Some? <==> v.status == 200 && forall i: nat :: !OccursAt(cc, "no-store", i))
      && (kept.Some? ==> kept.value == Stored(key, v.body, HeaderFields.Get(v.fields, "Content-Type"),
            "\"" + digest(v.body) + "\"", now + TtlOf(cc, ttl)))
  {
    hide HeaderFields.Get, TtlOf, IndexOfText;
    var cc := HeaderFields.Get(v.fields, "Cache-Control");
    if i: nat :| OccursAt(cc, "no-store", i) {
      IndexOfTextIsFirst(cc, "no-store", i);
    }
    var i := IndexOfText(cc, "no-store");
    assert i <= |cc| ==> OccursAt(cc, "no-store", i);
  }

  /** A GET is answered from the cache if and only if it does not bypass it and an entry for its target has not
      expired. */
  lemma HitsExactly(evs: seq<CacheLaws.Event>, i: nat, c: CacheLaws.Config)
    requires i < |evs|
    ensures CacheLaws.ReplyAt(evs, i, c).FromCache? <==>
      && evs[i].Fetch? && !evs[i].bypass
      && exists e :: e in CacheLaws.Before(evs, i, c) && e.key == evs[i].target && evs[i].now <= e.expires
  {
    hide CacheLaws.Run, CacheLaws.DistinctKeys, Kept;
    var s := CacheLaws.Before(evs, i, c);
    CacheLaws.RunDistinct(evs[..i], c);
    if evs[i].Fetch? {
      CacheLaws.GetLaw(s, evs[i].target, evs[i].now);
      FreshIsFound(s, evs[i].target, evs[i].now);
    }
  }

  lemma FreshIsFound(s: seq<Stored>, key: string, now: int)
    requires CacheLaws.DistinctKeys(s)
    ensures forall e :: e in s && e.key == key && now <= e.expires ==> CacheSpec.Get(s, key, now).1 == Some(e)
  {
    CacheLaws.IndexOfKeySpec(s, key);
  }

  /** The client's response to a GET answered from the cache, end to end: the body and the tag are those of the
      response that the handler gave to the last GET stored for the target, within its time to live; a client that
      named the tag gets 304 and no body. */
  lemma ClientIsShownTheStored(evs: seq<CacheLaws.Event>, i: nat, c: CacheLaws.Config, v: Response) returns (j: nat)
    requires i < |evs| && CacheLaws.ReplyAt(evs, i, c).FromCache? && WellFormed(v.fields)
    ensures evs[i].Fetch? && j < i && evs[j].Fetch? && evs[j].outcome.Returned?
    ensures CacheLaws.LatestStore(evs[..i], j, evs[i].target, c)
    ensures var r, stored := HitView(v, false, CacheLaws.ReplyAt(evs, i, c).e, evs[i].ifNoneMatch), evs[j].outcome.r;
      var tag, cc := "\"" + c.digest(stored.body) + "\"", HeaderFields.Get(stored.fields, "Cache-Control");
      && stored.status == 200 && evs[i].now <= evs[j].now + TtlOf(cc, c.ttl)
      && r.status == (if evs[i].ifNoneMatch == tag then 304 else 200)
      && SentBody(r) == (if evs[i].ifNoneMatch == tag || v.isHead then "" else stored.body)
      && Values(r.fields, "ETag") == [tag] && Values(r.fields, "X-Cache") == ["HIT"]
  {
    hide HeaderFields.Get, TtlOf, NoStore, Values, WellFormed, CacheLaws.LatestStore, CacheLaws.ReplyAt;
    j := CacheLaws.HitsAreFresh(evs, i, c);
    var e := CacheLaws.ReplyAt(evs, i, c).e;
    HitShows(v, false, e, evs[i].ifNoneMatch);
    TagNames();
    hide HitView, Canonical;
  }

  /** And in every interleaving of lookups, returning handlers and writes: the body is the one that some GET's handler
      returned, stored at step j and the last to be stored for the target. */
  lemma InterleavedClientIsShown(
    steps: seq<CacheInterleaving.Step>, i: nat, c: CacheLaws.Config, v: Response, ifNoneMatch: string) returns (j: nat)
    requires CacheInterleaving.Hits(steps, i, c) && WellFormed(v.fields)
    ensures j < i && steps[j].Return? && steps[j].get < j && steps[steps[j].get].Arrive?
    ensures steps[steps[j].get].key == steps[i].key && CacheInterleaving.Untouched(steps, j, i, steps[i].key, c)
    ensures var e := CacheInterleaving.Found(steps, i, c).value;
      var r := HitView(v, false, e, ifNoneMatch);
      && (ifNoneMatch != e.etag ==> r.status == 200 && r.body == steps[j].r.body)
      && (ifNoneMatch == e.etag ==> r.status == 304 && SentBody(r) == "")
  {
    hide CacheInterleaving.Found, CacheInterleaving.Untouched, Set, WellFormed;
    j := CacheInterleaving.HitComesFrom(steps, i, c);
  }
}

/** The cache itself: a recency list of entries and a map from keys to list nodes, kept in agreement. */
module Cache {
  import opened Text
  import opened HeaderFields
  import opened RequestWire
  import opened Responses
  import opened RecencyList
  import Spec = CacheSpec
  import CacheViews

  /** The stored responses of a node sequence. */
  ghost function StoredOf(nodes: seq<Node>): seq<Spec.Stored> {
    seq(|nodes|, i requires 0 <= i < |nodes| => nodes[i].stored)
  }

  /** Every node still holds what came in, byte for byte. */
  ghost predicate Intact(nodes: seq<Node>)
    reads set n | n in nodes :: n.entry.body
  {
    forall n | n in nodes :: n.entry.View() == n.stored
  }

  /** The list's keys are distinct and are the map's domain, and each map value is its key's own node. */
  ghost predicate Indexed(items: map<string, Node>, nodes: seq<Node>) {
    && (forall i :: 0 <= i < |nodes| ==> nodes[i].entry.key in items && items[nodes[i].entry.key] == nodes[i])
    && forall k :: k in items ==> items[k] in nodes && items[k].entry.key == k
  }

  ghost function Less(nodes: seq<Node>, k: nat): seq<Node>
    requires k < |nodes|
  {
    nodes[..k] + nodes[k + 1..]
  }

  lemma InLess(nodes: seq<Node>, k: nat, n: Node)
    requires k < |nodes| && forall i, j :: 0 <= i < j < |nodes| ==> nodes[i] != nodes[j]
    ensures n in Less(nodes, k) <==> n in nodes && n != nodes[k]
  {
    if n in nodes && n != nodes[k] {
      var j :| 0 <= j < |nodes| && nodes[j] == n;
      assert Less(nodes, k)[if j < k then j else j - 1] == n;
    }
  }

  lemma IndexedLess(items: map<string, Node>, nodes: seq<Node>, k: nat)
    requires Indexed(items, nodes) && k < |nodes|
    requires forall i, j :: 0 <= i < j < |nodes| ==> nodes[i] != nodes[j]
    ensures Indexed(items - {nodes[k].entry.key}, Less(nodes, k))
    ensures Indexed(items, [nodes[k]] + Less(nodes, k))
  {
    var less := Less(nodes, k);
    assert forall i :: 0 <= i < |less| ==> less[i] == nodes[if i < k then i else i + 1];
    forall n: Node ensures n in less <==> n in nodes && n != nodes[k] {
      InLess(nodes, k, n);
    }
  }

  lemma IndexedFront(items: map<string, Node>, nodes: seq<Node>, n: Node)
    requires Indexed(items, nodes) && n.entry.key !in items
    ensures Indexed(items[n.entry.key := n], [n] + nodes)
  {
    assert forall i :: 0 <= i < |nodes| ==> nodes[i].entry.key in items;
  }

  /** The stored sequence follows the node sequence. */
  lemma StoredLess(nodes: seq<Node>, k: nat)
    requires k < |nodes|
    ensures StoredOf(nodes)[k] == nodes[k].stored
    ensures StoredOf(Less(nodes, k)) == StoredOf(nodes)[..k] + StoredOf(nodes)[k + 1..]
    ensures StoredOf([nodes[k]] + Less(nodes, k)) ==
      [StoredOf(nodes)[k]] + (StoredOf(nodes)[..k] + StoredOf(nodes)[k + 1..])
  {
    assert StoredOf(Less(nodes, k)) == StoredOf(nodes)[..k] + StoredOf(nodes)[k + 1..];
  }

  lemma IntactLess(nodes: seq<Node>, k: nat)
    requires Intact(nodes) && k < |nodes|
    ensures Intact(Less(nodes, k)) && Intact([nodes[k]] + Less(nodes, k))
  {
    forall n | n in [nodes[k]] + Less(nodes, k) ensures n in nodes && n.entry.View() == n.stored {}
  }

  lemma StoredLength(nodes: seq<Node>)
    ensures |StoredOf(nodes)| == |nodes|
  {
  }

  class Cache {
    const capacity: nat
    const ttl: int
    const digest: string -> string
    const order: List
    var items: map<string, Node>
    var hits: nat
    var misses: nat

    ghost predicate Valid()
      reads this, order, order.root, order.nodes
      reads set n | n in order.nodes :: n.entry.body
    {
      order.Valid() && Indexed(items, order.nodes) && Intact(order.nodes) && |order.nodes| <= capacity
    }

    ghost function Bodies(): set<array<char>>
      reads order
    {
      set n | n in order.nodes :: n.entry.body
    }

    ghost function Contents(): seq<Spec.Stored>
      reads order
    {
      StoredOf(order.nodes)
    }

    constructor (capacity: nat, ttl: int, digest: string -> string, dummy: Entry)
      ensures Valid() && fresh(order) && fresh(order.root) && Contents() == [] && hits == misses == 0
      ensures this.capacity == capacity && this.ttl == ttl && this.digest == digest
    {
      this.capacity, this.ttl, this.digest := capacity, ttl, digest;
      items, hits, misses := map[], 0, 0;
      order := new List(dummy);
    }

    /** Where a key's node sits in the list. */
    ghost method Locate(key: string) returns (k: nat)
      requires order.Valid() && Indexed(items, order.nodes) && Intact(order.nodes)
      ensures k == Spec.IndexOfKey(Contents(), key) <= |order.nodes|
      ensures key in items <==> k < |order.nodes|
      ensures key in items ==> order.nodes[k].entry.key == key
    {
      if key in items {
        k :| 0 <= k < |order.nodes| && order.nodes[k] == items[key];
      } else {
        k := |order.nodes|;
      }
      forall i | 0 <= i < |order.nodes| ensures Contents()[i].key == order.nodes[i].entry.key {
        assert order.nodes[i] in order.nodes;
      }
      KeyAt(Contents(), key, k);
    }

    method FindNode(key: string, ghost k: nat) returns (n: Node)
      requires Indexed(items, order.nodes) && k < |order.nodes| && order.nodes[k].entry.key == key
      ensures n == order.nodes[k]
    {
      n := items[key];
    }

    /** The pair order.Remove(el), delete(items, key). */
    method Drop(n: Node, ghost k: nat)
      requires order.Valid() && Indexed(items, order.nodes) && Intact(order.nodes)
      requires k < |order.nodes| && order.nodes[k] == n
      modifies this`items, order, order.root, order.nodes
      ensures order.Valid() && order.root == old(order.root) && Indexed(items, order.nodes) && Intact(order.nodes)
      ensures order.nodes == Less(old(order.nodes), k) && items == old(items) - {n.entry.key}
      ensures Contents() == old(Contents()[..k] + Contents()[k + 1..])
    {
      hide StoredOf, Indexed, List.Valid;
      order.NodesDiffer();
      StoredLess(order.nodes, k);
      IndexedLess(items, order.nodes, k);
      ghost var nodes := order.nodes;
      order.Remove(n, k);
      IntactLess(nodes, k);
      items := items - {n.entry.key};
    }

    method Promote(n: Node, ghost k: nat)
      requires order.Valid() && Indexed(items, order.nodes) && Intact(order.nodes)
      requires k < |order.nodes| && order.nodes[k] == n
      modifies order, order.root, order.nodes
      ensures order.Valid() && order.root == old(order.root) && Indexed(items, order.nodes) && Intact(order.nodes)
      ensures order.nodes == [n] + Less(old(order.nodes), k)
      ensures Contents() == old([Contents()[k]] + (Contents()[..k] + Contents()[k + 1..]))
    {
      hide StoredOf, Indexed, List.Valid;
      order.NodesDiffer();
      StoredLess(order.nodes, k);
      IndexedLess(items, order.nodes, k);
      ghost var nodes := order.nodes;
      order.MoveToFront(n, k);
      IntactLess(nodes, k);
    }

    method Get(key: string, now: int) returns (e: Option<Entry>)
      requires Valid()
      modifies this`items, order, order.root, order.nodes
      ensures Valid() && order.root == old(order.root)
      ensures var (after, found) := Spec.Get(old(Contents()), key, now);
        Contents() == after && (e.Some? <==> found.Some?) && (e.Some? ==> e.value.View() == found.value)
      ensures forall n | n in order.nodes :: n in old(order.nodes)
      ensures e.Some? ==> exists n :: n in order.nodes && n.entry == e.value
    {
      hide StoredOf, Indexed, Spec.IndexOfKey;
      StoredLength(order.nodes);
      ghost var k := Locate(key);
      if key !in items {
        return None;
      }
      var n := FindNode(key, k);
      StoredLess(order.nodes, k);
      if now > n.entry.expires {
        Drop(n, k);
        return None;
      }
      Promote(n, k);
      assert n in order.nodes;
      e := Some(n.entry);
    }

    method Invalidate(key: string)
      requires Valid()
      modifies this`items, order, order.root, order.nodes
      ensures Valid() && order.root == old(order.root) && Contents() == Spec.Without(old(Contents()), key)
      ensures forall n | n in order.nodes :: n in old(order.nodes)
    {
      hide StoredOf, Indexed, Spec.IndexOfKey;
      ghost var k := Locate(key);
      assert |Contents()| == |order.nodes| by { StoredLength(order.nodes); }
      if key in items {
        var n := FindNode(key, k);
        Drop(n, k);
      }
    }

    /** PushFront and the map entry for it. */
    method Insert(e: Entry)
      requires order.Valid() && Indexed(items, order.nodes) && Intact(order.nodes) && e.key !in items
      modifies this`items, order, order.root, order.nodes
      ensures order.Valid() && order.root == old(order.root) && Indexed(items, order.nodes) && Intact(order.nodes)
      ensures Contents() == [e.View()] + old(Contents())
      ensures order.nodes != [] && fresh(order.nodes[0]) && order.nodes[0].entry == e
      ensures order.nodes == [order.nodes[0]] + old(order.nodes)
    {
      hide Indexed, List.Valid;
      ghost var nodes := order.nodes;
      var n := order.PushFront(e);
      IndexedFront(items, nodes, n);
      items := items[e.key := n];
      assert StoredOf([n] + nodes) == [n.stored] + StoredOf(nodes);
    }

    /** Dropping the least recently used entry. */
    method EvictLast()
      requires order.Valid() && Indexed(items, order.nodes) && Intact(order.nodes) && order.nodes != []
      modifies this`items, order, order.root, order.nodes
      ensures order.Valid() && order.root == old(order.root) && Indexed(items, order.nodes) && Intact(order.nodes)
      ensures order.nodes == old(order.nodes)[..|old(order.nodes)| - 1]
      ensures Contents() == old(Contents()[..|order.nodes| - 1])
    {
      hide StoredOf, Indexed;
      StoredLength(order.nodes);
      ghost var k := |order.nodes| - 1;
      var last := order.Back();
      assert order.nodes[..k] + order.nodes[k + 1..] == order.nodes[..k];
      assert Contents()[..k] + Contents()[k + 1..] == Contents()[..k];
      Drop(last, k);
    }

    /** The eviction loop. */
    method EvictOver()
      requires order.Valid() && Indexed(items, order.nodes) && Intact(order.nodes)
      modifies this`items, order, order.root, order.nodes
      ensures Valid() && order.root == old(order.root)
      ensures Contents() == old(if |Contents()| > capacity then Contents()[..capacity] else Contents())
      ensures order.nodes == old(order.nodes)[..|order.nodes|]
    {
      hide StoredOf, Indexed;
      ghost var all, nodes := Contents(), order.nodes;
      StoredLength(nodes);
      while order.len > capacity
        invariant order.Valid() && order.root == old(order.root) && Indexed(items, order.nodes) && Intact(order.nodes)
        invariant |order.nodes| <= |nodes| && order.nodes == nodes[..|order.nodes|]
        invariant Contents() == all[..|order.nodes|]
        invariant |order.nodes| >= capacity || |order.nodes| == |nodes|
        decreases order.len
      {
        EvictLast();
      }
    }

    /** Whatever the key had is dropped, and the entry goes to the front. */
    method Replace(e: Entry)
      requires Valid()
      modifies this`items, order, order.root, order.nodes
      ensures order.Valid() && order.root == old(order.root) && Indexed(items, order.nodes) && Intact(order.nodes)
      ensures Contents() == [e.View()] + Spec.Without(old(Contents()), e.key)
      ensures forall n | n in order.nodes :: (fresh(n) && n.entry == e) || n in old(order.nodes)
    {
      hide StoredOf, Indexed, Spec.IndexOfKey;
      StoredLength(order.nodes);
      ghost var k := Locate(e.key);
      if e.key in items {
        var n := FindNode(e.key, k);
        Drop(n, k);
      }
      Insert(e);
    }

    method Put(e: Entry)
      requires Valid()
      modifies this`items, order, order.root, order.nodes
      ensures Valid() && order.root == old(order.root)
      ensures Contents() == Spec.Put(old(Contents()), e.View(), capacity)
      ensures forall n | n in order.nodes :: (fresh(n) && n.entry == e) || n in old(order.nodes)
    {
      hide StoredOf, Indexed, Spec.Without;
      Replace(e);
      ghost var nodes := order.nodes;
      assert forall i :: 0 <= i < |nodes| ==> nodes[i] in nodes && (fresh(nodes[i]) || nodes[i] in old(order.nodes));
      EvictOver();
      assert forall n | n in order.nodes :: n in nodes;
    }

    // ----- the middleware around a handler; the lock is not held while the handler runs -----

    /** A non-GET request, once its handler has returned. */
    method AfterOther(req: Request)
      requires Valid()
      modifies this`items, order, order.root, order.nodes
      ensures Valid() && order.root == old(order.root)
      ensures Contents() == Spec.AfterOther(old(Contents()), req.verb, req.path, req.rawTarget)
      ensures forall n | n in order.nodes :: n in old(order.nodes)
    {
      hide StoredOf, Indexed, Spec.Without;
      if Spec.Mutating(req.verb) {
        ghost var nodes := order.nodes;
        Invalidate(req.path);
        assert forall i :: 0 <= i < |order.nodes| ==> order.nodes[i] in nodes;
        Invalidate(req.rawTarget);
      }
    }

    /** The lookup, unless the request bypasses it. */
    method Consult(key: string, bypass: bool, now: int) returns (e: Option<Entry>)
      requires Valid()
      modifies this`items, this`hits, this`misses, order, order.root, order.nodes
      ensures Valid() && order.root == old(order.root)
      ensures var (after, found) := Spec.Consult(old(Contents()), key, bypass, now);
        Contents() == after && (e.Some? <==> found.Some?) && (e.Some? ==> e.value.View() == found.value)
      ensures hits == old(hits) + (if e.Some? then 1 else 0)
      ensures misses == old(misses) + (if !bypass && e.None? then 1 else 0)
      ensures forall n | n in order.nodes :: n in old(order.nodes)
      ensures e.Some? ==> exists n :: n in order.nodes && n.entry == e.value
    {
      hide StoredOf, Indexed, Spec.Get;
      if bypass {
        return None;
      }
      e := Get(key, now);
      if e.Some? {
        hits := hits + 1;
      } else {
        misses := misses + 1;
      }
    }

    /** A GET request up to its handler; served means the handler is skipped. */
    method BeforeGet(req: Request, w: ResponseWriter, now: int) returns (served: bool)
      requires Valid() && w.Valid() && w.body !in Bodies()
      modifies this`items, this`hits, this`misses, order, order.root, order.nodes, w, w.headers, w.body
      ensures Valid() && order.root == old(order.root) && w.Valid()
      ensures var bypass := ContainsToken(req.headers, "Cache-Control", "no-cache");
        var (after, found) := Spec.Consult(old(Contents()), req.rawTarget, bypass, now);
        && Contents() == after && (served <==> found.Some?)
        && w.View() == (if served
             then Spec.HitView(old(w.View()), old(w.hijacked), found.value, HeaderFields.Get(req.headers, "If-None-Match"))
             else old(w.View()))
        && (served ==> Spec.ShowsHit(old(w.View()), w.View(), old(w.hijacked), found.value,
             HeaderFields.Get(req.headers, "If-None-Match")))
      ensures w.hijacked == (served || old(w.hijacked))
      ensures (w.body == old(w.body) || fresh(w.body)) && w.body !in Bodies()
      ensures Bodies() <= old(Bodies())
    {
      hide StoredOf, Indexed, Spec.Consult, ContainsToken, HeaderFields.Get, Set, WellFormed, Spec.ShowsHit, Spec.HitView;
      w.headers.ContentsWellFormed();
      ghost var v, frozen := w.View(), w.hijacked;
      var bypass := ContainsToken(req.headers, "Cache-Control", "no-cache");
      ghost var nodes := order.nodes;
      var e := Consult(req.rawTarget, bypass, now);
      NoNewBodies(nodes);
      if e.None? {
        return false;
      }
      ghost var kept := Contents();
      Answer(w, e.value, HeaderFields.Get(req.headers, "If-None-Match"));
      assert Contents() == kept;
      CacheViews.HitShows(v, frozen, e.value.View(), HeaderFields.Get(req.headers, "If-None-Match"));
      served := true;
    }

    lemma NoNewBodies(nodes: seq<Node>)
      requires forall n | n in order.nodes :: n in nodes
      ensures Bodies() <= set n | n in nodes :: n.entry.body
    {
    }

    /** What is written to the client on a hit. */
    method Answer(w: ResponseWriter, e: Entry, ifNoneMatch: string)
      requires w.Valid() && w.body != e.body
      modifies w, w.headers, w.body
      ensures w.Valid() && w.hijacked && (w.body == old(w.body) || fresh(w.body))
      ensures w.View() == Spec.HitView(old(w.View()), old(w.hijacked), old(e.View()), ifNoneMatch)
    {
      hide Set;
      w.headers.SetKey("ETag", e.etag);
      w.headers.SetKey("X-Cache", "HIT");
      if ifNoneMatch == e.etag {
        w.WriteHeader(304);
        w.Hijack();
        return;
      }
      if e.contentType != "" {
        w.headers.SetKey("Content-Type", e.contentType);
      }
      w.WriteHeader(200);
      w.SetBody(e.body[..]);
      w.Hijack();
    }

    /** Stores a private copy of the response's body. */
    method Store(key: string, w: ResponseWriter, expires: int) returns (etag: string)
      requires Valid() && w.Valid() && w.body !in Bodies()
      modifies this`items, order, order.root, order.nodes
      ensures Valid() && order.root == old(order.root) && w.Valid() && w.View() == old(w.View())
      ensures etag == Spec.EtagFor(digest, w.Body())
      ensures Contents() == Spec.Put(old(Contents()),
        Spec.Stored(key, w.Body(), HeaderFields.Get(w.headers.Contents(), "Content-Type"), etag, expires), capacity)
      ensures w.body !in Bodies() && forall b | b in Bodies() :: b in old(Bodies()) || fresh(b)
    {
      hide StoredOf, Indexed, Spec.Put, HeaderFields.Get, Spec.EtagFor;
      var contentType := w.headers.GetKey("Content-Type");
      var body := new char[w.size];
      forall i | 0 <= i < w.size {
        body[i] := w.body[i];
      }
      assert body[..] == w.body[..w.size];
      etag := Spec.EtagFor(digest, body[..]);
      ghost var before := Contents();
      assert before == old(Contents());
      Put(Entry(key, body, contentType, etag, expires));
    }

    /** A GET request once its handler has returned: store the response, and revalidate the client. */
    method AfterGet(req: Request, w: ResponseWriter, now: int)
      requires Valid() && w.Valid() && w.body !in Bodies()
      modifies this`items, order, order.root, order.nodes, w, w.headers, w.body
      ensures Valid() && order.root == old(order.root) && w.Valid() && w.hijacked == old(w.hijacked)
      ensures var kept := Spec.Kept(req.rawTarget, old(w.View()), now, ttl, digest);
        && Contents() == Spec.AfterGet(old(Contents()), kept, capacity)
        && w.View() == (if kept.None? then old(w.View())
             else Spec.MissView(old(w.View()), w.hijacked, kept.value, HeaderFields.Get(req.headers, "If-None-Match")))
        && (kept.Some? ==> Spec.ShowsMiss(old(w.View()), w.View(), w.hijacked, kept.value,
             HeaderFields.Get(req.headers, "If-None-Match")))
      ensures (w.body == old(w.body) || fresh(w.body)) && w.body !in Bodies()
      ensures forall b | b in Bodies() :: b in old(Bodies()) || fresh(b)
    {
      hide StoredOf, Indexed, Spec.Put, HeaderFields.Get, Set, Spec.TtlOf, Spec.NoStore, Spec.EtagFor, Spec.ShowsMiss;
      hide WellFormed;
      w.headers.ContentsWellFormed();
      ghost var v := w.View();
      var cc := w.headers.GetKey("Cache-Control");
      if Spec.NoStore(cc) || w.status != 200 {
        return;
      }
      var etag := Store(req.rawTarget, w, now + Spec.TtlOf(cc, ttl));
      ghost var after := Contents();
      Announce(w, etag, HeaderFields.Get(req.headers, "If-None-Match"));
      assert Contents() == after;
      CacheViews.MissShows(v, w.hijacked, Spec.Kept(req.rawTarget, v, now, ttl, digest).value,
        HeaderFields.Get(req.headers, "If-None-Match"));
    }
  }

  /** The headers of a stored miss, and the 304 for a client that is up to date. */
  method Announce(w: ResponseWriter, etag: string, ifNoneMatch: string)
    requires w.Valid()
    modifies w, w.headers, w.body
    ensures w.Valid() && w.hijacked == old(w.hijacked) && (w.body == old(w.body) || fresh(w.body))
    ensures var tagged := Set(Set(old(w.View()).fields, "ETag", etag), "X-Cache", "MISS");
      w.View() == if ifNoneMatch == etag
        then old(w.View()).(fields := tagged, status := if old(w.hijacked) then old(w.status) else 304, body := "")
        else old(w.View()).(fields := tagged)
  {
    hide Set;
    w.headers.SetKey("ETag", etag);
    w.headers.SetKey("X-Cache", "MISS");
    if ifNoneMatch == etag {
      w.WriteHeader(304);
      w.SetBody("");
    }
  }

  /** What any code does to its response afterwards, the stored bytes stay as they are. */
  method LaterWritesDoNotReachTheCache(c: Cache, w: ResponseWriter, more: string, status: int, msg: string, op: nat)
    requires c.Valid() && w.Valid() && w.body !in c.Bodies()
    modifies w, w.headers, w.body
    ensures c.Valid() && c.Contents() == old(c.Contents()) && w.Valid() && w.body !in c.Bodies()
  {
    hide StoredOf, Indexed, Intact, Set;
    ghost var kept := c.Contents();
    match op
    case 0 => w.Write(more);
    case 1 => w.SetBody(more);
    case _ => w.Error(status, msg);
    assert c.Contents() == kept;
  }

  lemma {:induction false} KeyAt(s: seq<Spec.Stored>, key: string, k: nat)
    requires k <= |s| && (k < |s| ==> s[k].key == key)
    requires forall i :: 0 <= i < k ==> s[i].key != key
    ensures Spec.IndexOfKey(s, key) == k
  {
    if k > 0 {
      KeyAt(s[1..], key, k - 1);
    }
  }
}

/** The doubly linked list of Go's container/list that the cache keeps its entries in: a ring through a
    sentinel node, front = most recently used. */
module RecencyList {
  import opened CacheSpec

  /** A cached response; its body is a slice the cache owns. */
  datatype Entry = Entry(key: string, body: array<char>, contentType: string, etag: string, expires: int) {
    /** The response as a value. */
    function View(): Stored
      reads body
    {
      Stored(key, body[..], contentType, etag, expires)
    }
  }

  class Node {
    const entry: Entry
    ghost const stored: Stored // what the entry was when it came in
    var prev: Node?
    var next: Node?

    constructor (entry: Entry)
      ensures this.entry == entry && stored == entry.View()
    {
      this.entry, prev, next := entry, null, null;
      stored := entry.View();
    }
  }

  /** Neighbours in the sequence point at each other. */
  ghost predicate Linked(ring: seq<Node>)
    reads ring
  {
    forall i {:trigger ring[i]} :: 0 <= i < |ring| - 1 ==> ring[i].next == ring[i + 1] && ring[i + 1].prev == ring[i]
  }

  /** A ring whose links pass over place k + 1, and are in order elsewhere, is a ring without that place. */
  lemma Spliced(ring: seq<Node>, k: nat)
    requires k + 2 < |ring|
    requires forall i {:trigger ring[i]} :: 0 <= i < |ring| - 1 && i != k && i != k + 1 ==>
      ring[i].next == ring[i + 1] && ring[i + 1].prev == ring[i]
    requires ring[k].next == ring[k + 2] && ring[k + 2].prev == ring[k]
    ensures Linked(ring[..k + 1] + ring[k + 2..])
  {
    var r := ring[..k + 1] + ring[k + 2..];
    forall i {:trigger r[i]} | 0 <= i < |r| - 1 ensures r[i].next == r[i + 1] && r[i + 1].prev == r[i] {
      if i < k {
        assert r[i] == ring[i] && r[i + 1] == ring[i + 1];
      } else if i == k {
        assert r[i] == ring[k] && r[i + 1] == ring[k + 2];
      } else {
        assert r[i] == ring[i + 1] && r[i + 1] == ring[i + 2];
      }
    }
  }

  lemma RingLess(root: Node, nodes: seq<Node>, k: nat)
    requires k < |nodes|
    ensures [root] + (nodes[..k] + nodes[k + 1..]) + [root] ==
      ([root] + nodes + [root])[..k + 1] + ([root] + nodes + [root])[k + 2..]
  {
    var ring := [root] + nodes + [root];
    assert ring[..k + 1] == [root] + nodes[..k];
    assert ring[k + 2..] == nodes[k + 1..] + [root];
  }

  lemma DistinctLess(root: Node, nodes: seq<Node>, k: nat)
    requires k < |nodes| && root !in nodes && forall i, j :: 0 <= i < j < |nodes| ==> nodes[i] != nodes[j]
    ensures var less := nodes[..k] + nodes[k + 1..];
      root !in less && nodes[k] !in less && forall i, j :: 0 <= i < j < |less| ==> less[i] != less[j]
  {
    var less := nodes[..k] + nodes[k + 1..];
    assert forall i :: 0 <= i < |less| ==> less[i] == nodes[if i < k then i else i + 1];
  }

  lemma DistinctMore(root: Node, nodes: seq<Node>, n: Node)
    requires n != root && n !in nodes && root !in nodes && forall i, j :: 0 <= i < j < |nodes| ==> nodes[i] != nodes[j]
    ensures var more := [n] + nodes; root !in more && forall i, j :: 0 <= i < j < |more| ==> more[i] != more[j]
    ensures forall m | m in [root] + nodes + [root] :: m == root || m in nodes
    ensures [root] + ([n] + nodes) + [root] == [root, n] + ([root] + nodes + [root])[1..]
  {
    assert ([root] + nodes + [root])[1..] == nodes + [root];
  }

  /** The two assignments that pass over a node. */
  method Bypass(n: Node, ghost ring: seq<Node>, ghost k: nat)
    requires Linked(ring) && k + 2 < |ring| && ring[k + 1] == n && n.prev == ring[k] && n.next == ring[k + 2]
    requires forall i, j :: 0 <= i < j < |ring| - 1 ==> ring[i] != ring[j]
    requires forall i, j :: 1 <= i < j < |ring| ==> ring[i] != ring[j]
    modifies ring
    ensures forall i {:trigger ring[i]} :: 0 <= i < |ring| - 1 && i != k && i != k + 1 ==>
      ring[i].next == ring[i + 1] && ring[i + 1].prev == ring[i]
    ensures ring[k].next == ring[k + 2] && ring[k + 2].prev == ring[k]
  {
    n.prev.next := n.next;
    n.next.prev := n.prev;
    forall i {:trigger ring[i]} | 0 <= i < |ring| - 1 && i != k && i != k + 1
      ensures ring[i].next == ring[i + 1] && ring[i + 1].prev == ring[i]
    {
      assert old(ring[i].next) == ring[i + 1] && old(ring[i + 1].prev) == ring[i];
    }
  }

  /** A node linked in after the first place of a ring. */
  lemma Inserted(ring: seq<Node>, n: Node)
    requires |ring| >= 2
    requires forall i {:trigger ring[i]} :: 1 <= i < |ring| - 1 ==> ring[i].next == ring[i + 1] && ring[i + 1].prev == ring[i]
    requires ring[0].next == n && n.prev == ring[0] && n.next == ring[1] && ring[1].prev == n
    ensures Linked([ring[0], n] + ring[1..])
  {
    var r := [ring[0], n] + ring[1..];
    forall i {:trigger r[i]} | 0 <= i < |r| - 1 ensures r[i].next == r[i + 1] && r[i + 1].prev == r[i] {
      if i >= 2 {
        assert r[i] == ring[i - 1] && r[i + 1] == ring[i];
      }
    }
  }

  /** The four assignments that link it in. */
  method Join(n: Node, root: Node, ghost ring: seq<Node>)
    requires Linked(ring) && |ring| >= 2 && ring[0] == root && n !in ring
    requires forall i, j :: 0 <= i < j < |ring| - 1 ==> ring[i] != ring[j]
    requires forall i, j :: 1 <= i < j < |ring| ==> ring[i] != ring[j]
    modifies ring, n
    ensures forall i {:trigger ring[i]} :: 1 <= i < |ring| - 1 ==> ring[i].next == ring[i + 1] && ring[i + 1].prev == ring[i]
    ensures root.next == n && n.prev == root && n.next == ring[1] && ring[1].prev == n
  {
    assert ring[0].next == ring[1];
    n.prev := root;
    n.next := root.next;
    n.prev.next := n;
    n.next.prev := n;
    forall i {:trigger ring[i]} | 1 <= i < |ring| - 1
      ensures ring[i].next == ring[i + 1] && ring[i + 1].prev == ring[i]
    {
      assert old(ring[i].next) == ring[i + 1] && old(ring[i + 1].prev) == ring[i];
    }
  }

  class List {
    var root: Node
    var len: nat
    ghost var nodes: seq<Node>

    ghost function Ring(): seq<Node>
      reads this
    {
      [root] + nodes + [root]
    }

    ghost predicate Valid()
      reads this, root, nodes
    {
      && len == |nodes|
      && root !in nodes
      && (forall i, j :: 0 <= i < j < |nodes| ==> nodes[i] != nodes[j])
      && Linked(Ring())
    }

    constructor (entry: Entry)
      ensures Valid() && fresh(root) && nodes == []
    {
      root := new Node(entry);
      len, nodes := 0, [];
      new;
      root.prev, root.next := root, root;
    }

    lemma NodesDiffer()
      requires Valid()
      ensures forall i, j :: 0 <= i < j < |nodes| ==> nodes[i] != nodes[j]
    {
    }

    /** Each node occurs once as a source and once as a target of the ring's links. */
    lemma RingDistinct()
      requires Valid()
      ensures forall i, j :: 0 <= i < j <= |nodes| ==> Ring()[i] != Ring()[j]
      ensures forall i, j :: 1 <= i < j <= |nodes| + 1 ==> Ring()[i] != Ring()[j]
    {
      var ring := Ring();
      assert forall i :: 1 <= i <= |nodes| ==> ring[i] == nodes[i - 1];
    }

    /** list.remove for the node at place k; its own links are left as they were. */
    method Unlink(n: Node, ghost k: nat)
      requires Valid() && k < |nodes| && nodes[k] == n
      modifies this`nodes, this`len, root, nodes
      ensures Valid() && root == old(root) && nodes == old(nodes)[..k] + old(nodes)[k + 1..]
    {
      hide Linked;
      ghost var ring := Ring();
      RingDistinct();
      LinkAt(k);
      LinkAt(k + 1);
      Bypass(n, ring, k);
      Spliced(ring, k);
      RingLess(root, nodes, k);
      DistinctLess(root, nodes, k);
      len := len - 1;
      nodes := nodes[..k] + nodes[k + 1..];
    }

    lemma LinkAt(i: nat)
      requires Valid() && i <= |nodes|
      ensures Ring()[i].next == Ring()[i + 1] && Ring()[i + 1].prev == Ring()[i]
    {
    }

    /** list.insert of a node after the sentinel. */
    method LinkFront(n: Node)
      requires Valid() && n != root && n !in nodes
      modifies this`nodes, this`len, root, nodes, n
      ensures Valid() && root == old(root) && nodes == [n] + old(nodes)
    {
      hide Linked;
      ghost var ring := Ring();
      RingDistinct();
      DistinctMore(root, nodes, n);
      Join(n, root, ring);
      Inserted(ring, n);
      len := len + 1;
      nodes := [n] + nodes;
    }

    method Remove(n: Node, ghost k: nat)
      requires Valid() && k < |nodes| && nodes[k] == n
      modifies this`nodes, this`len, root, nodes
      ensures Valid() && root == old(root) && nodes == old(nodes)[..k] + old(nodes)[k + 1..]
    {
      Unlink(n, k);
      n.prev, n.next := null, null;
    }

    method PushFront(entry: Entry) returns (n: Node)
      requires Valid()
      modifies this`nodes, this`len, root, nodes
      ensures Valid() && root == old(root) && fresh(n) && n.entry == entry && n.stored == entry.View() && nodes == [n] + old(nodes)
    {
      n := new Node(entry);
      LinkFront(n);
    }

    method MoveToFront(n: Node, ghost k: nat)
      requires Valid() && k < |nodes| && nodes[k] == n
      modifies this`nodes, this`len, root, nodes
      ensures Valid() && root == old(root) && nodes == [n] + (old(nodes)[..k] + old(nodes)[k + 1..])
    {
      assert Ring()[0].next == Ring()[1] == nodes[0];
      if root.next == n {
        assert k == 0;
        assert nodes == [n] + (nodes[..0] + nodes[1..]);
        return;
      }
      Unlink(n, k);
      LinkFront(n);
    }

    method Back() returns (n: Node?)
      requires Valid()
      ensures n == if nodes == [] then null else nodes[|nodes| - 1]
    {
      if len == 0 {
        return null;
      }
      assert Ring()[|nodes|].next == Ring()[|nodes| + 1] && Ring()[|nodes| + 1].prev == Ring()[|nodes|];
      n := root.prev;
    }
  }
}

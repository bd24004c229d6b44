/** The out-edges each account keeps: a deque per node in insertion order, expired lazily when it is read. */
module EdgeStore {
  import opened Accounts
  import opened Collections
  import opened Walks

  /** A transfer to `dst`; `depth` is its position in a pass-through chain. Times are in milliseconds. */
  datatype Edge = Edge(dst: Node, amount: real, tsMs: int, depth: nat)

  type Adjacency = map<Node, seq<Edge>>

  function EdgesOf(adj: Adjacency, n: Node): seq<Edge> {
    if n in adj then adj[n] else []
  }

  /** Drops the leading run of edges older than the cutoff, and stops at the first that is not. */
  function Expire(edges: seq<Edge>, cutoff: int): seq<Edge> {
    if edges != [] && edges[0].tsMs < cutoff then Expire(edges[1..], cutoff) else edges
  }

  function Destinations(edges: seq<Edge>): seq<Node> {
    if edges == [] then [] else Destinations(edges[..|edges| - 1]) + [edges[|edges| - 1].dst]
  }

  lemma {:induction false} DestinationsAt(edges: seq<Edge>)
    ensures |Destinations(edges)| == |edges|
    ensures forall k :: 0 <= k < |edges| ==> Destinations(edges)[k] == edges[k].dst
  {
    if edges != [] {
      DestinationsAt(edges[..|edges| - 1]);
    }
  }

  function LiveEdges(adj: Adjacency, cutoff: int, n: Node): seq<Edge> {
    Expire(EdgesOf(adj, n), cutoff)
  }

  /** Every node's destinations as a reader sees them once the edges before the cutoff are expired. */
  function LiveLinks(adj: Adjacency, cutoff: int): Links {
    map n | n in adj :: Destinations(Expire(adj[n], cutoff))
  }

  lemma DegreeIsLinks(adj: Adjacency, cutoff: int, n: Node)
    ensures |Next(LiveLinks(adj, cutoff), n)| == |LiveEdges(adj, cutoff, n)|
  {
    DestinationsAt(LiveEdges(adj, cutoff, n));
  }

  /** `b` is `a` after some of its deques, any of them, were expired at the cutoff. */
  ghost predicate Settled(a: Adjacency, b: Adjacency, cutoff: int) {
    a.Keys == b.Keys && forall n :: n in a ==> b[n] == a[n] || b[n] == Expire(a[n], cutoff)
  }

  /** `Expire` removes a leading run of edges before the cutoff, and so never one that is live at the cutoff. */
  lemma {:induction false} ExpireCut(edges: seq<Edge>, cutoff: int) returns (n: nat)
    ensures n <= |edges| && Expire(edges, cutoff) == edges[n..]
    ensures forall k :: 0 <= k < n ==> edges[k].tsMs < cutoff
    ensures n < |edges| ==> edges[n].tsMs >= cutoff
  {
    if edges != [] && edges[0].tsMs < cutoff {
      var m := ExpireCut(edges[1..], cutoff);
      n := m + 1;
      assert edges[1..][m..] == edges[n..];
      forall k | 0 <= k < n ensures edges[k].tsMs < cutoff {
        if k > 0 {
          assert edges[1..][k - 1].tsMs < cutoff;
        }
      }
    } else {
      n := 0;
    }
  }

  lemma {:induction false} ExpireAgain(edges: seq<Edge>, early: int, late: int)
    requires early <= late
    ensures Expire(Expire(edges, early), late) == Expire(edges, late)
  {
    if edges != [] && edges[0].tsMs < early {
      ExpireAgain(edges[1..], early, late);
    }
  }

  /** What a later cutoff removed an earlier one does not bring back. */
  lemma {:induction false} ExpireEarlier(edges: seq<Edge>, early: int, late: int)
    requires early <= late
    ensures Expire(Expire(edges, late), early) == Expire(edges, late)
  {
    if edges != [] && edges[0].tsMs < late {
      ExpireEarlier(edges[1..], early, late);
    }
  }

  /** Edges that are all older than the cutoff may as well never have been there. */
  lemma {:induction false} ExpireOldPrefix(old': seq<Edge>, kept: seq<Edge>, cutoff: int)
    requires forall e :: e in old' ==> e.tsMs < cutoff
    ensures Expire(old' + kept, cutoff) == Expire(kept, cutoff)
  {
    if old' == [] {
      assert old' + kept == kept;
    } else {
      assert (old' + kept)[1..] == old'[1..] + kept;
      ExpireOldPrefix(old'[1..], kept, cutoff);
    }
  }

  lemma SameLive(a: Adjacency, b: Adjacency, cutoff: int)
    requires a.Keys == b.Keys && forall n :: n in a ==> Expire(a[n], cutoff) == Expire(b[n], cutoff)
    ensures LiveLinks(a, cutoff) == LiveLinks(b, cutoff)
    ensures forall n :: LiveEdges(a, cutoff, n) == LiveEdges(b, cutoff, n)
  {
    var la, lb := LiveLinks(a, cutoff), LiveLinks(b, cutoff);
    assert la.Keys == a.Keys && lb.Keys == b.Keys;
    forall n | n in a ensures la[n] == lb[n] {
      assert Expire(a[n], cutoff) == Expire(b[n], cutoff);
    }
    assert la == lb;
  }

  /** Reading at a fixed time is idempotent: expiring some deques first changes nothing a reader sees. */
  lemma SettledIsInvisible(a: Adjacency, b: Adjacency, cutoff: int)
    requires Settled(a, b, cutoff)
    ensures LiveLinks(a, cutoff) == LiveLinks(b, cutoff)
    ensures forall n :: LiveEdges(a, cutoff, n) == LiveEdges(b, cutoff, n)
  {
    forall n | n in a ensures Expire(a[n], cutoff) == Expire(b[n], cutoff) {
      ExpireAgain(a[n], cutoff, cutoff);
    }
    SameLive(a, b, cutoff);
  }

  lemma SettledTransitive(a: Adjacency, b: Adjacency, c: Adjacency, cutoff: int)
    requires Settled(a, b, cutoff) && Settled(b, c, cutoff)
    ensures Settled(a, c, cutoff)
  {
    forall n | n in a ensures c[n] == a[n] || c[n] == Expire(a[n], cutoff) {
      ExpireAgain(a[n], cutoff, cutoff);
    }
  }

  lemma SettledAtOnce(adj: Adjacency, cutoff: int)
    ensures Settled(adj, adj, cutoff)
  {
  }

  lemma ReadAgain(adj0: Adjacency, adj1: Adjacency, adj2: Adjacency, cutoff: int, node: Node)
    requires Settled(adj0, adj1, cutoff) && Settled(adj1, adj2, cutoff)
    ensures Settled(adj0, adj2, cutoff) && LiveEdges(adj1, cutoff, node) == LiveEdges(adj0, cutoff, node)
  {
    SettledIsInvisible(adj0, adj1, cutoff);
    SettledTransitive(adj0, adj1, adj2, cutoff);
  }

  class Store {
    var adjacency: Adjacency
    /** How often a node's destinations were looked up. */
    ghost var lookups: nat
    const edgeTtlMs: int
    const maxEdgesPerNode: nat

    constructor (maxEdgesPerNode: nat, edgeTtlMs: int)
      ensures adjacency == map[]
      ensures this.maxEdgesPerNode == maxEdgesPerNode && this.edgeTtlMs == edgeTtlMs
    {
      this.maxEdgesPerNode := maxEdgesPerNode;
      this.edgeTtlMs := edgeTtlMs;
      adjacency, lookups := map[], 0;
    }

    /** Expires the deque of a node that has one, from its head, in place. */
    method ExpireNode(node: Node, nowMs: int)
      requires node in adjacency
      modifies this`adjacency
      ensures adjacency == old(adjacency)[node := Expire(old(adjacency)[node], nowMs - edgeTtlMs)]
    {
      var cutoff := nowMs - edgeTtlMs;
      var edges := adjacency[node];
      while edges != [] && edges[0].tsMs < cutoff
        invariant Expire(edges, cutoff) == Expire(old(adjacency)[node], cutoff)
      {
        edges := edges[1..];
      }
      adjacency := adjacency[node := edges];
    }

    /** What a reader at `nowMs` sees of one node; expired edges are removed on the way. */
    method ReadLive(node: Node, nowMs: int) returns (edges: seq<Edge>)
      modifies this`adjacency
      ensures Settled(old(adjacency), adjacency, nowMs - edgeTtlMs)
      ensures edges == LiveEdges(old(adjacency), nowMs - edgeTtlMs, node) && EdgesOf(adjacency, node) == edges
    {
      if node !in adjacency {
        return [];
      }
      ExpireNode(node, nowMs);
      edges := adjacency[node];
    }

    method LiveDestinations(node: Node, nowMs: int) returns (dsts: seq<Node>)
      modifies this
      ensures lookups == old(lookups) + 1
      ensures Settled(old(adjacency), adjacency, nowMs - edgeTtlMs)
      ensures dsts == Next(LiveLinks(old(adjacency), nowMs - edgeTtlMs), node)
    {
      lookups := lookups + 1;
      var edges := ReadLive(node, nowMs);
      dsts := [];
      for i := 0 to |edges|
        invariant dsts == Destinations(edges[..i]) && lookups == old(lookups) + 1
        invariant Settled(old(adjacency), adjacency, nowMs - edgeTtlMs)
      {
        assert edges[..i + 1][..i] == edges[..i];
        dsts := dsts + [edges[i].dst];
      }
      assert edges[..|edges|] == edges;
    }

    /** Appends an edge, expiring what is too old first and then dropping the oldest beyond the cap. */
    method Append(src: Node, edge: Edge)
      modifies this`adjacency
      ensures adjacency == old(adjacency)[src :=
                LastN(LiveEdges(old(adjacency), edge.tsMs - edgeTtlMs, src) + [edge], maxEdgesPerNode)]
    {
      if src !in adjacency {
        adjacency := adjacency[src := []];
      }
      ExpireNode(src, edge.tsMs);
      var edges := adjacency[src] + [edge];
      ghost var full := edges;
      while |edges| > maxEdgesPerNode
        invariant |edges| <= |full| && edges == full[|full| - |edges|..]
        invariant |edges| < |full| ==> |edges| >= maxEdgesPerNode
      {
        edges := edges[1..];
      }
      assert edges == LastN(full, maxEdgesPerNode);
      adjacency := adjacency[src := edges];
    }
  }

  /** A caller whose clock is behind that of the call before it sees what that call left, whatever is live at its own time. */
  method ReadLateThenEarly(store: Store, node: Node, late: int, early: int) returns (first: seq<Edge>, second: seq<Edge>)
    requires early <= late
    modifies store
    ensures second == first == LiveEdges(old(store.adjacency), late - store.edgeTtlMs, node)
  {
    first := store.ReadLive(node, late);
    second := store.ReadLive(node, early);
    ExpireEarlier(EdgesOf(old(store.adjacency), node), early - store.edgeTtlMs, late - store.edgeTtlMs);
  }

  /** An edge of time 0 with a TTL of 100: a read at 101 removes it, and a read at 50, when it is live, misses it. */
  method LaterCallForgets() returns (ghost live: seq<Edge>, edges: seq<Edge>)
    ensures live == [Edge(2, 1.0, 0, 0)] && edges == []
  {
    var e := Edge(2, 1.0, 0, 0);
    var store := new Store(1, 100);
    store.Append(1, e);
    assert LastN([] + [e], 1) == [e];
    live := LiveEdges(store.adjacency, 50 - 100, 1);
    assert [e][1..] == [] && Expire([e], 101 - 100) == Expire([e][1..], 101 - 100);
    var late;
    late, edges := ReadLateThenEarly(store, 1, 101, 50);
  }
}

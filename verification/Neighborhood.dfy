/** The breadth-first walk behind the read API: the live sub-graph around an account, with hop distances. */
module Neighborhoods {
  import opened Accounts
  import opened Collections
  import opened Walks
  import opened EdgeStore
  import opened CycleDetector
  import CycleSearch

  datatype HopEdge = HopEdge(src: Node, dst: Node, amount: real, tsMs: int, chainDepth: nat)

  // ---------- the reference: hop distance ----------

  /** `d` is the least number of live hops that lead from `root` to `n`. */
  ghost predicate Distance(g: Links, root: Node, n: Node, d: nat) {
    Within(g, root, n, d) && forall h :: h < d ==> !Within(g, root, n, h)
  }

  /** `seen` labels exactly the nodes within `depth` hops, each with its distance. */
  ghost predicate Distances(g: Links, root: Node, depth: int, seen: map<Node, nat>) {
    && (forall n :: n in seen <==> Within(g, root, n, Max(depth, 0)))
    && (forall n :: n in seen ==> Distance(g, root, n, seen[n]))
  }

  function Hops(src: Node, edges: seq<Edge>): seq<HopEdge> {
    if edges == [] then
      []
    else
      var e := edges[|edges| - 1];
      Hops(src, edges[..|edges| - 1]) + [HopEdge(src, e.dst, e.amount, e.tsMs, e.depth)]
  }

  /** The live out-edges of the given nodes, node by node. */
  function HopsOf(adj: Adjacency, cutoff: int, nodes: seq<Node>): seq<HopEdge> {
    if nodes == [] then
      []
    else
      var n := nodes[|nodes| - 1];
      HopsOf(adj, cutoff, nodes[..|nodes| - 1]) + Hops(n, LiveEdges(adj, cutoff, n))
  }

  // ---------- the state of the walk ----------

  /** Two positions of the discovery order hold different nodes, the earlier one at no greater distance. */
  ghost predicate Before(order: seq<Node>, seen: map<Node, nat>, a: nat, b: nat) {
    a < b < |order| ==>
      order[a] != order[b] && order[a] in seen && order[b] in seen && seen[order[a]] <= seen[order[b]]
  }

  /** Nodes are discovered once, in order of distance, and are reachable in as many hops as their label. */
  ghost predicate Discovered(g: Links, root: Node, depth: int, order: seq<Node>, seen: map<Node, nat>) {
    && |order| > 0 && order[0] == root
    && (forall n :: n in order <==> n in seen)
    && root in seen && seen[root] == 0
    && (forall a: nat, b: nat {:trigger Before(order, seen, a, b)} :: Before(order, seen, a, b))
    && (forall n {:trigger Labelled(g, root, depth, seen, n)} :: n in seen ==> Labelled(g, root, depth, seen, n))
  }

  ghost predicate Labelled(g: Links, root: Node, depth: int, seen: map<Node, nat>, n: Node) {
    n in seen && Within(g, root, n, seen[n]) && seen[n] <= Max(depth, 0)
  }

  lemma DiscoveredOnce(g: Links, root: Node, depth: int, order: seq<Node>, seen: map<Node, nat>)
    requires Discovered(g, root, depth, order, seen)
    ensures NoDuplicates(order) && forall n :: n in order <==> n in seen
  {
    forall a: nat, b: nat | a < b < |order| ensures order[a] != order[b] {
      assert Before(order, seen, a, b);
    }
  }

  /** Destinations of `n` up to position `j` are known at most one hop further out. */
  ghost predicate Settles(g: Links, seen: map<Node, nat>, n: Node, j: nat) {
    n in seen && forall k :: 0 <= k < j && k < |Next(g, n)| ==> Next(g, n)[k] in seen && seen[Next(g, n)[k]] <= seen[n] + 1
  }

  ghost predicate Expanded(g: Links, depth: int, seen: map<Node, nat>, done: seq<Node>) {
    forall n {:trigger Settles(g, seen, n, |Next(g, n)|)} ::
      n in done && n in seen && seen[n] < depth ==> Settles(g, seen, n, |Next(g, n)|)
  }

  lemma {:induction false} WalksAreSeen(g: Links, root: Node, depth: int, order: seq<Node>, seen: map<Node, nat>, p: seq<Node>)
    requires Discovered(g, root, depth, order, seen) && Expanded(g, depth, seen, order)
    requires IsWalk(g, p) && p[0] == root && |p| - 1 <= Max(depth, 0)
    ensures p[|p| - 1] in seen && seen[p[|p| - 1]] <= |p| - 1
    decreases |p|
  {
    if |p| > 1 {
      WalkPrefix(g, p, |p| - 1);
      WalksAreSeen(g, root, depth, order, seen, p[..|p| - 1]);
      var x := p[|p| - 2];
      assert Settles(g, seen, x, |Next(g, x)|);
      assert p[|p| - 2 + 1] in Next(g, x);
    }
  }

  /** Once every discovered node is expanded, the labels are the distances. */
  lemma DoneIsExact(g: Links, root: Node, depth: int, order: seq<Node>, seen: map<Node, nat>)
    requires Discovered(g, root, depth, order, seen) && Expanded(g, depth, seen, order)
    ensures Distances(g, root, depth, seen)
  {
    forall n, h | Within(g, root, n, h) && h <= Max(depth, 0) ensures n in seen && seen[n] <= h {
      var p :| WalkFromTo(g, p, root, n) && |p| - 1 <= h;
      WalksAreSeen(g, root, depth, order, seen, p);
    }
    forall n | n in seen ensures Within(g, root, n, seen[n]) && Within(g, root, n, Max(depth, 0)) {
      assert Labelled(g, root, depth, seen, n);
      var p :| WalkFromTo(g, p, root, n) && |p| - 1 <= seen[n];
    }
  }

  lemma OneHopFurther(g: Links, root: Node, n: Node, m: Node, d: int)
    requires Within(g, root, n, d) && m in Next(g, n)
    ensures Within(g, root, m, d + 1)
  {
    var p :| WalkFromTo(g, p, root, n) && |p| - 1 <= d;
    JoinWalks(g, p, [m]);
    assert WalkFromTo(g, p + [m], root, m);
  }

  /** Every label is at most one above that of `n`: what makes the queue breadth-first. */
  ghost predicate AtMostOneAbove(seen: map<Node, nat>, n: Node) {
    n in seen && forall b :: b in seen ==> seen[b] <= seen[n] + 1
  }

  /** More nodes were discovered, at the end of the order, and no label changed. */
  ghost predicate Grown(order: seq<Node>, seen: map<Node, nat>, order': seq<Node>, seen': map<Node, nat>) {
    && order <= order'
    && (forall n :: n in seen ==> n in seen' && seen'[n] == seen[n])
  }

  lemma Discover(g: Links, root: Node, depth: int, order: seq<Node>, seen: map<Node, nat>, n: Node, m: Node)
    requires Discovered(g, root, depth, order, seen) && AtMostOneAbove(seen, n)
    requires seen[n] < depth && m in Next(g, n) && m !in seen
    ensures Discovered(g, root, depth, order + [m], seen[m := seen[n] + 1])
    ensures AtMostOneAbove(seen[m := seen[n] + 1], n)
    ensures Grown(order, seen, order + [m], seen[m := seen[n] + 1])
  {
    var order', seen' := order + [m], seen[m := seen[n] + 1];
    assert Labelled(g, root, depth, seen, n);
    OneHopFurther(g, root, n, m, seen[n]);
    forall k {:trigger Labelled(g, root, depth, seen', k)} | k in seen' ensures Labelled(g, root, depth, seen', k) {
      assert k != m ==> Labelled(g, root, depth, seen, k);
    }
    forall a: nat, b: nat {:trigger Before(order', seen', a, b)} ensures Before(order', seen', a, b) {
      assert Before(order, seen, a, b);
      if a < b == |order| {
        assert order[a] in order;
      }
    }
    forall k ensures k in order' <==> k in seen' {
    }
  }

  lemma DiscoverKeepsExpanded(g: Links, depth: int, seen: map<Node, nat>, done: seq<Node>, m: Node, hops: nat)
    requires Expanded(g, depth, seen, done) && m !in seen && m !in done
    ensures Expanded(g, depth, seen[m := hops], done)
  {
    var seen' := seen[m := hops];
    forall n {:trigger Settles(g, seen', n, |Next(g, n)|)} | n in done && n in seen' && seen'[n] < depth
      ensures Settles(g, seen', n, |Next(g, n)|)
    {
      assert Settles(g, seen, n, |Next(g, n)|);
    }
  }

  /** All nodes the walk can ever meet. */
  ghost function Universe(g: Links, root: Node): set<Node> {
    {root} + set n, m | n in g && m in g[n] :: m
  }

  lemma OrderIsBounded(g: Links, root: Node, depth: int, order: seq<Node>, seen: map<Node, nat>)
    requires Discovered(g, root, depth, order, seen) && Elements(order) <= Universe(g, root)
    ensures |order| <= |Universe(g, root)|
  {
    DiscoveredOnce(g, root, depth, order, seen);
    DistinctCount(order);
    SubsetSize(Elements(order), Universe(g, root));
  }

  /** Labels the live neighbourhood of `root` and lists the out-edges of every node less than `depth` hops away. */
  method Explore(store: Store, root: Node, depth: int, nowMs: int)
    returns (order: seq<Node>, seen: map<Node, nat>, edges: seq<HopEdge>, ghost expanded: seq<Node>)
    modifies store
    ensures Settled(old(store.adjacency), store.adjacency, nowMs - store.edgeTtlMs)
    ensures var g := LiveLinks(old(store.adjacency), nowMs - store.edgeTtlMs);
            Discovered(g, root, depth, order, seen) && Distances(g, root, depth, seen)
    ensures NoDuplicates(order) && forall n :: n in order ==> n in seen
    ensures expanded <= order && forall n :: n in expanded <==> n in seen && seen[n] < depth
    ensures edges == HopsOf(old(store.adjacency), nowMs - store.edgeTtlMs, expanded)
  {
    hide Discovered, Expanded, Settled, Universe, LiveEdges, Distances;
    ghost var cutoff, adj0 := nowMs - store.edgeTtlMs, store.adjacency;
    SettledAtOnce(adj0, cutoff);
    ghost var g := LiveLinks(adj0, cutoff);
    Start(g, root, depth);
    seen, order, edges, expanded := map[root := 0], [root], [], [];
    var frontier := [root];
    ghost var done: seq<Node> := [];
    while frontier != []
      invariant done + frontier == order && Elements(order) <= Universe(g, root)
      invariant Settled(adj0, store.adjacency, cutoff)
      invariant Discovered(g, root, depth, order, seen) && Expanded(g, depth, seen, done)
      invariant frontier != [] ==> AtMostOneAbove(seen, frontier[0])
      invariant Inner(seen, depth, done, frontier, expanded)
      invariant edges == HopsOf(adj0, cutoff, expanded)
      decreases |Universe(g, root)| - |done|
    {
      OrderIsBounded(g, root, depth, order, seen);
      var node := frontier[0];
      ghost var order1, seen1 := order, seen;
      frontier := frontier[1..];
      assert done + [node] + frontier == order;
      if seen[node] < depth {
        ghost var adj1 := store.adjacency;
        var live := store.ReadLive(node, nowMs);
        ReadAgain(adj0, adj1, store.adjacency, cutoff, node);
        order, seen, edges, frontier := ExpandNode(g, adj0, cutoff, root, depth, node, live, order, seen, edges,
                                                   frontier, done);
        expanded := expanded + [node];
      }
      StepIsDone(g, root, depth, order1, seen1, order, seen, done, node, frontier, expanded);
      done := done + [node];
    }
    assert done == order;
    DoneIsExact(g, root, depth, order, seen);
    DiscoveredOnce(g, root, depth, order, seen);
  }

  /** The expanded nodes are the processed ones less than `depth` hops away: all of them, or all there will be. */
  ghost predicate Inner(seen: map<Node, nat>, depth: int, done: seq<Node>, frontier: seq<Node>, expanded: seq<Node>) {
    && expanded <= done
    && (forall n :: n in expanded <==> n in done && n in seen && seen[n] < depth)
    && (expanded == done || forall n :: n in frontier ==> n in seen && seen[n] >= depth)
  }

  /** The next node in the queue is no closer than `node`, and nothing known is more than one hop beyond it. */
  lemma NextLevel(g: Links, root: Node, depth: int, order: seq<Node>, seen: map<Node, nat>, done: seq<Node>,
                  node: Node, frontier: seq<Node>)
    requires Discovered(g, root, depth, order, seen) && done + [node] + frontier == order && AtMostOneAbove(seen, node)
    ensures frontier != [] ==> AtMostOneAbove(seen, frontier[0])
    ensures forall n :: n in frontier ==> n in seen && seen[n] >= seen[node]
  {
    forall n | n in frontier ensures n in seen && seen[n] >= seen[node] {
      var k :| 0 <= k < |frontier| && frontier[k] == n;
      assert order[|done|] == node && order[|done| + 1 + k] == n;
      assert Before(order, seen, |done|, |done| + 1 + k);
    }
  }

  lemma Start(g: Links, root: Node, depth: int)
    ensures Discovered(g, root, depth, [root], map[root := 0]) && AtMostOneAbove(map[root := 0], root)
    ensures Expanded(g, depth, map[root := 0], [])
    ensures Elements([root]) <= Universe(g, root)
  {
    assert WalkFromTo(g, [root], root, root);
  }

  /** After `node` was processed, with or without expanding it, the queue invariants hold for the rest. */
  lemma StepIsDone(g: Links, root: Node, depth: int, order: seq<Node>, seen: map<Node, nat>, order': seq<Node>,
                   seen': map<Node, nat>, done: seq<Node>, node: Node, frontier: seq<Node>, expanded: seq<Node>)
    requires Discovered(g, root, depth, order, seen) && done + [node] <= order && AtMostOneAbove(seen, node)
    requires Discovered(g, root, depth, order', seen') && done + [node] + frontier == order'
    requires Grown(order, seen, order', seen') && AtMostOneAbove(seen', node)
    requires if seen[node] < depth then
               expanded == done + [node] && (forall n :: n in done ==> n in seen && seen[n] < depth)
               && Expanded(g, depth, seen', done + [node])
             else
               order' == order && seen' == seen && Inner(seen, depth, done, [node] + frontier, expanded)
               && Expanded(g, depth, seen, done)
    ensures Expanded(g, depth, seen', done + [node])
    ensures frontier != [] ==> AtMostOneAbove(seen', frontier[0])
    ensures Inner(seen', depth, done + [node], frontier, expanded)
  {
    NextLevel(g, root, depth, order', seen', done, node, frontier);
    if seen[node] >= depth {
      forall n {:trigger Settles(g, seen, n, |Next(g, n)|)} | n in done + [node] && n in seen && seen[n] < depth
        ensures Settles(g, seen, n, |Next(g, n)|)
      {
      }
    }
  }

  /** The inner loop: records the live edges of `node` and queues the destinations not seen before. */
  method ExpandNode(ghost g: Links, ghost adj: Adjacency, ghost cutoff: int, ghost root: Node, ghost depth: int,
                    node: Node, live: seq<Edge>, order0: seq<Node>, seen0: map<Node, nat>, edges0: seq<HopEdge>,
                    frontier0: seq<Node>, ghost done: seq<Node>)
    returns (order: seq<Node>, seen: map<Node, nat>, edges: seq<HopEdge>, frontier: seq<Node>)
    requires g == LiveLinks(adj, cutoff) && live == LiveEdges(adj, cutoff, node)
    requires Discovered(g, root, depth, order0, seen0) && AtMostOneAbove(seen0, node) && seen0[node] < depth
    requires done + [node] + frontier0 == order0 && Expanded(g, depth, seen0, done)
    requires Elements(order0) <= Universe(g, root)
    ensures Discovered(g, root, depth, order, seen) && AtMostOneAbove(seen, node) && Grown(order0, seen0, order, seen)
    ensures done + [node] + frontier == order && Expanded(g, depth, seen, done + [node])
    ensures Elements(order) <= Universe(g, root)
    ensures edges == edges0 + Hops(node, live)
  {
    hide Discovered, Expanded, Universe, LiveEdges, Expire, Hops, Destinations;
    order, seen, edges, frontier := order0, seen0, edges0, frontier0;
    DestinationsAt(live);
    NextOfLive(adj, cutoff, node);
    NoHops(node);
    assert live[..0] == [];
    for j := 0 to |live|
      invariant Discovered(g, root, depth, order, seen) && AtMostOneAbove(seen, node)
      invariant Grown(order0, seen0, order, seen) && done + [node] + frontier == order
      invariant Expanded(g, depth, seen, done) && Settles(g, seen, node, j)
      invariant Elements(order) <= Universe(g, root)
      invariant edges == edges0 + Hops(node, live[..j])
    {
      assert Next(g, node)[j] == live[j].dst;
      var e := live[j];
      HopsSnoc(node, live, j);
      edges := edges + [HopEdge(node, e.dst, e.amount, e.tsMs, e.depth)];
      if e.dst !in seen {
        DiscoverStep(g, root, depth, order, seen, node, e.dst, j, done);
        seen := seen[e.dst := seen[node] + 1];
        order := order + [e.dst];
        frontier := frontier + [e.dst];
      }
    }
    assert live[..|live|] == live;
    assert |Next(g, node)| == |live|;
    ExpandedWith(g, depth, seen, done, node);
  }

  lemma NoHops(src: Node)
    ensures Hops(src, []) == []
  {
  }

  lemma HopsSnoc(src: Node, edges: seq<Edge>, j: nat)
    requires j < |edges|
    ensures Hops(src, edges[..j + 1]) == Hops(src, edges[..j])
                                         + [HopEdge(src, edges[j].dst, edges[j].amount, edges[j].tsMs, edges[j].depth)]
  {
    assert edges[..j + 1][..j] == edges[..j];
  }

  lemma NextOfLive(adj: Adjacency, cutoff: int, node: Node)
    ensures Next(LiveLinks(adj, cutoff), node) == Destinations(LiveEdges(adj, cutoff, node))
  {
  }

  lemma DiscoverStep(g: Links, root: Node, depth: int, order: seq<Node>, seen: map<Node, nat>, n: Node, m: Node,
                     j: nat, done: seq<Node>)
    requires Discovered(g, root, depth, order, seen) && AtMostOneAbove(seen, n)
    requires seen[n] < depth && j < |Next(g, n)| && m == Next(g, n)[j] && m !in seen
    requires Expanded(g, depth, seen, done) && (forall x :: x in done ==> x in order) && Settles(g, seen, n, j)
    requires Elements(order) <= Universe(g, root)
    ensures var order', seen' := order + [m], seen[m := seen[n] + 1];
            && Discovered(g, root, depth, order', seen') && AtMostOneAbove(seen', n) && Grown(order, seen, order', seen')
            && Expanded(g, depth, seen', done) && Settles(g, seen', n, j + 1)
            && Elements(order') <= Universe(g, root)
  {
    Discover(g, root, depth, order, seen, n, m);
    DiscoverKeepsExpanded(g, depth, seen, done, m, seen[n] + 1);
    assert n in g && m in g[n];
    ElementsSnoc(order, m);
  }

  lemma ExpandedWith(g: Links, depth: int, seen: map<Node, nat>, done: seq<Node>, node: Node)
    requires Expanded(g, depth, seen, done) && Settles(g, seen, node, |Next(g, node)|)
    ensures Expanded(g, depth, seen, done + [node])
  {
    forall n {:trigger Settles(g, seen, n, |Next(g, n)|)} | n in done + [node] && n in seen && seen[n] < depth
      ensures Settles(g, seen, n, |Next(g, n)|)
    {
    }
  }

  // ---------- the cycles through an account ----------

  ghost predicate ClosedBy(g: Links, root: Node, dsts: seq<Node>, maxDepth: int, c: seq<Node>) {
    c != [] && exists d :: d in dsts && c == FindCycle(g, root, d, maxDepth)
  }

  /** Some listed cycle runs over exactly these accounts. */
  ghost predicate Lists(found: seq<seq<Node>>, accounts: set<Node>) {
    exists c :: c in found && Elements(c) == accounts
  }

  /**
   The cycles listed for `root`: each closes over one of its live out-edges, no two have the same accounts, and
   every out-edge that closes a cycle has one with the same accounts listed.
   */
  ghost predicate ListsCycles(g: Links, root: Node, dsts: seq<Node>, maxDepth: int, found: seq<seq<Node>>) {
    && (forall c {:trigger ClosedBy(g, root, dsts, maxDepth, c)} :: c in found ==> ClosedBy(g, root, dsts, maxDepth, c))
    && (forall a, b :: 0 <= a < b < |found| ==> Elements(found[a]) != Elements(found[b]))
    && (forall d :: d in dsts && FindCycle(g, root, d, maxDepth) != [] ==>
                      Lists(found, Elements(FindCycle(g, root, d, maxDepth))))
  }

  lemma ClosedByMore(g: Links, root: Node, dsts: seq<Node>, d: Node, maxDepth: int, c: seq<Node>)
    requires ClosedBy(g, root, dsts, maxDepth, c) || (c != [] && c == FindCycle(g, root, d, maxDepth))
    ensures ClosedBy(g, root, dsts + [d], maxDepth, c)
  {
    hide FindCycle;
    if ClosedBy(g, root, dsts, maxDepth, c) {
      var e :| e in dsts && c == FindCycle(g, root, e, maxDepth);
      assert e in dsts + [d];
    } else {
      assert d in dsts + [d];
    }
  }

  lemma ListsMore(found: seq<seq<Node>>, c: seq<Node>, accounts: set<Node>)
    requires Lists(found, accounts) || accounts == Elements(c)
    ensures Lists(found + [c], accounts)
  {
    hide Elements;
    if Lists(found, accounts) {
      var x :| x in found && Elements(x) == accounts;
      assert x in found + [c];
    } else {
      assert c in found + [c];
    }
  }

  lemma ListOne(g: Links, root: Node, dsts: seq<Node>, d: Node, maxDepth: int, found: seq<seq<Node>>)
    requires ListsCycles(g, root, dsts, maxDepth, found)
    ensures var c := FindCycle(g, root, d, maxDepth);
            ListsCycles(g, root, dsts + [d], maxDepth,
                        if c != [] && !Lists(found, Elements(c)) then found + [c] else found)
  {
    hide FindCycle, Elements, ClosedBy, Lists;
    var c, dsts' := FindCycle(g, root, d, maxDepth), dsts + [d];
    var found' := if c != [] && !Lists(found, Elements(c)) then found + [c] else found;
    forall x {:trigger ClosedBy(g, root, dsts', maxDepth, x)} | x in found' ensures ClosedBy(g, root, dsts', maxDepth, x) {
      assert x in found ==> ClosedBy(g, root, dsts, maxDepth, x);
      ClosedByMore(g, root, dsts, d, maxDepth, x);
    }
    forall a, b | 0 <= a < b < |found'| ensures Elements(found'[a]) != Elements(found'[b]) {
      if b == |found| {
        ListedAt(found, a);
      }
    }
    forall e | e in dsts' && FindCycle(g, root, e, maxDepth) != []
      ensures Lists(found', Elements(FindCycle(g, root, e, maxDepth)))
    {
      if found' != found {
        assert e in dsts || e == d;
        ListsMore(found, c, Elements(FindCycle(g, root, e, maxDepth)));
      }
    }
  }

  lemma ListsOnly(found: seq<seq<Node>>, c: seq<Node>, accounts: set<Node>)
    ensures Lists(found + [c], accounts) <==> Lists(found, accounts) || accounts == Elements(c)
  {
    hide Elements;
    if Lists(found, accounts) || accounts == Elements(c) {
      ListsMore(found, c, accounts);
    }
  }

  lemma ListedAt(found: seq<seq<Node>>, a: nat)
    requires a < |found|
    ensures Lists(found, Elements(found[a]))
  {
  }

  /** Every listed cycle is live from end to end and passes through the root. */
  lemma ListedIsLive(g: Links, root: Node, maxDepth: int, found: seq<seq<Node>>, c: seq<Node>)
    requires ListsCycles(g, root, Next(g, root), maxDepth, found) && c in found
    ensures |c| > 2 && IsCycle(g, c, root, c[1]) && c[1] in Next(g, root) && |c| - 1 <= maxDepth
  {
    hide FindCycle, Elements, Lists;
    assert ClosedBy(g, root, Next(g, root), maxDepth, c);
    var d :| d in Next(g, root) && c == FindCycle(g, root, d, maxDepth);
    FindCycleSound(g, root, d, maxDepth);
  }

  method CyclesThrough(store: Store, root: Node, maxDepth: int, nowMs: int, ghost b: nat) returns (found: seq<seq<Node>>)
    requires CycleSearch.Branching(LiveLinks(store.adjacency, nowMs - store.edgeTtlMs), b)
    modifies store
    ensures Settled(old(store.adjacency), store.adjacency, nowMs - store.edgeTtlMs)
    ensures var g := LiveLinks(old(store.adjacency), nowMs - store.edgeTtlMs);
            ListsCycles(g, root, Next(g, root), maxDepth, found)
  {
    hide ListsCycles, Settled, LiveLinks, FindCycle, Lists, Elements;
    ghost var cutoff, adj0 := nowMs - store.edgeTtlMs, store.adjacency;
    ghost var g := LiveLinks(adj0, cutoff);
    var dsts := store.LiveDestinations(root, nowMs);
    var seenSets: set<set<Node>> := {};
    found := [];
    NothingListed(g, root, maxDepth);
    SettledAtOnce(adj0, cutoff);
    assert dsts[..0] == [];
    for i := 0 to |dsts|
      invariant Settled(adj0, store.adjacency, cutoff)
      invariant ListsCycles(g, root, dsts[..i], maxDepth, found)
      invariant forall s :: s in seenSets <==> Lists(found, s)
    {
      ghost var adj1 := store.adjacency;
      SettledIsInvisible(adj0, adj1, cutoff);
      var cycle := CycleSearch.Find(root, dsts[i], maxDepth, store, nowMs, b);
      SettledTransitive(adj0, adj1, store.adjacency, cutoff);
      assert dsts[..i + 1] == dsts[..i] + [dsts[i]];
      ListOne(g, root, dsts[..i], dsts[i], maxDepth, found);
      if cycle != [] && Elements(cycle) !in seenSets {
        forall s ensures Lists(found + [cycle], s) <==> Lists(found, s) || s == Elements(cycle) {
          ListsOnly(found, cycle, s);
        }
        seenSets := seenSets + {Elements(cycle)};
        found := found + [cycle];
      }
    }
    assert dsts[..|dsts|] == dsts;
  }

  lemma NothingListed(g: Links, root: Node, maxDepth: int)
    ensures ListsCycles(g, root, [], maxDepth, []) && forall s :: !Lists([], s)
  {
  }

  /** If a transfer just closed a cycle, asking for the sender's cycles now lists one over the same accounts. */
  lemma ReportedCycleIsListed(g: Links, src: Node, dst: Node, maxDepth: int, found: seq<seq<Node>>)
    requires ListsCycles(g, src, Next(g, src), maxDepth, found)
    requires dst in Next(g, src) && FindCycle(g, src, dst, maxDepth) != []
    ensures Lists(found, Elements(FindCycle(g, src, dst, maxDepth)))
  {
    hide FindCycle, Elements, Lists;
  }

  // ---------- the read API's answer ----------

  datatype NodeInfo = NodeInfo(id: Node, degree: nat, depth: nat)

  datatype Neighborhood = Around(nodes: seq<NodeInfo>, edges: seq<HopEdge>, cycles: seq<seq<Node>>, componentSize: nat)

  /**
   The nodes are exactly those within `depth` live hops, each once, with its distance and live out-degree; the edges
   are exactly the live out-edges of the nodes fewer than `depth` hops away, which `expanded` lists.
   */
  ghost predicate Surrounds(adj: Adjacency, cutoff: int, root: Node, depth: int, nb: Neighborhood, expanded: seq<Node>) {
    && (forall a, b :: 0 <= a < b < |nb.nodes| ==> nb.nodes[a].id != nb.nodes[b].id)
    && (forall n :: Within(LiveLinks(adj, cutoff), root, n, Max(depth, 0)) <==> exists a :: 0 <= a < |nb.nodes| && nb.nodes[a].id == n)
    && (forall a :: 0 <= a < |nb.nodes| ==>
          && Distance(LiveLinks(adj, cutoff), root, nb.nodes[a].id, nb.nodes[a].depth)
          && nb.nodes[a].degree == |LiveEdges(adj, cutoff, nb.nodes[a].id)|)
    && |expanded| <= |nb.nodes| && (forall a :: 0 <= a < |expanded| ==> expanded[a] == nb.nodes[a].id)
    && (forall a :: 0 <= a < |nb.nodes| ==> (nb.nodes[a].depth < depth <==> a < |expanded|))
    && nb.edges == HopsOf(adj, cutoff, expanded)
  }

  method Nearby(store: Store, root: Node, depth: int, nowMs: int)
    returns (nodes: seq<NodeInfo>, edges: seq<HopEdge>, ghost expanded: seq<Node>)
    modifies store
    ensures Settled(old(store.adjacency), store.adjacency, nowMs - store.edgeTtlMs)
    ensures Surrounds(old(store.adjacency), nowMs - store.edgeTtlMs, root, depth, Around(nodes, edges, [], 0), expanded)
  {
    hide Settled, LiveLinks, LiveEdges, Distances, HopsOf, Discovered;
    ghost var adj0, cutoff := store.adjacency, nowMs - store.edgeTtlMs;
    var order, seen;
    order, seen, edges, expanded := Explore(store, root, depth, nowMs);
    nodes := [];
    for i := 0 to |order|
      invariant Settled(adj0, store.adjacency, cutoff)
      invariant Described(adj0, cutoff, order[..i], seen, nodes)
    {
      ghost var adj1 := store.adjacency;
      var live := store.ReadLive(order[i], nowMs);
      ReadAgain(adj0, adj1, store.adjacency, cutoff, order[i]);
      nodes := nodes + [NodeInfo(order[i], |live|, seen[order[i]])];
      assert order[..i + 1] == order[..i] + [order[i]];
    }
    assert order[..|order|] == order;
    AllDescribed(adj0, cutoff, root, depth, order, seen, nodes, edges, expanded);
  }

  ghost predicate Described(adj: Adjacency, cutoff: int, order: seq<Node>, seen: map<Node, nat>, nodes: seq<NodeInfo>) {
    && |nodes| == |order|
    && (forall a :: 0 <= a < |order| ==>
          order[a] in seen && nodes[a] == NodeInfo(order[a], |LiveEdges(adj, cutoff, order[a])|, seen[order[a]]))
  }

  lemma AllDescribed(adj: Adjacency, cutoff: int, root: Node, depth: int, order: seq<Node>, seen: map<Node, nat>,
                     nodes: seq<NodeInfo>, edges: seq<HopEdge>, expanded: seq<Node>)
    requires Described(adj, cutoff, order, seen, nodes) && NoDuplicates(order)
    requires Discovered(LiveLinks(adj, cutoff), root, depth, order, seen)
    requires Distances(LiveLinks(adj, cutoff), root, depth, seen)
    requires expanded <= order && (forall n :: n in expanded <==> n in seen && seen[n] < depth)
    requires edges == HopsOf(adj, cutoff, expanded)
    ensures Surrounds(adj, cutoff, root, depth, Around(nodes, edges, [], 0), expanded)
  {
    hide LiveLinks, LiveEdges, HopsOf, Distance, Within;
    forall a | 0 <= a < |order| ensures nodes[a].depth < depth <==> a < |expanded| {
      if nodes[a].depth < depth {
        var b :| 0 <= b < |expanded| && expanded[b] == order[a];
        assert order[b] == order[a];
      }
      if a < |expanded| {
        assert expanded[a] == order[a];
        assert order[a] in expanded;
      }
    }
    forall n ensures n in seen <==> exists a :: 0 <= a < |nodes| && nodes[a].id == n {
      if n in seen {
        assert n in order;
        var a :| 0 <= a < |order| && order[a] == n;
        assert nodes[a].id == n;
      }
    }
  }

  lemma SurroundsAnyway(adj: Adjacency, cutoff: int, root: Node, depth: int, nodes: seq<NodeInfo>, edges: seq<HopEdge>,
                        expanded: seq<Node>, cycles: seq<seq<Node>>, size: nat)
    requires Surrounds(adj, cutoff, root, depth, Around(nodes, edges, [], 0), expanded)
    ensures Surrounds(adj, cutoff, root, depth, Around(nodes, edges, cycles, size), expanded)
  {
    hide LiveLinks, LiveEdges, HopsOf, Distance, Within;
  }
}

/**
 A laundering ring seen hop by hop: k accounts pass money once around. Other traffic may run in between as long
 as it does not touch these accounts, and the log is in time order.
 */
module Rings {
  import opened Accounts
  import opened Collections
  import opened Walks
  import opened EdgeStore
  import opened CycleDetector
  import opened History
  import opened LazyDeques
  import opened PassThroughChains
  import opened TransactionGraphs
  import Neighborhoods

  function Successor(acc: seq<Node>, i: nat): Node
    requires i < |acc|
  {
    if i == |acc| - 1 then acc[0] else acc[i + 1]
  }

  /** Hop `i` of the ring is transfer `idx[i]`, from account `i` to the next; no other transfer touches an account. */
  ghost predicate Hops(log: seq<Transfer>, acc: seq<Node>, idx: seq<nat>) {
    && |acc| >= 3 && |idx| == |acc| && NoDuplicates(acc)
    && (forall i :: 0 <= i < |acc| ==> idx[i] < |log| && log[idx[i]].src == acc[i] && log[idx[i]].dst == Successor(acc, i))
    && (forall i, j :: 0 <= i < j < |acc| ==> idx[i] < idx[j])
    && (forall j :: 0 <= j < |log| && (log[j].src in acc || log[j].dst in acc) ==> j in idx)
  }

  /** Each hop forwards the one before within band and window, and the whole ring fits in the edge TTL. */
  ghost predicate Forwarding(cfg: Config, log: seq<Transfer>, acc: seq<Node>, idx: seq<nat>)
    requires Hops(log, acc, idx)
  {
    && (forall i {:trigger idx[i]} :: 0 < i < |acc| ==> Feeds(cfg, log[idx[i - 1]], log[idx[i]]))
    && log[idx[|acc| - 1]].tsMs - log[idx[0]].tsMs <= cfg.edgeTtlMs
  }

  // ---------- the only transfers in and out of a ring account ----------

  lemma {:induction false} InToNone(log: seq<Transfer>, n: nat, x: Node)
    requires n <= |log| && forall j :: 0 <= j < n ==> log[j].dst != x
    ensures InTo(log[..n], x) == []
  {
    if n > 0 {
      assert log[..n][..n - 1] == log[..n - 1];
      InToNone(log, n - 1, x);
    }
  }

  lemma {:induction false} InToOne(log: seq<Transfer>, n: nat, x: Node, j: nat)
    requires j < n <= |log| && log[j].dst == x && forall m :: 0 <= m < n && log[m].dst == x ==> m == j
    ensures InTo(log[..n], x) == [InboundOf(log[j])]
  {
    assert log[..n][..n - 1] == log[..n - 1];
    if n - 1 == j {
      InToNone(log, n - 1, x);
    } else {
      InToOne(log, n - 1, x, j);
    }
  }

  lemma {:induction false} OutOfNone(log: seq<Transfer>, n: nat, x: Node)
    requires n <= |log| && forall j :: 0 <= j < n ==> log[j].src != x
    ensures OutOf(log[..n], x) == []
  {
    if n > 0 {
      assert log[..n][..n - 1] == log[..n - 1];
      OutOfNone(log, n - 1, x);
    }
  }

  lemma {:induction false} OutOfOne(log: seq<Transfer>, n: nat, x: Node, j: nat)
    requires j < n <= |log| && log[j].src == x && forall m :: 0 <= m < n && log[m].src == x ==> m == j
    ensures OutOf(log[..n], x) == [EdgeOf(log[j])]
  {
    assert log[..n][..n - 1] == log[..n - 1];
    if n - 1 == j {
      OutOfNone(log, n - 1, x);
    } else {
      OutOfOne(log, n - 1, x, j);
    }
  }

  /** A transfer that touches an account of the ring is one of its hops. */
  lemma HopOf(log: seq<Transfer>, acc: seq<Node>, idx: seq<nat>, m: nat) returns (h: nat)
    requires Hops(log, acc, idx) && m < |log| && (log[m].src in acc || log[m].dst in acc)
    ensures h < |acc| == |idx| && idx[h] == m && log[m].src == acc[h] && log[m].dst == Successor(acc, h)
  {
    assert m in idx;
    h :| 0 <= h < |idx| && idx[h] == m;
  }

  lemma SuccessorIsInjective(acc: seq<Node>, h: nat, i: nat)
    requires NoDuplicates(acc) && h < |acc| && i < |acc| && Successor(acc, h) == acc[i]
    ensures h == if i == 0 then |acc| - 1 else i - 1
  {
  }

  lemma OnlySender(log: seq<Transfer>, acc: seq<Node>, idx: seq<nat>, i: nat, m: nat)
    requires Hops(log, acc, idx) && i < |acc| && m < |log| && log[m].src == acc[i]
    ensures m == idx[i]
  {
    var h := HopOf(log, acc, idx, m);
    assert acc[h] == acc[i];
  }

  lemma OnlyReceiver(log: seq<Transfer>, acc: seq<Node>, idx: seq<nat>, i: nat, m: nat)
    requires Hops(log, acc, idx) && i < |acc| && m < |log| && log[m].dst == acc[i]
    ensures m == idx[if i == 0 then |acc| - 1 else i - 1]
  {
    var h := HopOf(log, acc, idx, m);
    assert NoDuplicates(acc);
    hide Hops, NoDuplicates, Successor;
    SuccessorIsInjective(acc, h, i);
  }

  // ---------- depth at each hop ----------

  /** At hop `i` the sender holds exactly what hop `i - 1` brought it, and at hop 0 nothing. */
  lemma ArrivedBefore(cfg: Config, log: seq<Transfer>, acc: seq<Node>, idx: seq<nat>, i: nat)
    requires Hops(log, acc, idx) && i < |acc| && cfg.maxEdgesPerNode >= 1
    ensures ArrivalsAt(LogArrivals(cfg, log[..idx[i]]), acc[i]) == if i == 0 then [] else [InboundOf(log[idx[i - 1]])]
  {
    var n := idx[i];
    forall m: nat | m < n && log[m].dst == acc[i] ensures i > 0 && m == idx[i - 1] {
      OnlyReceiver(log, acc, idx, i, m);
    }
    if i == 0 {
      InToNone(log, n, acc[i]);
    } else {
      assert log[idx[i - 1]].dst == Successor(acc, i - 1);
      InToOne(log, n, acc[i], idx[i - 1]);
    }
    hide LogArrivals, InTo;
    LogKeepsRecent(cfg, log[..n], acc[i]);
  }

  lemma NothingFunds(cfg: Config, log: seq<Transfer>, n: nat)
    requires n < |log| && ExactAt(cfg, log, n) && ArrivalsAt(LogArrivals(cfg, log[..n]), log[n].src) == []
    ensures log[n].depth == 0
  {
    hide LogArrivals;
    assert Fresh([], log[n].tsMs - cfg.windowMs) == [];
  }

  lemma OneFunds(cfg: Config, log: seq<Transfer>, n: nat, funded: Transfer)
    requires n < |log| && ExactAt(cfg, log, n) && Feeds(cfg, funded, log[n])
    requires ArrivalsAt(LogArrivals(cfg, log[..n]), log[n].src) == [InboundOf(funded)]
    ensures log[n].depth == Min(MAX_CHAIN_DEPTH, funded.depth + 1)
  {
    hide LogArrivals, Fresh, PassThroughOf;
    OneArrival(cfg, InboundOf(funded), log[n].amount, log[n].tsMs);
  }

  lemma OneArrival(cfg: Config, i: Inbound, amount: real, tsMs: int)
    requires tsMs - cfg.windowMs <= i.tsMs <= tsMs && InBand(cfg, amount, i)
    ensures PassThroughOf(cfg, Fresh([i], tsMs - cfg.windowMs), amount, tsMs).chainDepth == Min(MAX_CHAIN_DEPTH, i.depth + 1)
  {
    assert Fresh([i], tsMs - cfg.windowMs) == [i];
    assert LastEligible(cfg, [i], amount, tsMs, true) == Some(i);
  }

  lemma HopAt(log: seq<Transfer>, acc: seq<Node>, idx: seq<nat>, i: nat)
    requires Hops(log, acc, idx) && i < |acc|
    ensures |idx| == |acc| && idx[i] < |log| && log[idx[i]].src == acc[i] && log[idx[i]].dst == Successor(acc, i)
  {
  }

  /** Hop `i` of a forwarding ring has chain depth `i`, up to the limit. */
  lemma {:induction false} DepthAtHop(cfg: Config, log: seq<Transfer>, acc: seq<Node>, idx: seq<nat>, i: nat)
    requires Hops(log, acc, idx) && Forwarding(cfg, log, acc, idx) && ExactDepths(cfg, log)
    requires i < |acc| && cfg.maxEdgesPerNode >= 1
    ensures idx[i] < |log| && log[idx[i]].depth == Min(MAX_CHAIN_DEPTH, i)
  {
    hide LogArrivals, Hops, Successor, ExactDepths, ExactAt, Forwarding, Feeds, InboundOf;
    HopAt(log, acc, idx, i);
    ArrivedBefore(cfg, log, acc, idx, i);
    HopIsExact(cfg, log, idx[i]);
    if i == 0 {
      NothingFunds(cfg, log, idx[i]);
    } else {
      HopAt(log, acc, idx, i - 1);
      HopFeeds(cfg, log, acc, idx, i);
      DepthAtHop(cfg, log, acc, idx, i - 1);
      OneFunds(cfg, log, idx[i], log[idx[i - 1]]);
    }
  }

  lemma HopIsExact(cfg: Config, log: seq<Transfer>, n: nat)
    requires ExactDepths(cfg, log) && n < |log|
    ensures ExactAt(cfg, log, n)
  {
  }

  lemma HopFeeds(cfg: Config, log: seq<Transfer>, acc: seq<Node>, idx: seq<nat>, i: nat)
    requires Hops(log, acc, idx) && Forwarding(cfg, log, acc, idx) && 0 < i < |acc|
    ensures idx[i - 1] < |log| && idx[i] < |log| && Feeds(cfg, log[idx[i - 1]], log[idx[i]])
  {
    hide Feeds;
    assert idx[i] < |log|;
  }

  // ---------- cycles at each hop ----------

  /** The links live right after hop `i`. */
  function LinksAfter(cfg: Config, log: seq<Transfer>, n: nat): Links
    requires n < |log|
  {
    LogLinks(cfg, log[..n + 1], log[n].tsMs)
  }

  /** Up to hop `i`, accounts up to `i` have sent once and the others never. */
  lemma SentByHop(cfg: Config, log: seq<Transfer>, acc: seq<Node>, idx: seq<nat>, i: nat, j: nat)
    requires Hops(log, acc, idx) && i < |acc| && j < |acc| && cfg.maxEdgesPerNode >= 1
    ensures EdgesOf(LogAdjacency(cfg, log[..idx[i] + 1]), acc[j]) == if j <= i then [EdgeOf(log[idx[j]])] else []
  {
    var n := idx[i] + 1;
    forall m: nat | m < n && log[m].src == acc[j] ensures m == idx[j] {
      OnlySender(log, acc, idx, j, m);
    }
    if j <= i {
      OutOfOne(log, n, acc[j], idx[j]);
    } else {
      OutOfNone(log, n, acc[j]);
    }
    hide LogAdjacency, OutOf;
    LogKeepsRecent(cfg, log[..n], acc[j]);
  }

  lemma InOrderAt(log: seq<Transfer>, a: nat, b: nat)
    requires LogInOrder(log) && a <= b < |log|
    ensures log[a].tsMs <= log[b].tsMs
  {
  }

  lemma HopsInOrder(log: seq<Transfer>, acc: seq<Node>, idx: seq<nat>, i: nat, j: nat)
    requires Hops(log, acc, idx) && j <= i < |acc|
    ensures idx[j] <= idx[i] < |log|
  {
  }

  lemma WithinTtl(cfg: Config, log: seq<Transfer>, acc: seq<Node>, idx: seq<nat>, i: nat, j: nat)
    requires Hops(log, acc, idx) && Forwarding(cfg, log, acc, idx) && LogInOrder(log) && j <= i < |acc|
    ensures log[idx[j]].tsMs >= log[idx[i]].tsMs - cfg.edgeTtlMs
  {
    HopsInOrder(log, acc, idx, j, 0);
    HopsInOrder(log, acc, idx, |acc| - 1, i);
    hide LogInOrder;
    InOrderAt(log, idx[0], idx[j]);
    InOrderAt(log, idx[i], idx[|acc| - 1]);
  }

  /** Right after hop `i`, accounts up to `i` link to their successor only and the others link nowhere. */
  lemma RingLinks(cfg: Config, log: seq<Transfer>, acc: seq<Node>, idx: seq<nat>, i: nat, j: nat)
    requires Hops(log, acc, idx) && Forwarding(cfg, log, acc, idx) && LogInOrder(log)
    requires i < |acc| && j < |acc| && cfg.maxEdgesPerNode >= 1
    ensures Next(LinksAfter(cfg, log, idx[i]), acc[j]) == if j <= i then [Successor(acc, j)] else []
  {
    HopAt(log, acc, idx, i);
    HopAt(log, acc, idx, j);
    hide LogAdjacency, Forwarding, LogInOrder, Hops, Successor, LiveLinks, Next, NoDuplicates;
    SentByHop(cfg, log, acc, idx, i, j);
    var cutoff := log[idx[i]].tsMs - cfg.edgeTtlMs;
    NextFromEdges(LogAdjacency(cfg, log[..idx[i] + 1]), cutoff, acc[j]);
    if j <= i {
      WithinTtl(cfg, log, acc, idx, i, j);
      OneLiveEdge(EdgeOf(log[idx[j]]), cutoff);
    }
  }

  lemma OneLiveEdge(e: Edge, cutoff: int)
    requires e.tsMs >= cutoff
    ensures Destinations(Expire([e], cutoff)) == [e.dst]
  {
    assert [e][..0] == [];
  }

  lemma NextFromEdges(adj: Adjacency, cutoff: int, n: Node)
    ensures Next(LiveLinks(adj, cutoff), n) == Destinations(Expire(EdgesOf(adj, n), cutoff))
  {
  }

  /** Before the last hop no cycle can be reported: the receiver has sent nothing yet. */
  lemma NoCycleYet(cfg: Config, log: seq<Transfer>, acc: seq<Node>, idx: seq<nat>, i: nat)
    requires Hops(log, acc, idx) && Forwarding(cfg, log, acc, idx) && LogInOrder(log)
    requires i < |acc| - 1 && cfg.maxEdgesPerNode >= 1
    ensures FindCycle(LinksAfter(cfg, log, idx[i]), acc[i], Successor(acc, i), cfg.maxCycleDepth) == []
  {
    RingLinks(cfg, log, acc, idx, i, i + 1);
  }

  /** From the first account on, a walk over the closed ring's links can only run along the ring. */
  lemma {:induction false} WalkFollowsRing(g: Links, acc: seq<Node>, p: seq<Node>, m: nat)
    requires |acc| >= 3 && forall j :: 0 <= j < |acc| ==> Next(g, acc[j]) == [Successor(acc, j)]
    requires IsWalk(g, p) && p[0] == acc[0] && m < |p| && m < |acc|
    ensures p[m] == acc[m]
  {
    if m > 0 {
      WalkFollowsRing(g, acc, p, m - 1);
      assert p[m - 1 + 1] in Next(g, p[m - 1]);
    }
  }

  /** The closing hop reports exactly the ring, if and only if the ring is within the depth bound. */
  lemma ClosedRing(g: Links, acc: seq<Node>, maxDepth: int)
    requires |acc| >= 3 && NoDuplicates(acc)
    requires forall j :: 0 <= j < |acc| ==> Next(g, acc[j]) == [Successor(acc, j)]
    ensures FindCycle(g, acc[|acc| - 1], acc[0], maxDepth) == if |acc| <= maxDepth then [acc[|acc| - 1]] + acc else []
  {
    hide FindCycle;
    var src, dst, k := acc[|acc| - 1], acc[0], |acc|;
    var c := FindCycle(g, src, dst, maxDepth);
    FindCycleIffWalkBack(g, src, dst, maxDepth);
    if c != [] {
      FindCycleSound(g, src, dst, maxDepth);
      RingIsTheCycle(g, acc, c);
    }
    if k <= maxDepth {
      forall i | 0 <= i < k - 1 ensures acc[i + 1] in Next(g, acc[i]) {
        assert Successor(acc, i) == acc[i + 1];
      }
      assert WalkFromTo(g, acc, dst, src);
    }
  }

  lemma RingIsTheCycle(g: Links, acc: seq<Node>, c: seq<Node>)
    requires |acc| >= 3 && NoDuplicates(acc)
    requires forall j :: 0 <= j < |acc| ==> Next(g, acc[j]) == [Successor(acc, j)]
    requires IsCycle(g, c, acc[|acc| - 1], acc[0])
    ensures c == [acc[|acc| - 1]] + acc
  {
    var p, k := c[1..], |acc|;
    var m := if |p| < k then |p| - 1 else k - 1;
    WalkFollowsRing(g, acc, p, m);
    assert p[|p| - 1] == acc[k - 1];
    assert |p| == k;
    forall j | 0 <= j < k ensures p[j] == acc[j] {
      WalkFollowsRing(g, acc, p, j);
    }
    assert c == [c[0]] + p;
  }

  /**
   The whole ring: hop i gets chain depth min(i, 10), no hop before the last reports a cycle, and the closing hop
   reports exactly the ring if and only if it has at most `maxCycleDepth` accounts.
   */
  lemma RingIsSeenHopByHop(cfg: Config, log: seq<Transfer>, acc: seq<Node>, idx: seq<nat>, i: nat)
    requires Hops(log, acc, idx) && Forwarding(cfg, log, acc, idx)
    requires LogInOrder(log) && ExactDepths(cfg, log) && cfg.maxEdgesPerNode >= 1 && i < |acc|
    ensures log[idx[i]].depth == Min(MAX_CHAIN_DEPTH, i)
    ensures FindCycle(LinksAfter(cfg, log, idx[i]), acc[i], Successor(acc, i), cfg.maxCycleDepth)
         == if i == |acc| - 1 && |acc| <= cfg.maxCycleDepth then [acc[i]] + acc else []
  {
    hide FindCycle, ExactDepths, LogInOrder, Forwarding;
    DepthAtHop(cfg, log, acc, idx, i);
    if i < |acc| - 1 {
      NoCycleYet(cfg, log, acc, idx, i);
    } else {
      var g := LinksAfter(cfg, log, idx[i]);
      forall j | 0 <= j < |acc| ensures Next(g, acc[j]) == [Successor(acc, j)] {
        RingLinks(cfg, log, acc, idx, i, j);
      }
      ClosedRing(g, acc, cfg.maxCycleDepth);
    }
  }

  // ---------- a ring sent through the graph ----------

  /** A call to the graph: a transfer, possibly with a missing side or to oneself, or one of the three reads. */
  datatype Call =
    | Send(src: Option<Node>, dst: Option<Node>, amount: real, tsMs: int)
    | Look(node: Option<Node>, tsMs: int)
    | LookAround(root: Option<Node>, depth: int, tsMs: int)
    | ListEdges(account: Node, tsMs: int)

  datatype Sent = Sent(src: Node, dst: Node, amount: real, tsMs: int)

  predicate InTimeOrder(calls: seq<Call>) {
    forall i, j :: 0 <= i < j < |calls| ==> calls[i].tsMs <= calls[j].tsMs
  }

  predicate IsAccepted(call: Call) {
    call.Send? && Accepts(call.src, call.dst)
  }

  /** The transfers among the calls that the graph accepts. */
  function Accepted(calls: seq<Call>): seq<Sent> {
    if calls == [] then []
    else
      var last := calls[|calls| - 1];
      Accepted(calls[..|calls| - 1])
      + if IsAccepted(last) then [Sent(last.src.value, last.dst.value, last.amount, last.tsMs)] else []
  }

  /** View `k` is the one the log as it was then gives, and the transfer was logged with the depth it shows. */
  ghost predicate SeenAt(cfg: Config, log: seq<Transfer>, start: nat, calls: seq<Sent>, views: seq<GraphView>, k: nat) {
    k < |calls| && k < |views| && start + k < |log| &&
    var c, n := calls[k], start + k;
    && log[n] == Transfer(c.src, c.dst, c.amount, c.tsMs, views[k].passThrough.chainDepth)
    && views[k] == LogView(cfg, log[..n], c.src, c.dst, c.amount, c.tsMs)
  }

  lemma SeenAfterMore(cfg: Config, log: seq<Transfer>, t: Transfer, start: nat, calls: seq<Sent>, views: seq<GraphView>,
                      c: Sent, view: GraphView, k: nat)
    requires SeenAt(cfg, log, start, calls, views, k)
    ensures SeenAt(cfg, log + [t], start, calls + [c], views + [view], k)
  {
    hide LogView;
    assert (log + [t])[..start + k] == log[..start + k];
  }

  ghost predicate AllSeen(cfg: Config, log: seq<Transfer>, start: nat, calls: seq<Sent>, views: seq<GraphView>) {
    forall k: nat {:trigger SeenAt(cfg, log, start, calls, views, k)} ::
      k < |views| ==> SeenAt(cfg, log, start, calls, views, k)
  }

  lemma NoneSeen(cfg: Config, log: seq<Transfer>, start: nat, calls: seq<Sent>)
    ensures AllSeen(cfg, log, start, calls, [])
  {
  }

  lemma OneMoreSeen(cfg: Config, log: seq<Transfer>, t: Transfer, start: nat, calls: seq<Sent>, views: seq<GraphView>,
                    c: Sent, view: GraphView)
    requires AllSeen(cfg, log, start, calls, views) && |log| == start + |views| && |views| == |calls|
    requires t == Transfer(c.src, c.dst, c.amount, c.tsMs, view.passThrough.chainDepth)
    requires view == LogView(cfg, log, c.src, c.dst, c.amount, c.tsMs)
    ensures AllSeen(cfg, log + [t], start, calls + [c], views + [view])
  {
    hide LogView;
    forall k: nat {:trigger SeenAt(cfg, log + [t], start, calls + [c], views + [view], k)} | k < |views| + 1
      ensures SeenAt(cfg, log + [t], start, calls + [c], views + [view], k)
    {
      if k < |views| {
        SeenAfterMore(cfg, log, t, start, calls, views, c, view, k);
      } else {
        assert (log + [t])[..start + k] == log;
      }
    }
  }

  /** A hop's view shows its depth and what the cycle search finds over the links right after it. */
  lemma HopView(cfg: Config, log: seq<Transfer>, start: nat, calls: seq<Sent>, views: seq<GraphView>, n: nat)
    requires start <= n && SeenAt(cfg, log, start, calls, views, n - start)
    ensures n < |log| && views[n - start].passThrough.chainDepth == log[n].depth
    ensures views[n - start].cycle == FindCycle(LinksAfter(cfg, log, n), log[n].src, log[n].dst, cfg.maxCycleDepth)
  {
    hide FindCycle, LogLinks, LogPassThrough;
    assert log[..n + 1] == log[..n] + [log[n]];
  }

  /** What hop `i` of a ring is answered with. */
  predicate AnsweredAsHop(cfg: Config, acc: seq<Node>, i: nat, view: GraphView)
    requires i < |acc|
  {
    && view.passThrough.chainDepth == Min(MAX_CHAIN_DEPTH, i)
    && view.cycle == if i == |acc| - 1 && |acc| <= cfg.maxCycleDepth then [acc[i]] + acc else []
  }

  /** The call is about some account. */
  predicate Concerns(call: Call) {
    match call
    case Send(src, _, _, _) => src.Some?
    case Look(node, _) => node.Some?
    case LookAround(root, _, _) => root.Some?
    case ListEdges(_, _) => true
  }

  /** One call; the view of an accepted transfer is the one its log gives. */
  method Perform(graph: TransactionGraph, call: Call) returns (view: GraphView)
    requires graph.Valid() && graph.inOrder && NotBefore(graph.times, call.tsMs)
    modifies graph, graph.store, graph.components
    ensures graph.Valid() && graph.inOrder && graph.times == old(graph.times) + if Concerns(call) then {call.tsMs} else {}
    ensures IsAccepted(call) ==>
              && view == LogView(graph.cfg, old(graph.log), call.src.value, call.dst.value, call.amount, call.tsMs)
              && graph.log == old(graph.log) + [Transfer(call.src.value, call.dst.value, call.amount, call.tsMs,
                                                         view.passThrough.chainDepth)]
    ensures !IsAccepted(call) ==> graph.log == old(graph.log)
  {
    hide Recorded, RecordedInOrder, LogView, FindCycle, LiveLinks, LiveEdges, LogLinks, IdleView, Elements, Next, NotBefore,
         CycleSearch.TreeSize, Neighborhoods.Surrounds, Neighborhoods.ListsCycles, RecentOut, NotOlder;
    view := NO_VIEW;
    match call
    case Send(src, dst, amount, tsMs) =>
      view := graph.AddEdge(src, dst, amount, tsMs);
    case Look(node, tsMs) =>
      view := graph.View(node, tsMs);
    case LookAround(root, depth, tsMs) =>
      ghost var expanded;
      var nb;
      nb, expanded := graph.Neighborhood(root, depth, tsMs);
    case ListEdges(account, tsMs) =>
      ghost var missing;
      var edges;
      edges, missing := graph.OutEdges(account, tsMs);
  }

  lemma AcceptedSnoc(calls: seq<Call>, call: Call)
    ensures Accepted(calls + [call])
         == Accepted(calls) + if IsAccepted(call) then [Sent(call.src.value, call.dst.value, call.amount, call.tsMs)] else []
  {
    assert (calls + [call])[..|calls|] == calls;
  }

  lemma OneMoreCall(cfg: Config, log: seq<Transfer>, log': seq<Transfer>, start: nat, calls: seq<Call>, call: Call,
                    views: seq<GraphView>, view: GraphView)
    requires AllSeen(cfg, log, start, Accepted(calls), views) && |log| == start + |views| && |views| == |Accepted(calls)|
    requires IsAccepted(call) ==>
               && view == LogView(cfg, log, call.src.value, call.dst.value, call.amount, call.tsMs)
               && log' == log + [Transfer(call.src.value, call.dst.value, call.amount, call.tsMs, view.passThrough.chainDepth)]
    requires !IsAccepted(call) ==> log' == log
    ensures var views' := if IsAccepted(call) then views + [view] else views;
            && AllSeen(cfg, log', start, Accepted(calls + [call]), views')
            && |log'| == start + |views'| && |views'| == |Accepted(calls + [call])| && log <= log'
  {
    hide AllSeen, LogView, Accepted;
    AcceptedSnoc(calls, call);
    if IsAccepted(call) {
      OneMoreSeen(cfg, log, log'[|log|], start, Accepted(calls), views,
                  Sent(call.src.value, call.dst.value, call.amount, call.tsMs), view);
    } else {
      assert Accepted(calls) + [] == Accepted(calls);
    }
  }

  /**
   Calls to a graph in time order, `views` the answers to the transfers it accepted. If there is a ring among these that
   no other transfer touches, each of its hops was answered with chain depth min(i, 10), no hop before the last with a
   cycle, and the closing hop with exactly the ring if and only if it has at most `maxCycleDepth` accounts.
   */
  method Play(graph: TransactionGraph, calls: seq<Call>, ghost acc: seq<Node>, ghost idx: seq<nat>)
    returns (views: seq<GraphView>)
    requires graph.Valid() && graph.inOrder && InTimeOrder(calls)
    requires calls != [] ==> NotBefore(graph.times, calls[0].tsMs)
    modifies graph, graph.store, graph.components
    ensures graph.Valid() && graph.inOrder && old(graph.log) <= graph.log
    ensures |views| == |Accepted(calls)| && |graph.log| == |old(graph.log)| + |views|
    ensures AllSeen(graph.cfg, graph.log, |old(graph.log)|, Accepted(calls), views)
    ensures Hops(graph.log, acc, idx) && Forwarding(graph.cfg, graph.log, acc, idx) && graph.cfg.maxEdgesPerNode >= 1 ==>
              forall i: nat {:trigger idx[i]} :: i < |acc| && idx[i] >= |old(graph.log)| ==>
                AnsweredAsHop(graph.cfg, acc, i, views[idx[i] - |old(graph.log)|])
  {
    hide Recorded, RecordedInOrder, LogView, Hops, Forwarding, SeenAt, AllSeen, Accepted;
    ghost var start := |graph.log|;
    views := [];
    NoneSeen(graph.cfg, graph.log, start, []);
    NoneAccepted();
    for k := 0 to |calls|
      invariant graph.Valid() && graph.inOrder && old(graph.log) <= graph.log
      invariant |graph.log| == start + |views| && |views| == |Accepted(calls[..k])|
      invariant k < |calls| ==> NotBefore(graph.times, calls[k].tsMs)
      invariant AllSeen(graph.cfg, graph.log, start, Accepted(calls[..k]), views)
    {
      var c := calls[k];
      ghost var log := graph.log;
      var view := Perform(graph, c);
      OneMoreCall(graph.cfg, log, graph.log, start, calls[..k], c, views, view);
      assert calls[..k + 1] == calls[..k] + [c];
      if IsAccepted(c) {
        views := views + [view];
      }
    }
    assert calls[..|calls|] == calls;
    if Hops(graph.log, acc, idx) && Forwarding(graph.cfg, graph.log, acc, idx) && graph.cfg.maxEdgesPerNode >= 1 {
      RingAnswered(graph.cfg, graph.log, graph.inbound, graph.times, acc, idx, start, Accepted(calls), views);
    }
  }

  lemma NoneAccepted()
    ensures Accepted([]) == []
  {
  }

  lemma RingAnswered(cfg: Config, log: seq<Transfer>, inbound: Arrivals, times: set<int>, acc: seq<Node>, idx: seq<nat>,
                     start: nat, calls: seq<Sent>, views: seq<GraphView>)
    requires RecordedInOrder(cfg, inbound, log, times) && |log| == start + |calls| && |views| == |calls|
    requires AllSeen(cfg, log, start, calls, views)
    requires Hops(log, acc, idx) && Forwarding(cfg, log, acc, idx) && cfg.maxEdgesPerNode >= 1
    ensures |idx| == |acc| && forall i :: 0 <= i < |acc| ==> idx[i] < |log|
    ensures forall i: nat {:trigger idx[i]} :: i < |acc| && idx[i] >= start ==> AnsweredAsHop(cfg, acc, i, views[idx[i] - start])
  {
    hide FindCycle, LogLinks, LogView, ArrivalsKept, ExactDepths, LogInOrder, Forwarding, SeenAt, AnsweredAsHop;
    forall i: nat {:trigger idx[i]} | i < |acc| && idx[i] >= start ensures AnsweredAsHop(cfg, acc, i, views[idx[i] - start]) {
      assert SeenAt(cfg, log, start, calls, views, idx[i] - start);
      HopAnswered(cfg, log, acc, idx, i, start, calls, views);
    }
  }

  lemma HopAnswered(cfg: Config, log: seq<Transfer>, acc: seq<Node>, idx: seq<nat>, i: nat, start: nat, calls: seq<Sent>,
                    views: seq<GraphView>)
    requires Hops(log, acc, idx) && Forwarding(cfg, log, acc, idx) && cfg.maxEdgesPerNode >= 1 && i < |acc|
    requires LogInOrder(log) && ExactDepths(cfg, log)
    requires start <= idx[i] && SeenAt(cfg, log, start, calls, views, idx[i] - start)
    ensures AnsweredAsHop(cfg, acc, i, views[idx[i] - start])
  {
    hide FindCycle, LogLinks, LogView, ExactDepths, LogInOrder, Forwarding;
    HopView(cfg, log, start, calls, views, idx[i]);
    RingIsSeenHopByHop(cfg, log, acc, idx, i);
    HopAt(log, acc, idx, i);
  }
}

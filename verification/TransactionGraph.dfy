/**
 The in-memory transfer graph. Its deques are capped and expired lazily, and its components only merge; the ghost
 log says what was ever accepted, and the contracts say how each answer follows from it.
 */
module TransactionGraphs {
  import opened Accounts
  import opened Collections
  import opened Walks
  import opened EdgeStore
  import opened CycleDetector
  import opened UnionFinds
  import opened LazyDeques
  import opened History
  import opened PassThroughChains
  import opened Neighborhoods
  import CycleSearch

  // ---------- the invariant, over values ----------

  ghost predicate Recorded(cfg: Config, adj: Adjacency, inbound: Arrivals, log: seq<Transfer>, times: set<int>) {
    && KeptAll(adj, LogAdjacency(cfg, log), times, cfg.edgeTtlMs)
    && ArrivalsLogged(inbound, log)
    && Witnessed(cfg, log)
    && (forall t :: t in log ==> t.tsMs in times)
  }

  /** What holds besides while calls come in time order. */
  ghost predicate RecordedInOrder(cfg: Config, inbound: Arrivals, log: seq<Transfer>, times: set<int>) {
    && ArrivalsKept(inbound, LogArrivals(cfg, log), times, cfg.windowMs)
    && LogInOrder(log)
    && ExactDepths(cfg, log)
  }

  lemma ReadKeepsRecord(cfg: Config, adj: Adjacency, adj': Adjacency, inbound: Arrivals, log: seq<Transfer>,
                        times: set<int>, nowMs: int)
    requires Recorded(cfg, adj, inbound, log, times) && Settled(adj, adj', nowMs - cfg.edgeTtlMs)
    ensures Recorded(cfg, adj', inbound, log, times + {nowMs})
  {
    KeptAllAfterReads(adj, adj', LogAdjacency(cfg, log), times, cfg.edgeTtlMs, nowMs);
  }

  lemma ReadKeepsOrder(cfg: Config, inbound: Arrivals, log: seq<Transfer>, times: set<int>, nowMs: int)
    requires RecordedInOrder(cfg, inbound, log, times)
    ensures RecordedInOrder(cfg, inbound, log, times + {nowMs})
  {
    LaterCallKeepsAll(inbound, LogArrivals(cfg, log), times, cfg.windowMs, nowMs);
  }

  function AdjacencyAfter(cfg: Config, adj: Adjacency, t: Transfer): Adjacency {
    adj[t.src := LastN(LiveEdges(adj, t.tsMs - cfg.edgeTtlMs, t.src) + [EdgeOf(t)], cfg.maxEdgesPerNode)]
  }

  function ArrivalsAfter(cfg: Config, inbound: Arrivals, t: Transfer): Arrivals {
    var kept := Forget(inbound, t.src, t.tsMs - cfg.windowMs);
    kept[t.dst := LastN(ArrivalsAt(kept, t.dst) + [InboundOf(t)], cfg.maxEdgesPerNode)]
  }

  /** What the graph says a transfer forwards, given what has arrived in its sender. */
  function PassThroughNow(cfg: Config, inbound: Arrivals, src: Node, amount: real, tsMs: int): PassThrough {
    PassThroughOf(cfg, Fresh(ArrivalsAt(inbound, src), tsMs - cfg.windowMs), amount, tsMs)
  }

  ghost predicate DepthOf(cfg: Config, inbound: Arrivals, t: Transfer) {
    t.depth == PassThroughNow(cfg, inbound, t.src, t.amount, t.tsMs).chainDepth
  }

  lemma AppendKeepsLogged(cfg: Config, inbound: Arrivals, log: seq<Transfer>, t: Transfer)
    requires ArrivalsLogged(inbound, log)
    ensures ArrivalsLogged(ArrivalsAfter(cfg, inbound, t), log + [t])
  {
    var kept := Forget(inbound, t.src, t.tsMs - cfg.windowMs);
    ForgetKeepsLogged(inbound, log, t.src, t.tsMs - cfg.windowMs);
    RecordKeepsLogged(kept, log, t, cfg.maxEdgesPerNode, ArrivalsAfter(cfg, inbound, t));
  }

  lemma AppendKeepsAdjacency(cfg: Config, adj: Adjacency, log: seq<Transfer>, times: set<int>, t: Transfer)
    requires KeptAll(adj, LogAdjacency(cfg, log), times, cfg.edgeTtlMs)
    ensures KeptAll(AdjacencyAfter(cfg, adj, t), LogAdjacency(cfg, log + [t]), times + {t.tsMs}, cfg.edgeTtlMs)
  {
    hide KeptAll, LogAdjacency, LogArrivals, LiveEdges, LastN, Pairs;
    LogSnoc(cfg, log, t);
    KeptAllAfterAppend(adj, AdjacencyAfter(cfg, adj, t), LogAdjacency(cfg, log), LogAdjacency(cfg, log + [t]), times,
                       cfg.edgeTtlMs, t.src, EdgeOf(t), cfg.maxEdgesPerNode);
  }

  lemma AppendKeepsRecord(cfg: Config, adj: Adjacency, inbound: Arrivals, log: seq<Transfer>, times: set<int>, t: Transfer)
    requires Recorded(cfg, adj, inbound, log, times) && DepthOf(cfg, inbound, t)
    ensures Recorded(cfg, AdjacencyAfter(cfg, adj, t), ArrivalsAfter(cfg, inbound, t), log + [t], times + {t.tsMs})
  {
    AppendKeepsAdjacency(cfg, adj, log, times, t);
    AppendKeepsLogged(cfg, inbound, log, t);
    PassThroughIsWitnessed(cfg, inbound, log, t);
    WitnessedSnoc(cfg, log, t);
  }

  lemma ArrivalsStep(cfg: Config, inbound: Arrivals, ideal: Arrivals, ideal': Arrivals, times: set<int>, t: Transfer)
    requires ArrivalsKept(inbound, ideal, times, cfg.windowMs) && ArrivalsInOrder(ArrivalsAt(ideal, t.src))
    requires ideal' == ideal[t.dst := LastN(ArrivalsAt(ideal, t.dst) + [InboundOf(t)], cfg.maxEdgesPerNode)]
    ensures ArrivalsKept(ArrivalsAfter(cfg, inbound, t), ideal', times + {t.tsMs}, cfg.windowMs)
  {
    hide Forget, Fresh, ArrivalsKept, ArrivalsInOrder;
    ForgetKeepsArrivals(inbound, ideal, times, cfg.windowMs, t.tsMs, t.src);
    RecordKeepsArrivals(Forget(inbound, t.src, t.tsMs - cfg.windowMs), ideal, times + {t.tsMs}, cfg.windowMs, t.dst,
                        InboundOf(t), cfg.maxEdgesPerNode, ArrivalsAfter(cfg, inbound, t), ideal');
  }

  lemma AppendKeepsArrivals(cfg: Config, inbound: Arrivals, log: seq<Transfer>, times: set<int>, t: Transfer)
    requires ArrivalsKept(inbound, LogArrivals(cfg, log), times, cfg.windowMs) && LogInOrder(log)
    ensures ArrivalsKept(ArrivalsAfter(cfg, inbound, t), LogArrivals(cfg, log + [t]), times + {t.tsMs}, cfg.windowMs)
  {
    LogArrivalsInOrder(cfg, log, t.src);
    LogSnoc(cfg, log, t);
    ArrivalsStep(cfg, inbound, LogArrivals(cfg, log), LogArrivals(cfg, log + [t]), times, t);
  }

  lemma OrderSnoc(log: seq<Transfer>, times: set<int>, t: Transfer)
    requires LogInOrder(log) && NotBefore(times, t.tsMs) && forall u :: u in log ==> u.tsMs in times
    ensures LogInOrder(log + [t])
  {
  }

  lemma AppendKeepsOrder(cfg: Config, adj: Adjacency, inbound: Arrivals, log: seq<Transfer>, times: set<int>, t: Transfer)
    requires Recorded(cfg, adj, inbound, log, times) && RecordedInOrder(cfg, inbound, log, times)
    requires NotBefore(times, t.tsMs) && DepthOf(cfg, inbound, t)
    ensures RecordedInOrder(cfg, ArrivalsAfter(cfg, inbound, t), log + [t], times + {t.tsMs})
    ensures PassThroughNow(cfg, inbound, t.src, t.amount, t.tsMs) == LogPassThrough(cfg, log, t.src, t.amount, t.tsMs)
  {
    hide KeptAll, ArrivalsLogged, Witnessed, ArrivalsKept, ExactDepths, PassThroughOf, Fresh, ArrivalsAfter, LogArrivals,
         ArrivalsAt, NotBefore, LogInOrder;
    OrderSnoc(log, times, t);
    AppendKeepsArrivals(cfg, inbound, log, times, t);
    FreshReadsLog(inbound, LogArrivals(cfg, log), times, cfg.windowMs, t.tsMs, t.src);
    ExactSnoc(cfg, log, t);
  }

  // ---------- cycles and components ----------

  lemma {:induction false} LoggedLinks(cfg: Config, log: seq<Transfer>, n: Node, e: Edge)
    requires e in EdgesOf(LogAdjacency(cfg, log), n)
    ensures (n, e.dst) in Pairs(log)
  {
    if log != [] {
      var front, last := log[..|log| - 1], log[|log| - 1];
      assert Pairs(log) == Pairs(front) + [(last.src, last.dst)];
      if e in EdgesOf(LogAdjacency(cfg, front), n) {
        LoggedLinks(cfg, front, n, e);
      } else {
        assert Pairs(log)[|log| - 1] == (n, e.dst);
      }
    }
  }

  lemma LiveLinkIsLogged(cfg: Config, adj: Adjacency, log: seq<Transfer>, times: set<int>, cutoff: int, n: Node, m: Node)
    requires KeptAll(adj, LogAdjacency(cfg, log), times, cfg.edgeTtlMs) && m in Next(LiveLinks(adj, cutoff), n)
    ensures (n, m) in Pairs(log)
  {
    var ideal := LogAdjacency(cfg, log);
    assert KeptAt(adj, ideal, times, cfg.edgeTtlMs, n);
    var live := Expire(adj[n], cutoff);
    DestinationsAt(live);
    var k :| 0 <= k < |live| && Destinations(live)[k] == m;
    var cut := ExpireCut(adj[n], cutoff);
    assert live[k] == adj[n][cut + k] == ideal[n][|ideal[n]| - |adj[n]| + cut + k];
    LoggedLinks(cfg, log, n, live[k]);
  }

  lemma {:induction false} WalkStaysInComponent(pairs: seq<Pair>, g: Links, p: seq<Node>, src: Node)
    requires IsWalk(g, p) && Connected(pairs, src, p[0])
    requires forall n, m :: m in Next(g, n) ==> (n, m) in pairs
    ensures forall x :: x in p ==> Connected(pairs, src, x)
  {
    if |p| == 1 {
    } else {
      var front, last := p[..|p| - 1], p[|p| - 1];
      WalkPrefix(g, p, |p| - 1);
      WalkStaysInComponent(pairs, g, front, src);
      assert p[|p| - 2 + 1] in Next(g, p[|p| - 2]);
      ConnectedByLink(pairs, front[|front| - 1], last);
      ConnectedTransitive(pairs, src, front[|front| - 1], last);
      assert p == front + [last];
    }
  }

  /** The component reported with a cycle covers every account on it. */
  lemma ComponentCoversCycle(cfg: Config, adj: Adjacency, log: seq<Transfer>, times: set<int>, cutoff: int,
                             src: Node, dst: Node, maxDepth: int)
    requires KeptAll(adj, LogAdjacency(cfg, log), times, cfg.edgeTtlMs) && (src, dst) in Pairs(log)
    ensures var cycle := FindCycle(LiveLinks(adj, cutoff), src, dst, maxDepth);
            Elements(cycle) <= Component(Pairs(log), src) && |Elements(cycle)| <= |Component(Pairs(log), src)|
  {
    var g, pairs := LiveLinks(adj, cutoff), Pairs(log);
    var cycle := FindCycle(g, src, dst, maxDepth);
    if cycle != [] {
      FindCycleSound(g, src, dst, maxDepth);
      forall n, m | m in Next(g, n) ensures (n, m) in pairs {
        LiveLinkIsLogged(cfg, adj, log, times, cutoff, n, m);
      }
      assert Linked(pairs, src, dst);
      ConnectedByLink(pairs, src, dst);
      WalkStaysInComponent(pairs, g, cycle[1..], src);
      forall x | x in cycle ensures x in Component(pairs, src) {
        if x != src {
          assert cycle == [src] + cycle[1..];
          ConnectedEndpoints(pairs, src, x);
        }
      }
    }
    SubsetSize(Elements(cycle), Component(pairs, src));
  }

  lemma StoredIsCapped(cfg: Config, adj: Adjacency, log: seq<Transfer>, times: set<int>, cutoff: int)
    requires KeptAll(adj, LogAdjacency(cfg, log), times, cfg.edgeTtlMs)
    ensures CycleSearch.Branching(LiveLinks(adj, cutoff), cfg.maxEdgesPerNode)
  {
    forall n ensures |Next(LiveLinks(adj, cutoff), n)| <= cfg.maxEdgesPerNode {
      if n in adj {
        assert KeptAt(adj, LogAdjacency(cfg, log), times, cfg.edgeTtlMs, n);
        LogKeepsRecent(cfg, log, n);
        DestinationsAt(Expire(adj[n], cutoff));
        var k := ExpireCut(adj[n], cutoff);
      }
    }
  }

  // ---------- the view as a function of the log ----------

  ghost function LogView(cfg: Config, log: seq<Transfer>, src: Node, dst: Node, amount: real, tsMs: int): GraphView {
    var pt := LogPassThrough(cfg, log, src, amount, tsMs);
    var log' := log + [Transfer(src, dst, amount, tsMs, pt.chainDepth)];
    GraphView(FindCycle(LogLinks(cfg, log', tsMs), src, dst, cfg.maxCycleDepth),
              |LiveEdges(LogAdjacency(cfg, log'), tsMs - cfg.edgeTtlMs, src)|,
              |Component(Pairs(log'), src)|, pt)
  }

  /** What a call that adds nothing reports about an account. */
  ghost function IdleView(cfg: Config, adj: Adjacency, log: seq<Transfer>, node: Option<Node>, tsMs: int): GraphView {
    match node
    case None => NO_VIEW
    case Some(n) =>
      GraphView([], |LiveEdges(adj, tsMs - cfg.edgeTtlMs, n)|, |Component(Pairs(log), n)|, NO_PASS_THROUGH)
  }

  /**
   What a transfer forwards, as the graph answers it: traced among the arrivals its sender holds, one of the logged
   transfers into it, and in time order traced among the recent ones of the log.
   */
  ghost predicate SourceIs(cfg: Config, inbound: Arrivals, log: seq<Transfer>, inOrder: bool, src: Node, amount: real,
                           tsMs: int, pt: PassThrough)
  {
    && Traced(cfg, ArrivalsAt(inbound, src), amount, tsMs, pt)
    && (pt.inboundFrom.Some? ==> exists j: nat {:trigger NamesLogged(cfg, log, src, amount, tsMs, pt, j)} ::
                                   NamesLogged(cfg, log, src, amount, tsMs, pt, j))
    && (inOrder ==> Traced(cfg, RecentIn(cfg, log, src), amount, tsMs, pt))
  }

  lemma SourceIsRight(cfg: Config, adj: Adjacency, inbound: Arrivals, log: seq<Transfer>, times: set<int>, inOrder: bool,
                      src: Node, amount: real, tsMs: int, pt: PassThrough)
    requires Recorded(cfg, adj, inbound, log, times) && Traced(cfg, ArrivalsAt(inbound, src), amount, tsMs, pt)
    requires inOrder ==> pt == LogPassThrough(cfg, log, src, amount, tsMs)
    ensures SourceIs(cfg, inbound, log, inOrder, src, amount, tsMs, pt)
  {
    hide Traced, ArrivalsLogged, KeptAll, Witnessed, LogPassThrough, RecentIn, NamesLogged;
    TracedIsLogged(cfg, inbound, log, src, amount, tsMs, pt);
    LogPassThroughIsTraced(cfg, log, src, amount, tsMs);
  }

  predicate Accepts(src: Option<Node>, dst: Option<Node>) {
    src.Some? && dst.Some? && src != dst
  }

  class TransactionGraph {
    const cfg: Config
    const store: Store
    const components: UnionFind
    var inbound: Arrivals
    ghost var log: seq<Transfer>
    /** The times of all calls so far, and whether each came no earlier than the calls before it. */
    ghost var times: set<int>
    ghost var inOrder: bool

    ghost predicate Consistent()
      reads this, store
    {
      && store.maxEdgesPerNode == cfg.maxEdgesPerNode && store.edgeTtlMs == cfg.edgeTtlMs
      && Recorded(cfg, store.adjacency, inbound, log, times)
      && (inOrder ==> RecordedInOrder(cfg, inbound, log, times))
    }

    ghost predicate Valid()
      reads this, store, components
    {
      Consistent() && components.Valid() && components.log == Pairs(log)
    }

    constructor (cfg: Config)
      ensures Valid() && this.cfg == cfg && log == [] && times == {} && inOrder
      ensures fresh(store) && fresh(components)
    {
      this.cfg := cfg;
      store := new Store(cfg.maxEdgesPerNode, cfg.edgeTtlMs);
      components := new UnionFind();
      inbound, log, times, inOrder := map[], [], {}, true;
    }

    /** Finds what an outgoing transfer forwards, forgetting on the way what arrived before the window. */
    method PassThroughFor(src: Node, amount: real, tsMs: int) returns (pt: PassThrough)
      modifies this`inbound
      ensures inbound == Forget(old(inbound), src, tsMs - cfg.windowMs)
      ensures pt == PassThroughNow(cfg, old(inbound), src, amount, tsMs)
      ensures Traced(cfg, ArrivalsAt(old(inbound), src), amount, tsMs, pt)
    {
      hide Traced;
      PassThroughIsTraced(cfg, ArrivalsAt(inbound, src), amount, tsMs);
      if src !in inbound {
        return NO_PASS_THROUGH;
      }
      var arrivals := Fresh(inbound[src], tsMs - cfg.windowMs);
      if arrivals == [] {
        inbound := inbound - {src};
        return NO_PASS_THROUGH;
      }
      inbound := inbound[src := arrivals];
      var latest, matched := Scan(arrivals, amount, tsMs);
      pt := if matched.Some? then
              Describe(cfg, matched.value, amount, tsMs, Min(MAX_CHAIN_DEPTH, matched.value.depth + 1))
            else if latest.Some? then
              Describe(cfg, latest.value, amount, tsMs, 0)
            else
              NO_PASS_THROUGH;
    }

    /** Scans the arrivals from the most recent back, stopping at the first whose amount matches. */
    method Scan(arrivals: seq<Inbound>, amount: real, tsMs: int) returns (latest: Option<Inbound>, matched: Option<Inbound>)
      ensures matched == LastEligible(cfg, arrivals, amount, tsMs, true)
      ensures matched.None? ==> latest == LastEligible(cfg, arrivals, amount, tsMs, false)
    {
      latest, matched := None, None;
      var k: nat := |arrivals|;
      assert arrivals[..k] == arrivals;
      while k > 0
        invariant k <= |arrivals| && matched.None?
        invariant var rest := LastEligible(cfg, arrivals[..k], amount, tsMs, true);
                  LastEligible(cfg, arrivals, amount, tsMs, true) == rest
        invariant var rest := LastEligible(cfg, arrivals[..k], amount, tsMs, false);
                  LastEligible(cfg, arrivals, amount, tsMs, false) == if latest.Some? then latest else rest
      {
        k := k - 1;
        assert arrivals[..k + 1][..k] == arrivals[..k];
        var i := arrivals[k];
        if i.tsMs <= tsMs {
          if latest.None? {
            latest := Some(i);
          }
          if InBand(cfg, amount, i) {
            matched := Some(i);
            return;
          }
        }
      }
    }

    method RecordArrival(dst: Node, i: Inbound)
      modifies this`inbound
      ensures inbound == old(inbound)[dst := LastN(ArrivalsAt(old(inbound), dst) + [i], cfg.maxEdgesPerNode)]
    {
      var arrivals := (if dst in inbound then inbound[dst] else []) + [i];
      ghost var full := arrivals;
      while |arrivals| > cfg.maxEdgesPerNode
        invariant |arrivals| <= |full| && arrivals == full[|full| - |arrivals|..]
        invariant |arrivals| < |full| ==> |arrivals| >= cfg.maxEdgesPerNode
      {
        arrivals := arrivals[1..];
      }
      assert arrivals == LastN(full, cfg.maxEdgesPerNode);
      inbound := inbound[dst := arrivals];
    }

    /** Books a call that only reads. */
    ghost method BookRead(tsMs: int, adj: Adjacency)
      requires store.maxEdgesPerNode == cfg.maxEdgesPerNode && store.edgeTtlMs == cfg.edgeTtlMs
      requires Recorded(cfg, adj, inbound, log, times) && (inOrder ==> RecordedInOrder(cfg, inbound, log, times))
      requires Settled(adj, store.adjacency, tsMs - cfg.edgeTtlMs)
      modifies this`times, this`inOrder
      ensures Consistent() && times == old(times) + {tsMs}
      ensures inOrder == (old(inOrder) && NotBefore(old(times), tsMs))
    {
      ReadKeepsRecord(cfg, adj, store.adjacency, inbound, log, times, tsMs);
      if inOrder && NotBefore(times, tsMs) {
        ReadKeepsOrder(cfg, inbound, log, times, tsMs);
      } else {
        inOrder := false;
      }
      times := times + {tsMs};
    }

    /** Books a transfer that was just recorded on both sides. */
    ghost method BookTransfer(adj: Adjacency, arrivals: Arrivals, t: Transfer)
      requires store.maxEdgesPerNode == cfg.maxEdgesPerNode && store.edgeTtlMs == cfg.edgeTtlMs
      requires Recorded(cfg, adj, arrivals, log, times) && (inOrder ==> RecordedInOrder(cfg, arrivals, log, times))
      requires store.adjacency == AdjacencyAfter(cfg, adj, t) && inbound == ArrivalsAfter(cfg, arrivals, t)
      requires DepthOf(cfg, arrivals, t)
      modifies this`log, this`times, this`inOrder
      ensures Consistent() && log == old(log) + [t] && times == old(times) + {t.tsMs}
      ensures inOrder == (old(inOrder) && NotBefore(old(times), t.tsMs))
      ensures inOrder ==> PassThroughNow(cfg, arrivals, t.src, t.amount, t.tsMs)
                          == LogPassThrough(cfg, old(log), t.src, t.amount, t.tsMs)
    {
      hide Recorded, RecordedInOrder;
      AppendKeepsRecord(cfg, adj, arrivals, log, times, t);
      if inOrder && NotBefore(times, t.tsMs) {
        AppendKeepsOrder(cfg, adj, arrivals, log, times, t);
      } else {
        inOrder := false;
      }
      log, times := log + [t], times + {t.tsMs};
    }

    /** The part of `AddEdge` that records the transfer on both sides. */
    method Insert(src: Node, dst: Node, amount: real, tsMs: int) returns (pt: PassThrough)
      requires Consistent()
      modifies this, store`adjacency
      ensures Consistent()
      ensures pt == PassThroughNow(cfg, old(inbound), src, amount, tsMs)
      ensures log == old(log) + [Transfer(src, dst, amount, tsMs, pt.chainDepth)]
      ensures store.adjacency == AdjacencyAfter(cfg, old(store.adjacency), log[|log| - 1])
      ensures times == old(times) + {tsMs} && inOrder == (old(inOrder) && NotBefore(old(times), tsMs))
      ensures inbound == ArrivalsAfter(cfg, old(inbound), log[|log| - 1])
      ensures inOrder ==> pt == LogPassThrough(cfg, old(log), src, amount, tsMs)
      ensures SourceIs(cfg, old(inbound), old(log), inOrder, src, amount, tsMs, pt)
    {
      hide Recorded, RecordedInOrder, PassThroughOf, LogPassThrough, LogAdjacency, LiveEdges, Fresh, NotBefore, Traced, RecentIn,
           SourceIs;
      pt := PassThroughFor(src, amount, tsMs);
      store.Append(src, Edge(dst, amount, tsMs, pt.chainDepth));
      RecordArrival(dst, Inbound(src, amount, tsMs, pt.chainDepth));
      BookTransfer(old(store.adjacency), old(inbound), Transfer(src, dst, amount, tsMs, pt.chainDepth));
      SourceIsRight(cfg, old(store.adjacency), old(inbound), old(log), old(times), inOrder, src, amount, tsMs, pt);
    }

    /** The sender's out-degree and component size next to a cycle that was already searched for. */
    method ViewOf(node: Node, tsMs: int, cycle: seq<Node>, pt: PassThrough) returns (view: GraphView)
      requires components.Valid()
      modifies store`adjacency, components
      ensures components.Valid() && components.log == old(components.log)
      ensures Settled(old(store.adjacency), store.adjacency, tsMs - store.edgeTtlMs)
      ensures view == GraphView(cycle, |LiveEdges(old(store.adjacency), tsMs - store.edgeTtlMs, node)|,
                                |Component(components.log, node)|, pt)
    {
      hide LiveEdges, Settled, Component;
      var live := store.ReadLive(node, tsMs);
      var size := components.ComponentSizeIfKnown(node);
      view := GraphView(cycle, |live|, size, pt);
    }

    /** Read-only view for an account that did not transfer. */
    method View(node: Option<Node>, tsMs: int) returns (view: GraphView)
      requires Valid()
      modifies this, store`adjacency, components
      ensures Valid() && log == old(log) && inbound == old(inbound)
      ensures view == IdleView(cfg, old(store.adjacency), log, node, tsMs)
      ensures view.cycle == [] && view.passThrough == PassThrough(None, 0.0, 0.0, -1, 0)
      ensures node.None? ==> view.outDegree == 0 && view.componentSize == 1
      ensures node.Some? ==> view.outDegree == |Next(LiveLinks(store.adjacency, tsMs - cfg.edgeTtlMs), node.value)|
                             && view.componentSize == |Component(Pairs(log), node.value)|
      ensures node.None? ==> times == old(times) && inOrder == old(inOrder)
      ensures node.Some? ==> times == old(times) + {tsMs} && inOrder == (old(inOrder) && NotBefore(old(times), tsMs))
    {
      hide Recorded, RecordedInOrder, LiveEdges, LiveLinks, Settled, Component, Pairs, Next;
      if node.None? {
        return NO_VIEW;
      }
      view := ViewOf(node.value, tsMs, [], NO_PASS_THROUGH);
      SettledIsInvisible(old(store.adjacency), store.adjacency, tsMs - cfg.edgeTtlMs);
      DegreeIsLinks(store.adjacency, tsMs - cfg.edgeTtlMs, node.value);
      BookRead(tsMs, old(store.adjacency));
    }

    /**
     Adds a transfer and reports what the check stage needs; a self-transfer or one with a missing side only reads.
     The view is a function of the log while calls come in time order, and always one of the deques as they stand. What it
     says the transfer forwards is spelled out in `SourceIs`.
     */
    method AddEdge(src: Option<Node>, dst: Option<Node>, amount: real, tsMs: int) returns (view: GraphView)
      requires Valid()
      modifies this, store, components
      ensures Valid()
      ensures !Accepts(src, dst) ==> log == old(log) && inbound == old(inbound)
                                     && view == IdleView(cfg, old(store.adjacency), log, src, tsMs)
                                     && view.cycle == [] && view.passThrough == PassThrough(None, 0.0, 0.0, -1, 0)
      ensures src.Some? ==> times == old(times) + {tsMs} && inOrder == (old(inOrder) && NotBefore(old(times), tsMs))
      ensures src.None? ==> times == old(times) && inOrder == old(inOrder)
      ensures src.Some? ==> view.outDegree == |Next(LiveLinks(store.adjacency, tsMs - cfg.edgeTtlMs), src.value)|
                            && view.componentSize == |Component(Pairs(log), src.value)|
      ensures Accepts(src, dst) ==>
                && log == old(log) + [Transfer(src.value, dst.value, amount, tsMs, view.passThrough.chainDepth)]
                && view.cycle == FindCycle(LiveLinks(store.adjacency, tsMs - cfg.edgeTtlMs), src.value, dst.value,
                                           cfg.maxCycleDepth)
                && |Elements(view.cycle)| <= view.componentSize == |Component(Pairs(log), src.value)|
                && SourceIs(cfg, old(inbound), old(log), inOrder, src.value, amount, tsMs, view.passThrough)
                && inbound == ArrivalsAfter(cfg, old(inbound), log[|old(log)|])
      ensures Accepts(src, dst) && NotBefore(old(times), tsMs) ==>
                LiveLinks(store.adjacency, tsMs - cfg.edgeTtlMs) == LogLinks(cfg, log, tsMs)
      ensures Accepts(src, dst) && inOrder ==> view == LogView(cfg, old(log), src.value, dst.value, amount, tsMs)
      ensures Accepts(src, dst) && cfg.maxEdgesPerNode >= 1 && cfg.edgeTtlMs >= 0 ==>
                dst.value in Next(LiveLinks(store.adjacency, tsMs - cfg.edgeTtlMs), src.value)
      ensures store.lookups <= old(store.lookups) + if cfg.maxCycleDepth < 2 then 0
                                                    else CycleSearch.TreeSize(cfg.maxEdgesPerNode, cfg.maxCycleDepth - 1)
    {
      hide Recorded, RecordedInOrder, LiveEdges, LiveLinks, Settled, Component, Pairs, Elements, FindCycle,
           LogPassThrough, LogAdjacency, LogLinks, PassThroughNow, AdjacencyAfter, ArrivalsAfter, CycleSearch.TreeSize, NotBefore,
           Next, SourceIs;
      if src.None? || dst.None? || src == dst {
        view := View(src, tsMs);
        return;
      }
      var s, d := src.value, dst.value;
      var pt := Insert(s, d, amount, tsMs);
      components.Union(s, d);
      LogSnocPairs(old(log), log[|old(log)|]);
      ghost var adj1, cutoff := store.adjacency, tsMs - cfg.edgeTtlMs;
      RecordedFacts(cfg, adj1, inbound, log, times, cutoff, s, d);
      var cycle := CycleSearch.Find(s, d, cfg.maxCycleDepth, store, tsMs, cfg.maxEdgesPerNode);
      ghost var adj2 := store.adjacency;
      view := ViewOf(s, tsMs, cycle, pt);
      AddedReads(cfg, old(store.adjacency), adj1, adj2, store.adjacency, inbound, log, times, old(times), log[|old(log)|]);
    }

    /** The live neighbourhood of an account for the read API, with the cycles it sits on. */
    method Neighborhood(root: Option<Node>, depth: int, nowMs: int) returns (nb: Neighborhood, ghost expanded: seq<Node>)
      requires Valid()
      modifies this, store, components
      ensures Valid() && log == old(log) && inbound == old(inbound)
      ensures root.None? ==> nb == Around([], [], [], 1) && times == old(times) && inOrder == old(inOrder)
      ensures root.Some? ==> times == old(times) + {nowMs} && inOrder == (old(inOrder) && NotBefore(old(times), nowMs))
      ensures root.Some? ==>
                && Surrounds(old(store.adjacency), nowMs - cfg.edgeTtlMs, root.value, depth, nb, expanded)
                && ListsCycles(LiveLinks(old(store.adjacency), nowMs - cfg.edgeTtlMs), root.value,
                               Next(LiveLinks(old(store.adjacency), nowMs - cfg.edgeTtlMs), root.value),
                               cfg.maxCycleDepth, nb.cycles)
                && nb.componentSize == |Component(Pairs(log), root.value)|
    {
      hide Recorded, RecordedInOrder, LiveEdges, LiveLinks, Settled, Component, Pairs, Surrounds, ListsCycles;
      expanded := [];
      if root.None? {
        return Around([], [], [], 1), [];
      }
      ghost var adj0, cutoff := store.adjacency, nowMs - cfg.edgeTtlMs;
      var nodes, edges;
      nodes, edges, expanded := Nearby(store, root.value, depth, nowMs);
      ghost var adj1 := store.adjacency;
      RecordedIsCapped(cfg, adj0, inbound, log, times, cutoff);
      SettledIsInvisible(adj0, adj1, cutoff);
      var cycles := CyclesThrough(store, root.value, cfg.maxCycleDepth, nowMs, cfg.maxEdgesPerNode);
      SettledTransitive(adj0, adj1, store.adjacency, cutoff);
      var size := components.ComponentSizeIfKnown(root.value);
      BookRead(nowMs, adj0);
      nb := Around(nodes, edges, cycles, size);
      SurroundsAnyway(adj0, cutoff, root.value, depth, nodes, edges, expanded, cycles, size);
    }

    /**
     Live out-edges of a node for the read API: the recent transfers without a leading part, which is too old for this
     call or was for an earlier one. An earlier call with a later time can so have removed an edge that is live now.
     */
    method OutEdges(node: Node, nowMs: int) returns (edges: seq<Edge>, ghost missing: seq<Edge>)
      requires Valid()
      modifies this, store
      ensures Valid() && log == old(log)
      ensures times == old(times) + {nowMs} && inOrder == (old(inOrder) && NotBefore(old(times), nowMs))
      ensures RecentOut(cfg, log, node) == missing + edges
      ensures forall e :: e in missing ==> e.tsMs < nowMs - cfg.edgeTtlMs || Stale(e.tsMs, old(times), cfg.edgeTtlMs)
      ensures edges == LiveEdges(old(store.adjacency), nowMs - cfg.edgeTtlMs, node)
      ensures old(inOrder) && NotBefore(old(times), nowMs) ==>
                edges == NotOlder(RecentOut(cfg, log, node), nowMs - cfg.edgeTtlMs)
    {
      hide Recorded, RecordedInOrder, LiveEdges, Settled, NotOlder, RecentOut;
      if inOrder && NotBefore(times, nowMs) {
        RecordedIsExact(cfg, store.adjacency, inbound, log, times, nowMs, node);
      }
      missing := MissingIsStale(cfg, store.adjacency, inbound, log, times, nowMs, node);
      edges := store.ReadLive(node, nowMs);
      BookRead(nowMs, old(store.adjacency));
    }
  }

  // ---------- across calls ----------

  /** A log in time order with these depths is the log of a graph: the one its transfers are added to. */
  method Replay(cfg: Config, log: seq<Transfer>) returns (graph: TransactionGraph)
    requires ExactDepths(cfg, log) && LogInOrder(log) && forall t :: t in log ==> t.src != t.dst
    ensures fresh(graph) && graph.Valid() && graph.cfg == cfg && graph.log == log && graph.inOrder
  {
    hide Recorded, RecordedInOrder, ExactDepths, LogInOrder, LogView, LogPassThrough, LiveLinks, FindCycle, Component, NotBefore,
         LogLinks, Elements, CycleSearch.TreeSize, SourceIs, ArrivalsAfter, IdleView, Next;
    graph := new TransactionGraph(cfg);
    assert TimesOf(log[..0]) == {};
    for i := 0 to |log|
      invariant graph.Valid() && graph.cfg == cfg && graph.log == log[..i] && graph.inOrder
      invariant fresh(graph) && fresh(graph.store) && fresh(graph.components)
      invariant graph.times == TimesOf(log[..i])
    {
      var t := log[i];
      LaterThanBefore(log, i);
      var view := graph.AddEdge(Some(t.src), Some(t.dst), t.amount, t.tsMs);
      DepthInView(cfg, log, i);
      assert log[..i + 1] == log[..i] + [t];
      TimesSnoc(log[..i], t);
    }
    assert log[..|log|] == log;
  }

  ghost function TimesOf(log: seq<Transfer>): set<int> {
    set t | t in log :: t.tsMs
  }

  lemma TimesSnoc(log: seq<Transfer>, t: Transfer)
    ensures TimesOf(log + [t]) == TimesOf(log) + {t.tsMs}
  {
    forall x ensures x in TimesOf(log + [t]) <==> x in TimesOf(log) + {t.tsMs} {
      if x in TimesOf(log) {
        var u :| u in log && u.tsMs == x;
        assert u in log + [t];
      }
      if x == t.tsMs {
        assert t in log + [t];
      }
    }
  }

  lemma LaterThanBefore(log: seq<Transfer>, k: nat)
    requires LogInOrder(log) && k < |log|
    ensures NotBefore(TimesOf(log[..k]), log[k].tsMs)
  {
  }

  /** The view of transfer `k` shows the depth the log has for it. */
  lemma DepthInView(cfg: Config, log: seq<Transfer>, k: nat)
    requires ExactDepths(cfg, log) && k < |log|
    ensures LogView(cfg, log[..k], log[k].src, log[k].dst, log[k].amount, log[k].tsMs).passThrough.chainDepth == log[k].depth
  {
    assert ExactAt(cfg, log, k);
  }

  lemma NoEdgesNoCycle(g: Links, src: Node, dst: Node, maxDepth: int)
    requires CycleSearch.Branching(g, 0)
    ensures FindCycle(g, src, dst, maxDepth) == []
  {
    assert |Next(g, dst)| == 0;
  }

  /** A graph that keeps no edges reports no cycle. */
  lemma NothingKeptNothingFound(graph: TransactionGraph, cutoff: int, src: Node, dst: Node)
    requires graph.Valid() && graph.cfg.maxEdgesPerNode == 0
    ensures FindCycle(LiveLinks(graph.store.adjacency, cutoff), src, dst, graph.cfg.maxCycleDepth) == []
  {
    hide Recorded, RecordedInOrder, FindCycle, LiveLinks;
    RecordedIsCapped(graph.cfg, graph.store.adjacency, graph.inbound, graph.log, graph.times, cutoff);
    NoEdgesNoCycle(LiveLinks(graph.store.adjacency, cutoff), src, dst, graph.cfg.maxCycleDepth);
  }

  /** The check and the read API agree: a cycle a transfer is just reported to close is listed when asked for then. */
  method AddThenAsk(graph: TransactionGraph, src: Node, dst: Node, amount: real, tsMs: int, depth: int)
    returns (view: GraphView, nb: Neighborhood)
    requires graph.Valid()
    modifies graph, graph.store, graph.components
    ensures graph.Valid()
    ensures src != dst ==> graph.log == old(graph.log) + [Transfer(src, dst, amount, tsMs, view.passThrough.chainDepth)]
    ensures graph.cfg.edgeTtlMs >= 0 && view.cycle != [] ==> Lists(nb.cycles, Elements(view.cycle))
    ensures forall c :: c in nb.cycles ==> |c| > 2 && c[0] == src == c[|c| - 1] && |c| - 1 <= graph.cfg.maxCycleDepth
  {
    hide Recorded, RecordedInOrder, LogView, LogLinks, LiveLinks, Surrounds, ListsCycles, FindCycle, Elements, Lists, IsCycle,
         SourceIs, ArrivalsAfter, IdleView, NotBefore, CycleSearch.TreeSize;
    ghost var expanded;
    view := graph.AddEdge(Some(src), Some(dst), amount, tsMs);
    ghost var g := LiveLinks(graph.store.adjacency, tsMs - graph.cfg.edgeTtlMs);
    if graph.cfg.maxEdgesPerNode == 0 {
      NothingKeptNothingFound(graph, tsMs - graph.cfg.edgeTtlMs, src, dst);
    }
    nb, expanded := graph.Neighborhood(Some(src), depth, tsMs);
    if graph.cfg.edgeTtlMs >= 0 && view.cycle != [] {
      ReportedCycleIsListed(g, src, dst, graph.cfg.maxCycleDepth, nb.cycles);
    }
    forall c | c in nb.cycles ensures |c| > 2 && c[0] == src == c[|c| - 1] && |c| - 1 <= graph.cfg.maxCycleDepth {
      ListedIsLive(g, src, graph.cfg.maxCycleDepth, nb.cycles, c);
      CycleEnds(g, c, src);
    }
  }

  lemma CycleEnds(g: Links, c: seq<Node>, src: Node)
    requires |c| > 1 && IsCycle(g, c, src, c[1])
    ensures c[0] == src == c[|c| - 1]
  {
  }

  // ---------- what the methods need from the invariant ----------

  lemma LogSnocPairs(log: seq<Transfer>, t: Transfer)
    ensures Pairs(log + [t]) == Pairs(log) + [(t.src, t.dst)]
  {
  }

  lemma RecordedIsCapped(cfg: Config, adj: Adjacency, inbound: Arrivals, log: seq<Transfer>, times: set<int>, cutoff: int)
    requires Recorded(cfg, adj, inbound, log, times)
    ensures CycleSearch.Branching(LiveLinks(adj, cutoff), cfg.maxEdgesPerNode)
  {
    StoredIsCapped(cfg, adj, log, times, cutoff);
  }

  lemma RecordedFacts(cfg: Config, adj: Adjacency, inbound: Arrivals, log: seq<Transfer>, times: set<int>, cutoff: int,
                      s: Node, d: Node)
    requires Recorded(cfg, adj, inbound, log, times) && (s, d) in Pairs(log)
    ensures CycleSearch.Branching(LiveLinks(adj, cutoff), cfg.maxEdgesPerNode)
    ensures |Elements(FindCycle(LiveLinks(adj, cutoff), s, d, cfg.maxCycleDepth))| <= |Component(Pairs(log), s)|
  {
    hide FindCycle, Component, Elements, LiveLinks, Pairs;
    StoredIsCapped(cfg, adj, log, times, cutoff);
    ComponentCoversCycle(cfg, adj, log, times, cutoff, s, d, cfg.maxCycleDepth);
  }

  /** Reading again at a time already booked changes nothing the invariant says. */
  lemma RecordAgain(cfg: Config, adj: Adjacency, adj': Adjacency, inbound: Arrivals, log: seq<Transfer>, times: set<int>,
                    tsMs: int)
    requires Recorded(cfg, adj, inbound, log, times) && tsMs in times && Settled(adj, adj', tsMs - cfg.edgeTtlMs)
    ensures Recorded(cfg, adj', inbound, log, times)
  {
    hide Recorded, Settled;
    ReadKeepsRecord(cfg, adj, adj', inbound, log, times, tsMs);
    assert times + {tsMs} == times;
  }

  lemma InsertedReads(cfg: Config, adj0: Adjacency, adj: Adjacency, inbound: Arrivals, log: seq<Transfer>, times: set<int>,
                      times0: set<int>, t: Transfer)
    requires Recorded(cfg, adj, inbound, log, times) && times == times0 + {t.tsMs} && adj == AdjacencyAfter(cfg, adj0, t)
    ensures NotBefore(times0, t.tsMs) ==>
              && LiveLinks(adj, t.tsMs - cfg.edgeTtlMs) == LogLinks(cfg, log, t.tsMs)
              && LiveEdges(adj, t.tsMs - cfg.edgeTtlMs, t.src)
                 == LiveEdges(LogAdjacency(cfg, log), t.tsMs - cfg.edgeTtlMs, t.src)
    ensures cfg.maxEdgesPerNode >= 1 && cfg.edgeTtlMs >= 0 ==>
              t.dst in Next(LiveLinks(adj, t.tsMs - cfg.edgeTtlMs), t.src)
  {
    hide LiveEdges, LiveLinks, LogAdjacency, AdjacencyAfter, KeptAll, ArrivalsLogged, Witnessed;
    if NotBefore(times0, t.tsMs) {
      ReadsLog(adj, LogAdjacency(cfg, log), times, cfg.edgeTtlMs, t.tsMs);
      ReadsLogAt(adj, LogAdjacency(cfg, log), times, cfg.edgeTtlMs, t.tsMs, t.src);
    }
    if cfg.maxEdgesPerNode >= 1 && cfg.edgeTtlMs >= 0 {
      NewEdgeIsLive(cfg, adj0, t);
    }
  }

  /** What the reads after an insertion leave, and see. */
  lemma AddedReads(cfg: Config, adj0: Adjacency, adj1: Adjacency, adj2: Adjacency, adj3: Adjacency, inbound: Arrivals,
                   log: seq<Transfer>, times: set<int>, times0: set<int>, t: Transfer)
    requires Recorded(cfg, adj1, inbound, log, times) && times == times0 + {t.tsMs} && adj1 == AdjacencyAfter(cfg, adj0, t)
    requires Settled(adj1, adj2, t.tsMs - cfg.edgeTtlMs) && Settled(adj2, adj3, t.tsMs - cfg.edgeTtlMs)
    ensures var cutoff := t.tsMs - cfg.edgeTtlMs;
            && Recorded(cfg, adj3, inbound, log, times) && LiveLinks(adj3, cutoff) == LiveLinks(adj1, cutoff)
            && LiveEdges(adj2, cutoff, t.src) == LiveEdges(adj1, cutoff, t.src)
            && |LiveEdges(adj1, cutoff, t.src)| == |Next(LiveLinks(adj3, cutoff), t.src)|
            && (NotBefore(times0, t.tsMs) ==>
                  && LiveLinks(adj3, cutoff) == LogLinks(cfg, log, t.tsMs)
                  && LiveEdges(adj1, cutoff, t.src) == LiveEdges(LogAdjacency(cfg, log), cutoff, t.src))
            && (cfg.maxEdgesPerNode >= 1 && cfg.edgeTtlMs >= 0 ==> t.dst in Next(LiveLinks(adj3, cutoff), t.src))
  {
    hide Recorded, LiveEdges, LiveLinks, Settled, LogAdjacency, LogLinks, AdjacencyAfter, NotBefore, Next;
    var cutoff := t.tsMs - cfg.edgeTtlMs;
    ReadAgain(adj1, adj2, adj3, cutoff, t.src);
    SettledIsInvisible(adj1, adj3, cutoff);
    DegreeIsLinks(adj3, cutoff, t.src);
    RecordAgain(cfg, adj1, adj3, inbound, log, times, t.tsMs);
    InsertedReads(cfg, adj0, adj1, inbound, log, times, times0, t);
  }

  lemma NewEdgeIsLive(cfg: Config, adj: Adjacency, t: Transfer)
    requires cfg.maxEdgesPerNode >= 1 && cfg.edgeTtlMs >= 0
    ensures t.dst in Next(LiveLinks(AdjacencyAfter(cfg, adj, t), t.tsMs - cfg.edgeTtlMs), t.src)
  {
    var before := LiveEdges(adj, t.tsMs - cfg.edgeTtlMs, t.src);
    var edges := LastN(before + [EdgeOf(t)], cfg.maxEdgesPerNode);
    LastStays(before, EdgeOf(t), cfg.maxEdgesPerNode, t.tsMs - cfg.edgeTtlMs);
    hide LiveEdges, Expire, LastN, Destinations;
    assert AdjacencyAfter(cfg, adj, t)[t.src] == edges;
  }

  lemma LastStays(before: seq<Edge>, e: Edge, cap: nat, cutoff: int)
    requires cap >= 1 && e.tsMs >= cutoff
    ensures e.dst in Destinations(Expire(LastN(before + [e], cap), cutoff))
  {
    var edges := LastN(before + [e], cap);
    assert |edges| > 0 && edges[|edges| - 1] == e;
    hide LastN, Expire, Destinations;
    var cut := ExpireCut(edges, cutoff);
    DestinationsAt(edges[cut..]);
    assert Destinations(edges[cut..])[|edges| - cut - 1] == e.dst;
  }

  /** Whatever the order of calls, a reader misses only recent transfers that some call came more than the TTL after. */
  lemma MissingIsStale(cfg: Config, adj: Adjacency, inbound: Arrivals, log: seq<Transfer>, times: set<int>, nowMs: int,
                       node: Node)
    returns (missing: seq<Edge>)
    requires Recorded(cfg, adj, inbound, log, times)
    ensures RecentOut(cfg, log, node) == missing + LiveEdges(adj, nowMs - cfg.edgeTtlMs, node)
    ensures forall e :: e in missing ==> e.tsMs < nowMs - cfg.edgeTtlMs || Stale(e.tsMs, times, cfg.edgeTtlMs)
  {
    hide Kept, ArrivalsLogged, Witnessed, Stale, Expire, RecentOut, LogAdjacency;
    LogKeepsRecent(cfg, log, node);
    if node in adj {
      assert KeptAt(adj, LogAdjacency(cfg, log), times, cfg.edgeTtlMs, node);
      missing := MissingAt(adj[node], RecentOut(cfg, log, node), times, cfg.edgeTtlMs, nowMs);
    } else {
      missing := [];
      NothingToExpire(nowMs - cfg.edgeTtlMs);
    }
  }

  lemma NothingToExpire(cutoff: int)
    ensures Expire([], cutoff) == []
  {
  }

  lemma RecordedIsExact(cfg: Config, adj: Adjacency, inbound: Arrivals, log: seq<Transfer>, times: set<int>, nowMs: int,
                        node: Node)
    requires Recorded(cfg, adj, inbound, log, times) && RecordedInOrder(cfg, inbound, log, times) && NotBefore(times, nowMs)
    ensures LiveEdges(adj, nowMs - cfg.edgeTtlMs, node) == NotOlder(RecentOut(cfg, log, node), nowMs - cfg.edgeTtlMs)
  {
    ExpiryIsExact(cfg, adj, log, times, nowMs, node);
  }
}

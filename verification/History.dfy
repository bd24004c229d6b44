/**
 The transfer graph as a function of its history. A log lists every accepted transfer; what the graph should
 answer at a given time is computed from the log alone. The class in TransactionGraph.dfy keeps capped, lazily
 expired deques instead, and the lemmas here say how far the two agree.
 */
module History {
  import opened Accounts
  import opened Collections
  import opened Walks
  import opened EdgeStore
  import opened CycleDetector
  import opened UnionFinds
  import opened LazyDeques

  const MAX_CHAIN_DEPTH := 10

  datatype Config = Config(maxEdgesPerNode: nat, edgeTtlMs: int, maxCycleDepth: int,
                           windowMs: int, minRatio: real, maxRatio: real)

  /** An accepted transfer with the chain depth the graph gave it. */
  datatype Transfer = Transfer(src: Node, dst: Node, amount: real, tsMs: int, depth: nat)

  /** A transfer as its receiver keeps it. */
  datatype Inbound = Inbound(src: Node, amount: real, tsMs: int, depth: nat)

  datatype PassThrough = PassThrough(inboundFrom: Option<Node>, inboundAmount: real, ratio: real,
                                     secsSinceInbound: int, chainDepth: nat)

  const NO_PASS_THROUGH := PassThrough(None, 0.0, 0.0, -1, 0)

  datatype GraphView = GraphView(cycle: seq<Node>, outDegree: nat, componentSize: nat, passThrough: PassThrough)

  const NO_VIEW := GraphView([], 0, 1, NO_PASS_THROUGH)

  // ---------- projections of the log ----------

  function EdgeOf(t: Transfer): Edge {
    Edge(t.dst, t.amount, t.tsMs, t.depth)
  }

  function InboundOf(t: Transfer): Inbound {
    Inbound(t.src, t.amount, t.tsMs, t.depth)
  }

  function OutOf(log: seq<Transfer>, n: Node): seq<Edge> {
    if log == [] then
      []
    else
      var last := log[|log| - 1];
      OutOf(log[..|log| - 1], n) + if last.src == n then [EdgeOf(last)] else []
  }

  function InTo(log: seq<Transfer>, n: Node): seq<Inbound> {
    if log == [] then
      []
    else
      var last := log[|log| - 1];
      InTo(log[..|log| - 1], n) + if last.dst == n then [InboundOf(last)] else []
  }

  function Pairs(log: seq<Transfer>): seq<Pair> {
    seq(|log|, i requires 0 <= i < |log| => (log[i].src, log[i].dst))
  }

  /** The reference for the cap: the last `maxEdgesPerNode` transfers out of `n`. */
  function RecentOut(cfg: Config, log: seq<Transfer>, n: Node): seq<Edge> {
    LastN(OutOf(log, n), cfg.maxEdgesPerNode)
  }

  type Arrivals = map<Node, seq<Inbound>>

  function ArrivalsAt(inbound: Arrivals, n: Node): seq<Inbound> {
    if n in inbound then inbound[n] else []
  }

  /** The arrival deques the log would leave if none were ever forgotten. */
  function LogArrivals(cfg: Config, log: seq<Transfer>): Arrivals {
    if log == [] then
      map[]
    else
      var before, last := LogArrivals(cfg, log[..|log| - 1]), log[|log| - 1];
      before[last.dst := LastN(ArrivalsAt(before, last.dst) + [InboundOf(last)], cfg.maxEdgesPerNode)]
  }

  /** The deques the log would leave if nothing ever expired: each keeps its last `maxEdgesPerNode` edges. */
  function LogAdjacency(cfg: Config, log: seq<Transfer>): Adjacency {
    if log == [] then
      map[]
    else
      var before, last := LogAdjacency(cfg, log[..|log| - 1]), log[|log| - 1];
      before[last.src := LastN(EdgesOf(before, last.src) + [EdgeOf(last)], cfg.maxEdgesPerNode)]
  }

  /** The links a reader should see at `nowMs`. */
  function LogLinks(cfg: Config, log: seq<Transfer>, nowMs: int): Links {
    LiveLinks(LogAdjacency(cfg, log), nowMs - cfg.edgeTtlMs)
  }

  // ---------- pass-through ----------

  function Ratio(amount: real, i: Inbound): real {
    if i.amount > 0.0 then amount / i.amount else 0.0
  }

  predicate InBand(cfg: Config, amount: real, i: Inbound) {
    cfg.minRatio <= Ratio(amount, i) <= cfg.maxRatio
  }

  predicate Eligible(cfg: Config, amount: real, tsMs: int, inBand: bool, i: Inbound) {
    i.tsMs <= tsMs && (inBand ==> InBand(cfg, amount, i))
  }

  /** The most recently recorded arrival not stamped after `tsMs`, and inside the band if that is asked for. */
  function LastEligible(cfg: Config, arrivals: seq<Inbound>, amount: real, tsMs: int, inBand: bool): Option<Inbound> {
    if arrivals == [] then
      None
    else if Eligible(cfg, amount, tsMs, inBand, arrivals[|arrivals| - 1]) then
      Some(arrivals[|arrivals| - 1])
    else
      LastEligible(cfg, arrivals[..|arrivals| - 1], amount, tsMs, inBand)
  }

  function Round3(x: real): real {
    (x * 1000.0 + 0.5).Floor as real / 1000.0
  }

  function Describe(cfg: Config, used: Inbound, amount: real, tsMs: int, depth: nat): PassThrough {
    PassThrough(Some(used.src), used.amount, Round3(Ratio(amount, used)), Max(0, (tsMs - used.tsMs) / 1000), depth)
  }

  /** A matching arrival is forwarded, one link deeper; otherwise the latest arrival is only context. */
  function PassThroughOf(cfg: Config, arrivals: seq<Inbound>, amount: real, tsMs: int): PassThrough {
    match LastEligible(cfg, arrivals, amount, tsMs, true)
    case Some(m) => Describe(cfg, m, amount, tsMs, Min(MAX_CHAIN_DEPTH, m.depth + 1))
    case None =>
      match LastEligible(cfg, arrivals, amount, tsMs, false)
      case Some(l) => Describe(cfg, l, amount, tsMs, 0)
      case None => NO_PASS_THROUGH
  }

  /** The arrivals not older than the cutoff. */
  function Fresh(arrivals: seq<Inbound>, cutoff: int): seq<Inbound> {
    if arrivals == [] then
      []
    else
      var last := arrivals[|arrivals| - 1];
      Fresh(arrivals[..|arrivals| - 1], cutoff) + if last.tsMs < cutoff then [] else [last]
  }

  function LogPassThrough(cfg: Config, log: seq<Transfer>, src: Node, amount: real, tsMs: int): PassThrough {
    PassThroughOf(cfg, Fresh(ArrivalsAt(LogArrivals(cfg, log), src), tsMs - cfg.windowMs), amount, tsMs)
  }

  // ---------- the log as it grows ----------

  lemma LogSnoc(cfg: Config, log: seq<Transfer>, t: Transfer)
    ensures LogAdjacency(cfg, log + [t]) == LogAdjacency(cfg, log)[t.src :=
              LastN(EdgesOf(LogAdjacency(cfg, log), t.src) + [EdgeOf(t)], cfg.maxEdgesPerNode)]
    ensures LogArrivals(cfg, log + [t]) == LogArrivals(cfg, log)[t.dst :=
              LastN(ArrivalsAt(LogArrivals(cfg, log), t.dst) + [InboundOf(t)], cfg.maxEdgesPerNode)]
    ensures Pairs(log + [t]) == Pairs(log) + [(t.src, t.dst)]
  {
    assert (log + [t])[..|log|] == log;
  }

  lemma {:induction false} EdgesKeepRecent(cfg: Config, log: seq<Transfer>, n: Node)
    ensures EdgesOf(LogAdjacency(cfg, log), n) == RecentOut(cfg, log, n)
  {
    if log != [] {
      var front, last := log[..|log| - 1], log[|log| - 1];
      EdgesKeepRecent(cfg, front, n);
      hide LastN;
      CapAgain(OutOf(front, n), EdgeOf(last), cfg.maxEdgesPerNode);
    }
  }

  lemma {:induction false} ArrivalsKeepRecent(cfg: Config, log: seq<Transfer>, n: Node)
    ensures ArrivalsAt(LogArrivals(cfg, log), n) == LastN(InTo(log, n), cfg.maxEdgesPerNode)
  {
    if log != [] {
      var front, last := log[..|log| - 1], log[|log| - 1];
      ArrivalsKeepRecent(cfg, front, n);
      hide LastN;
      CapAgain(InTo(front, n), InboundOf(last), cfg.maxEdgesPerNode);
    }
  }

  /** Capping after every transfer leaves the same as capping once. */
  lemma LogKeepsRecent(cfg: Config, log: seq<Transfer>, n: Node)
    ensures EdgesOf(LogAdjacency(cfg, log), n) == RecentOut(cfg, log, n)
    ensures ArrivalsAt(LogArrivals(cfg, log), n) == LastN(InTo(log, n), cfg.maxEdgesPerNode)
  {
    EdgesKeepRecent(cfg, log, n);
    ArrivalsKeepRecent(cfg, log, n);
  }

  lemma CapAgain<T>(s: seq<T>, x: T, cap: nat)
    ensures LastN(LastN(s, cap) + [x], cap) == LastN(s + [x], cap)
  {
  }

  ghost predicate LogInOrder(log: seq<Transfer>) {
    forall i, j :: 0 <= i < j < |log| ==> log[i].tsMs <= log[j].tsMs
  }

  lemma {:induction false} ProjectionsInOrder(log: seq<Transfer>, n: Node)
    requires LogInOrder(log)
    ensures forall a, b :: 0 <= a < b < |OutOf(log, n)| ==> OutOf(log, n)[a].tsMs <= OutOf(log, n)[b].tsMs
    ensures forall a, b :: 0 <= a < b < |InTo(log, n)| ==> InTo(log, n)[a].tsMs <= InTo(log, n)[b].tsMs
    ensures forall e :: e in OutOf(log, n) ==> e.tsMs <= log[|log| - 1].tsMs
    ensures forall i :: i in InTo(log, n) ==> i.tsMs <= log[|log| - 1].tsMs
  {
    if |log| > 1 {
      ProjectionsInOrder(log[..|log| - 1], n);
    }
  }

  // ---------- the stored adjacency against the log's ----------

  function EdgeTime(e: Edge): int { e.tsMs }

  ghost predicate KeptAt(adj: Adjacency, ideal: Adjacency, times: set<int>, span: int, n: Node) {
    n in adj && n in ideal && Kept(EdgeTime, adj[n], ideal[n], times, span)
  }

  ghost predicate KeptAll(adj: Adjacency, ideal: Adjacency, times: set<int>, span: int) {
    && adj.Keys == ideal.Keys
    && forall n {:trigger KeptAt(adj, ideal, times, span, n)} :: n in adj ==> KeptAt(adj, ideal, times, span, n)
  }

  lemma KeptAfterExpire(kept: seq<Edge>, ideal: seq<Edge>, times: set<int>, span: int, nowMs: int)
    requires Kept(EdgeTime, kept, ideal, times, span)
    ensures Kept(EdgeTime, kept, ideal, times + {nowMs}, span)
    ensures Kept(EdgeTime, Expire(kept, nowMs - span), ideal, times + {nowMs}, span)
  {
    var k := ExpireCut(kept, nowMs - span);
    KeptAfterDrop(EdgeTime, kept, ideal, times, span, nowMs, k);
    KeptAfterDrop(EdgeTime, kept, ideal, times, span, nowMs, 0);
    assert kept[0..] == kept;
  }

  lemma KeptAllAfterReads(adj: Adjacency, adj': Adjacency, ideal: Adjacency, times: set<int>, span: int, nowMs: int)
    requires KeptAll(adj, ideal, times, span) && Settled(adj, adj', nowMs - span)
    ensures KeptAll(adj', ideal, times + {nowMs}, span)
  {
    var times' := times + {nowMs};
    forall n {:trigger KeptAt(adj', ideal, times', span, n)} | n in adj' ensures KeptAt(adj', ideal, times', span, n) {
      assert KeptAt(adj, ideal, times, span, n);
      KeptAfterExpire(adj[n], ideal[n], times, span, nowMs);
    }
  }

  lemma KeptAllAfterAppend(adj: Adjacency, adj': Adjacency, ideal: Adjacency, ideal': Adjacency, times: set<int>,
                           span: int, src: Node, e: Edge, cap: nat)
    requires KeptAll(adj, ideal, times, span)
    requires adj' == adj[src := LastN(LiveEdges(adj, e.tsMs - span, src) + [e], cap)]
    requires ideal' == ideal[src := LastN(EdgesOf(ideal, src) + [e], cap)]
    ensures KeptAll(adj', ideal', times + {e.tsMs}, span)
  {
    var times' := times + {e.tsMs};
    forall n {:trigger KeptAt(adj', ideal', times', span, n)} | n in adj' ensures KeptAt(adj', ideal', times', span, n) {
      if n in adj {
        assert KeptAt(adj, ideal, times, span, n);
      }
      if n == src {
        KeptAtSender(EdgesOf(adj, n), EdgesOf(ideal, n), times, span, e, cap);
      } else {
        KeptAfterExpire(adj[n], ideal[n], times, span, e.tsMs);
      }
    }
  }

  lemma KeptAtSender(kept: seq<Edge>, ideal: seq<Edge>, times: set<int>, span: int, e: Edge, cap: nat)
    requires Kept(EdgeTime, kept, ideal, times, span)
    ensures Kept(EdgeTime, LastN(Expire(kept, e.tsMs - span) + [e], cap), LastN(ideal + [e], cap), times + {e.tsMs}, span)
  {
    KeptAfterExpire(kept, ideal, times, span, e.tsMs);
    KeptAfterAppend(EdgeTime, Expire(kept, e.tsMs - span), ideal, e, times + {e.tsMs}, span, cap);
  }

  lemma ReadsIdealAt(kept: seq<Edge>, ideal: seq<Edge>, times: set<int>, span: int, nowMs: int)
    requires Kept(EdgeTime, kept, ideal, times, span) && NotBefore(times, nowMs)
    ensures Expire(kept, nowMs - span) == Expire(ideal, nowMs - span)
  {
    var gone := MissingIsOld(EdgeTime, kept, ideal, times, span, nowMs);
    forall e | e in gone ensures e.tsMs < nowMs - span {
      assert EdgeTime(e) < nowMs - span;
    }
    ExpireOldPrefix(gone, kept, nowMs - span);
  }

  /** Whatever the order of calls, a reader misses only edges that are too old for it or that some call made stale. */
  lemma MissingAt(kept: seq<Edge>, ideal: seq<Edge>, times: set<int>, span: int, nowMs: int) returns (missing: seq<Edge>)
    requires Kept(EdgeTime, kept, ideal, times, span)
    ensures ideal == missing + Expire(kept, nowMs - span)
    ensures forall e :: e in missing ==> e.tsMs < nowMs - span || Stale(e.tsMs, times, span)
  {
    hide Stale, Expire;
    var gone := |ideal| - |kept|;
    var cut := ExpireCut(kept, nowMs - span);
    missing := ideal[..gone + cut];
    forall e | e in missing ensures e.tsMs < nowMs - span || Stale(e.tsMs, times, span) {
      var k :| 0 <= k < |missing| && missing[k] == e;
      if k >= gone {
        assert kept[k - gone] == ideal[k];
      } else {
        assert Stale(EdgeTime(ideal[k]), times, span);
      }
    }
  }

  /** Lazy expiry is invisible to a reader whose clock has not gone back: it sees exactly the log's links. */
  lemma ReadsLog(adj: Adjacency, ideal: Adjacency, times: set<int>, span: int, nowMs: int)
    requires KeptAll(adj, ideal, times, span) && NotBefore(times, nowMs)
    ensures LiveLinks(adj, nowMs - span) == LiveLinks(ideal, nowMs - span)
  {
    forall n | n in adj ensures Expire(adj[n], nowMs - span) == Expire(ideal[n], nowMs - span) {
      assert KeptAt(adj, ideal, times, span, n);
      ReadsIdealAt(adj[n], ideal[n], times, span, nowMs);
    }
    SameLive(adj, ideal, nowMs - span);
  }

  lemma ReadsLogAt(adj: Adjacency, ideal: Adjacency, times: set<int>, span: int, nowMs: int, n: Node)
    requires KeptAll(adj, ideal, times, span) && NotBefore(times, nowMs)
    ensures LiveEdges(adj, nowMs - span, n) == LiveEdges(ideal, nowMs - span, n)
  {
    if n in adj {
      assert KeptAt(adj, ideal, times, span, n);
      ReadsIdealAt(adj[n], ideal[n], times, span, nowMs);
    }
  }

  /** The edges not older than the cutoff, wherever they stand. */
  function NotOlder(edges: seq<Edge>, cutoff: int): seq<Edge> {
    if edges == [] then
      []
    else
      (if edges[0].tsMs >= cutoff then [edges[0]] else []) + NotOlder(edges[1..], cutoff)
  }

  lemma {:induction false} NotOlderKeepsAll(edges: seq<Edge>, cutoff: int)
    ensures NotOlder(edges, cutoff) == edges <==> forall e :: e in edges ==> e.tsMs >= cutoff
    ensures forall e :: e in NotOlder(edges, cutoff) ==> e.tsMs >= cutoff
  {
    if edges != [] {
      NotOlderKeepsAll(edges[1..], cutoff);
    }
  }

  /** No stale edge stands behind one that is still live. */
  ghost predicate StaleFirst(edges: seq<Edge>, cutoff: int) {
    forall a, b :: 0 <= a < b < |edges| && edges[a].tsMs >= cutoff ==> edges[b].tsMs >= cutoff
  }

  lemma StaleFirstTail(edges: seq<Edge>, cutoff: int)
    requires edges != [] && edges[0].tsMs < cutoff
    ensures StaleFirst(edges, cutoff) <==> StaleFirst(edges[1..], cutoff)
  {
    var tail := edges[1..];
    if StaleFirst(edges, cutoff) {
      forall a, b | 0 <= a < b < |tail| && tail[a].tsMs >= cutoff ensures tail[b].tsMs >= cutoff {
        assert tail[a] == edges[a + 1] && tail[b] == edges[b + 1];
      }
    }
    if StaleFirst(tail, cutoff) {
      forall a, b | 0 <= a < b < |edges| && edges[a].tsMs >= cutoff ensures edges[b].tsMs >= cutoff {
        assert edges[a] == tail[a - 1] && edges[b] == tail[b - 1];
      }
    }
  }

  /** Stopping at the first live edge is exact precisely when no stale edge stands behind a live one. */
  lemma {:induction false} ExpireExactIff(edges: seq<Edge>, cutoff: int)
    ensures Expire(edges, cutoff) == NotOlder(edges, cutoff) <==> StaleFirst(edges, cutoff)
  {
    hide StaleFirst;
    if edges == [] {
      assert StaleFirst(edges, cutoff) by {
        NothingIsStaleFirst(cutoff);
      }
    } else if edges[0].tsMs < cutoff {
      ExpireExactIff(edges[1..], cutoff);
      StaleFirstTail(edges, cutoff);
    } else {
      LiveHeadStaleFirst(edges, cutoff);
      NotOlderKeepsAll(edges, cutoff);
    }
  }

  lemma NothingIsStaleFirst(cutoff: int)
    ensures StaleFirst([], cutoff)
  {
  }

  lemma LiveHeadStaleFirst(edges: seq<Edge>, cutoff: int)
    requires edges != [] && edges[0].tsMs >= cutoff
    ensures StaleFirst(edges, cutoff) <==> forall e :: e in edges ==> e.tsMs >= cutoff
  {
    if StaleFirst(edges, cutoff) {
      forall e | e in edges ensures e.tsMs >= cutoff {
        var b :| 0 <= b < |edges| && edges[b] == e;
      }
    }
  }

  /** With transfers in time order, a reader sees exactly the recent transfers that are not older than the TTL. */
  lemma ExpiryIsExact(cfg: Config, adj: Adjacency, log: seq<Transfer>, times: set<int>, nowMs: int, n: Node)
    requires KeptAll(adj, LogAdjacency(cfg, log), times, cfg.edgeTtlMs) && NotBefore(times, nowMs) && LogInOrder(log)
    ensures LiveEdges(adj, nowMs - cfg.edgeTtlMs, n) == NotOlder(RecentOut(cfg, log, n), nowMs - cfg.edgeTtlMs)
  {
    ReadsLogAt(adj, LogAdjacency(cfg, log), times, cfg.edgeTtlMs, nowMs, n);
    LogKeepsRecent(cfg, log, n);
    ProjectionsInOrder(log, n);
    ExpireExactIff(RecentOut(cfg, log, n), nowMs - cfg.edgeTtlMs);
  }

  /** Whatever the order of times, expiry only ever over-retains: no edge live at the cutoff is lost. */
  lemma ExpiryLosesNothingLive(edges: seq<Edge>, cutoff: int, e: Edge)
    requires e in edges && e.tsMs >= cutoff
    ensures e in Expire(edges, cutoff)
  {
    var n := ExpireCut(edges, cutoff);
    var k :| 0 <= k < |edges| && edges[k] == e;
    assert e == edges[n..][k - n];
  }
}

/** The graph check's two signals, and what it takes for them to fire. */
module GraphCheck {
  import opened Accounts
  import opened Collections
  import opened Walks
  import opened CycleDetector
  import opened History
  import opened PassThroughChains

  datatype Settings = Settings(minCycleLength: int, passThroughMinDepth: int)

  datatype Signal =
    | RingSuspect(severity: real, cycle: seq<Node>, cycleLength: int, componentSize: nat, outDegree: nat,
                  counterparty: Option<Node>)
    | PassThroughSignal(severity: real, inboundFrom: Option<Node>, inboundAmount: real, outboundAmount: real, ratio: real,
                        secsSinceInbound: int, chainDepth: nat, counterparty: Option<Node>)

  /** Two decimals, halves up. */
  function Round2(x: real): (r: real)
    ensures InCents(r, x)
  {
    var r := (x * 100.0 + 0.5).Floor as real / 100.0;
    assert r * 100.0 == (x * 100.0 + 0.5).Floor as real;
    r
  }

  /** The one number of two decimals nearest to `x`, the upper of two. */
  predicate InCents(r: real, x: real) {
    x - 0.005 < r <= x + 0.005 && (r * 100.0).Floor as real == r * 100.0
  }

  function Ring(cfg: Settings, view: GraphView, counterparty: Option<Node>): Option<Signal> {
    if view.cycle == [] then
      None
    else
      var length := |view.cycle| - 1;
      if length < cfg.minCycleLength then None
      else Some(RingSuspect(1.0, view.cycle, length, view.componentSize, view.outDegree, counterparty))
  }

  function PassThroughCheck(cfg: Settings, view: GraphView, amount: real, counterparty: Option<Node>): Option<Signal> {
    var pt := view.passThrough;
    if pt.chainDepth < cfg.passThroughMinDepth then
      None
    else
      var severity := if pt.chainDepth >= 3 then 1.0 else pt.chainDepth as real / 3.0;
      Some(PassThroughSignal(severity, pt.inboundFrom, Round2(pt.inboundAmount), Round2(amount), pt.ratio,
                             pt.secsSinceInbound, pt.chainDepth, counterparty))
  }

  /** The new edge closed a cycle of at least the configured length. */
  predicate ClosesRing(cfg: Settings, view: GraphView) {
    view.cycle != [] && |view.cycle| - 1 >= cfg.minCycleLength
  }

  predicate Forwards(cfg: Settings, view: GraphView) {
    view.passThrough.chainDepth >= cfg.passThroughMinDepth
  }

  predicate SuspectsRing(signals: seq<Signal>) {
    exists i :: 0 <= i < |signals| && signals[i].RingSuspect?
  }

  predicate SeesPassThrough(signals: seq<Signal>) {
    exists i :: 0 <= i < |signals| && signals[i].PassThroughSignal?
  }

  /** All the signals of a view and all their evidence: the ring if there is one, then what is forwarded, and no other. */
  ghost predicate SignalsAre(cfg: Settings, signals: seq<Signal>, view: GraphView, amount: real, counterparty: Option<Node>) {
    && |signals| == (if ClosesRing(cfg, view) then 1 else 0) + (if Forwards(cfg, view) then 1 else 0)
    && (ClosesRing(cfg, view) ==>
          signals[0] == RingSuspect(1.0, view.cycle, |view.cycle| - 1, view.componentSize, view.outDegree, counterparty))
    && (Forwards(cfg, view) ==> ReportsPassThrough(signals[|signals| - 1], view.passThrough, amount, counterparty))
  }

  /** The evidence of a pass-through signal; its severity grows by a third with each hop, up to 1. */
  ghost predicate ReportsPassThrough(signal: Signal, pt: PassThrough, amount: real, counterparty: Option<Node>) {
    && signal.PassThroughSignal? && signal.chainDepth == pt.chainDepth && signal.inboundFrom == pt.inboundFrom
    && InCents(signal.inboundAmount, pt.inboundAmount) && InCents(signal.outboundAmount, amount)
    && signal.ratio == pt.ratio && signal.secsSinceInbound == pt.secsSinceInbound && signal.counterparty == counterparty
    && (pt.chainDepth <= 3 ==> signal.severity * 3.0 == pt.chainDepth as real) && (pt.chainDepth >= 3 ==> signal.severity == 1.0)
  }

  /** At most one signal of each kind, the ring first; a missing view gives none. */
  method Evaluate(cfg: Settings, view: Option<GraphView>, amount: real, counterparty: Option<Node>) returns (signals: seq<Signal>)
    ensures view.None? ==> signals == []
    ensures view.Some? ==> SignalsAre(cfg, signals, view.value, amount, counterparty)
    ensures view.Some? ==> (SuspectsRing(signals) <==> ClosesRing(cfg, view.value))
    ensures view.Some? ==> (SeesPassThrough(signals) <==> Forwards(cfg, view.value))
  {
    signals := [];
    if view.None? {
      return;
    }
    var ring := Ring(cfg, view.value, counterparty);
    if ring.Some? {
      signals := signals + [ring.value];
    }
    var pt := PassThroughCheck(cfg, view.value, amount, counterparty);
    if pt.Some? {
      signals := signals + [pt.value];
      assert signals[|signals| - 1].PassThroughSignal?;
    }
    assert ring.Some? ==> signals[0].RingSuspect?;
  }

  /** A live cycle of three or more accounts through the transfer src -> dst, within the depth bound. */
  ghost predicate RingThrough(g: Links, c: seq<Node>, src: Node, dst: Node, maxDepth: int) {
    IsCycle(g, c, src, dst) && 3 <= |c| - 1 <= maxDepth
  }

  /** The view right after the transfer src -> dst was added, over the links live then. */
  ghost predicate ViewOf(view: GraphView, g: Links, src: Node, dst: Node, maxDepth: int) {
    view.cycle == FindCycle(g, src, dst, maxDepth)
  }

  /** Whatever the minimum length, a ring signal carries a real cycle of at least that length. */
  lemma RingSignalIsReal(cfg: Settings, view: GraphView, counterparty: Option<Node>, g: Links, src: Node, dst: Node, maxDepth: int)
    requires ViewOf(view, g, src, dst, maxDepth) && Ring(cfg, view, counterparty).Some?
    ensures IsCycle(g, view.cycle, src, dst) && cfg.minCycleLength <= |view.cycle| - 1 <= maxDepth
    ensures Ring(cfg, view, counterparty).value.cycleLength == |view.cycle| - 1
  {
    FindCycleSound(g, src, dst, maxDepth);
  }

  /**
   With the shipped minimum of three, the signal fires exactly when a ring exists whose third account comes before
   any direct link back to the sender among the receiver's links. A repayment listed earlier hides the ring.
   */
  lemma RingSuspectIff(cfg: Settings, view: GraphView, counterparty: Option<Node>, g: Links, src: Node, dst: Node, maxDepth: int)
    requires ViewOf(view, g, src, dst, maxDepth) && cfg.minCycleLength == 3
    ensures Ring(cfg, view, counterparty).Some? <==>
            exists c, j :: RingThrough(g, c, src, dst, maxDepth) && StartsBeforeTarget(Next(g, dst), 0, j, src, c[2])
  {
    hide FindCycle;
    LongCycleIff(g, src, dst, maxDepth);
    if Ring(cfg, view, counterparty).Some? {
      var c, j :| IsCycle(g, c, src, dst) && 3 < |c| <= maxDepth + 1 && StartsBeforeTarget(Next(g, dst), 0, j, src, c[2]);
      assert RingThrough(g, c, src, dst, maxDepth);
    }
    if c, j :| RingThrough(g, c, src, dst, maxDepth) && StartsBeforeTarget(Next(g, dst), 0, j, src, c[2]) {
      assert IsCycle(g, c, src, dst) && 3 < |c| <= maxDepth + 1;
    }
  }

  /** Without a live link back from the receiver, the signal fires exactly on the transfers that close a ring. */
  lemma RingSuspectWithoutRepayment(cfg: Settings, view: GraphView, counterparty: Option<Node>, g: Links,
                                    src: Node, dst: Node, maxDepth: int)
    requires ViewOf(view, g, src, dst, maxDepth) && cfg.minCycleLength == 3 && src !in Next(g, dst)
    ensures Ring(cfg, view, counterparty).Some? <==> exists c :: RingThrough(g, c, src, dst, maxDepth)
  {
    hide FindCycle, Ring, ViewOf;
    RingSuspectIff(cfg, view, counterparty, g, src, dst, maxDepth);
    if c :| RingThrough(g, c, src, dst, maxDepth) {
      CycleSplit(g, c, src, dst);
      var j :| 0 <= j < |Next(g, dst)| && Next(g, dst)[j] == c[2];
      assert StartsBeforeTarget(Next(g, dst), 0, j, src, c[2]);
    }
  }

  /** The repayment that hides a ring: 1 pays 2, who owes 1 directly and also through 3. */
  lemma RepaymentHidesRing()
    ensures var g := map[1 := [2], 2 := [1, 3], 3 := [1]];
            RingThrough(g, [1, 2, 3, 1], 1, 2, 5) && FindCycle(g, 1, 2, 5) == [1, 2, 1]
  {
    var g := map[1 := [2], 2 := [1, 3], 3 := [1]];
    var c := [1, 2, 3, 1];
    assert c[1..] == [2, 3, 1];
    assert 3 in Next(g, 2) && 1 in Next(g, 3);
    assert DfsFrom(g, 1, 2, 0, 1, 5, [1, 2], {1, 2}) == Some([1, 2] + [1]);
  }

  /** A pass-through signal is never made up: the chain it counts is in the log. */
  lemma PassThroughSignalIsWitnessed(cfg: Settings, graph: Config, view: GraphView, log: seq<Transfer>) returns (c: seq<nat>)
    requires Forwards(cfg, view) && log != [] && log[|log| - 1].depth == view.passThrough.chainDepth
    requires Witnessed(graph, log)
    ensures Chain(graph, log, c) && c[|c| - 1] == |log| - 1
    ensures |c| - 1 == view.passThrough.chainDepth >= cfg.passThroughMinDepth
  {
    c := WitnessChain(graph, log, |log| - 1);
  }

  // ---------- what the signals mean for the transfer they are raised on ----------

  /** A live ring through the transfer, its third account listed before any direct link back to the sender. */
  ghost predicate RingListedFirst(g: Links, src: Node, dst: Node, maxDepth: int) {
    exists c, j :: RingThrough(g, c, src, dst, maxDepth) && StartsBeforeTarget(Next(g, dst), 0, j, src, c[2])
  }

  ghost predicate RingExists(g: Links, src: Node, dst: Node, maxDepth: int) {
    exists c :: RingThrough(g, c, src, dst, maxDepth)
  }

  /** What the ring signal says about a transfer that was just added, over the links live then. */
  ghost predicate RingSignalMeans(cfg: Settings, signals: seq<Signal>, g: Links, src: Node, dst: Node, maxDepth: int) {
    && (SuspectsRing(signals) ==>
          && signals[0].RingSuspect? && IsCycle(g, signals[0].cycle, src, dst)
          && cfg.minCycleLength <= signals[0].cycleLength == |signals[0].cycle| - 1 <= maxDepth)
    && (cfg.minCycleLength == 3 ==> (SuspectsRing(signals) <==> RingListedFirst(g, src, dst, maxDepth)))
    && (cfg.minCycleLength == 3 && src !in Next(g, dst) ==> (SuspectsRing(signals) <==> RingExists(g, src, dst, maxDepth)))
  }

  lemma RingSignalIs(cfg: Settings, view: GraphView, counterparty: Option<Node>, g: Links, src: Node, dst: Node, maxDepth: int,
                     signals: seq<Signal>)
    requires ViewOf(view, g, src, dst, maxDepth) && (SuspectsRing(signals) <==> ClosesRing(cfg, view))
    requires SuspectsRing(signals) ==> signals != [] && Ring(cfg, view, counterparty) == Some(signals[0])
    ensures RingSignalMeans(cfg, signals, g, src, dst, maxDepth)
  {
    hide RingThrough, StartsBeforeTarget, IsCycle, FindCycle, SuspectsRing, ViewOf;
    assert ClosesRing(cfg, view) <==> Ring(cfg, view, counterparty).Some?;
    if SuspectsRing(signals) {
      RingSignalIsReal(cfg, view, counterparty, g, src, dst, maxDepth);
    }
    if cfg.minCycleLength == 3 {
      RingSuspectIff(cfg, view, counterparty, g, src, dst, maxDepth);
      if src !in Next(g, dst) {
        RingSuspectWithoutRepayment(cfg, view, counterparty, g, src, dst, maxDepth);
      }
    }
  }

  /**
   What the signals raised on a transfer mean, over the links live then and the log that ends in it: they are all the
   signals of the view; the ring signal is as above; a pass-through signal is raised exactly if the transfer's depth in
   the log reaches the minimum, and then a chain `c` in the log, as deep as it reports, ends in the transfer.
   */
  ghost predicate SignalsMean(cfg: Settings, graph: Config, signals: seq<Signal>, view: GraphView, amount: real, g: Links,
                              src: Node, dst: Node, log: seq<Transfer>, c: seq<nat>)
  {
    && SignalsAre(cfg, signals, view, amount, Some(dst))
    && RingSignalMeans(cfg, signals, g, src, dst, graph.maxCycleDepth)
    && log != [] && (SeesPassThrough(signals) <==> log[|log| - 1].depth >= cfg.passThroughMinDepth)
    && (SeesPassThrough(signals) ==>
          && Chain(graph, log, c) && c[|c| - 1] == |log| - 1
          && signals[|signals| - 1].PassThroughSignal? && signals[|signals| - 1].chainDepth == |c| - 1)
  }

  /** Evaluates the view of a transfer that was just added. */
  method EvaluateTransfer(cfg: Settings, graph: Config, view: GraphView, amount: real, ghost g: Links, src: Node, dst: Node,
                          ghost log: seq<Transfer>)
    returns (signals: seq<Signal>, ghost c: seq<nat>)
    requires ViewOf(view, g, src, dst, graph.maxCycleDepth)
    requires Witnessed(graph, log) && log != [] && log[|log| - 1].depth == view.passThrough.chainDepth
    ensures SignalsAre(cfg, signals, view, amount, Some(dst))
    ensures RingSignalMeans(cfg, signals, g, src, dst, graph.maxCycleDepth)
    ensures SignalsMean(cfg, graph, signals, view, amount, g, src, dst, log, c)
  {
    hide FindCycle, Chain, RingSignalMeans, Witnessed, ViewOf, SuspectsRing, SeesPassThrough, InCents;
    c := [];
    signals := Evaluate(cfg, Some(view), amount, Some(dst));
    RingSignalIs(cfg, view, Some(dst), g, src, dst, graph.maxCycleDepth, signals);
    if Forwards(cfg, view) {
      c := PassThroughSignalIsWitnessed(cfg, graph, view, log);
    }
  }
}

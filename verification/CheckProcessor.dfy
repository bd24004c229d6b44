/**
 The enrich and check stages behind the deduplication stage: one transaction at a time through the velocity windows,
 the transfer graph, the profile and the last location, in that order.
 */
module CheckProcessors {
  import opened Accounts
  import opened Collections
  import opened CycleDetector
  import opened Dedup
  import opened EdgeStore
  import opened GraphCheck
  import opened History
  import opened LazyDeques
  import opened PassThroughChains
  import opened TransactionGraphs
  import opened UnionFinds
  import opened VelocityWindows
  import opened Walks
  import Welford

  datatype LastLocation = LastLocation(lat: real, lon: real, tsMs: int)

  /** What the checks are shown about one transaction. */
  datatype CheckContext = CheckContext(in1m: WindowAggregate, in5m: WindowAggregate, in1h: WindowAggregate,
                                       priorProfile: Option<Welford.Accumulator>, lastLocation: Option<LastLocation>,
                                       view: GraphView)

  // ---------- the reference: folds over the transactions processed so far ----------

  /** The amounts a user's deliveries carried, in order. */
  function Amounts(done: seq<Input>, user: Node): seq<real> {
    if done == [] then
      []
    else
      var last := done[|done| - 1];
      Amounts(done[..|done| - 1], user) + if last.Deliver? && last.txn.user == user then [last.txn.amount] else []
  }

  function ProfileOf(done: seq<Input>, user: Node): Option<Welford.Accumulator> {
    var amounts := Amounts(done, user);
    if amounts == [] then None else Some(Welford.Of(amounts))
  }

  /** Delivery `i` is the user's latest: no other has a greater time, and none with the same time came after it. */
  ghost predicate IsLatest(done: seq<Input>, user: Node, i: nat) {
    && i < |done| && done[i].Deliver? && done[i].txn.user == user
    && forall j :: 0 <= j < |done| && done[j].Deliver? && done[j].txn.user == user ==>
         done[j].tsMs < done[i].tsMs || (done[j].tsMs == done[i].tsMs && j <= i)
  }

  function LocationAt(input: Input): LastLocation
    requires input.Deliver?
  {
    LastLocation(input.txn.lat, input.txn.lon, input.tsMs)
  }

  /** The location is that of the user's latest delivery; there is none only if the user had no delivery. */
  ghost predicate LocationIs(done: seq<Input>, user: Node, location: Option<LastLocation>) {
    match location
    case None => forall i :: 0 <= i < |done| && done[i].Deliver? ==> done[i].txn.user != user
    case Some(l) => exists i: nat {:trigger IsLatest(done, user, i)} :: IsLatest(done, user, i) && l == LocationAt(done[i])
  }

  function Events(done: seq<Input>): seq<Event> {
    if done == [] then
      []
    else
      var last := done[|done| - 1];
      Events(done[..|done| - 1]) + if last.Deliver? then [Event(last.txn.user, last.txn.amount, last.tsMs)] else []
  }

  predicate IsTransfer(input: Input) {
    input.Deliver? && input.txn.counterparty.Some? && input.txn.counterparty != Some(input.txn.user)
  }

  /** The transfers among the deliveries, each with the chain depth the transfers before it give it. */
  ghost function LogOf(cfg: Config, done: seq<Input>): seq<Transfer> {
    if done == [] then
      []
    else
      var log, last := LogOf(cfg, done[..|done| - 1]), done[|done| - 1];
      if IsTransfer(last) then
        var pt := LogPassThrough(cfg, log, last.txn.user, last.txn.amount, last.tsMs);
        log + [Transfer(last.txn.user, last.txn.counterparty.value, last.txn.amount, last.tsMs, pt.chainDepth)]
      else
        log
  }

  function Times(done: seq<Input>): set<int> {
    set input | input in done && input.Deliver? :: input.tsMs
  }

  /** The deliveries came in time order. */
  ghost predicate InOrder(done: seq<Input>) {
    forall i, j :: 0 <= i < j < |done| && done[i].Deliver? && done[j].Deliver? ==> done[i].tsMs <= done[j].tsMs
  }

  /** While the deliveries come in time order, the graph's log is a function of them. */
  ghost predicate Follows(cfg: Config, log: seq<Transfer>, times: set<int>, inOrder: bool, done: seq<Input>) {
    && times == Times(done) && (inOrder <==> InOrder(done))
    && (inOrder ==> log == LogOf(cfg, done))
  }

  lemma TimesStep(done: seq<Input>, txn: Transaction, tsMs: int)
    ensures Times(done + [Deliver(txn, tsMs)]) == Times(done) + {tsMs}
  {
    var done1 := done + [Deliver(txn, tsMs)];
    assert done1[|done|] == Deliver(txn, tsMs);
    forall t ensures t in Times(done1) <==> t in Times(done) || t == tsMs {
      if t in Times(done) {
        var input :| input in done && input.Deliver? && input.tsMs == t;
        assert input in done1;
      }
    }
  }

  lemma NotBeforeMeans(done: seq<Input>, tsMs: int)
    ensures NotBefore(Times(done), tsMs) <==> forall i :: 0 <= i < |done| && done[i].Deliver? ==> done[i].tsMs <= tsMs
  {
    if NotBefore(Times(done), tsMs) {
      forall i | 0 <= i < |done| && done[i].Deliver? ensures done[i].tsMs <= tsMs {
        assert done[i].tsMs in Times(done);
      }
    }
  }

  lemma OrderStep(done: seq<Input>, txn: Transaction, tsMs: int)
    ensures var done1 := done + [Deliver(txn, tsMs)];
            && Times(done1) == Times(done) + {tsMs}
            && (InOrder(done1) <==> InOrder(done) && NotBefore(Times(done), tsMs))
  {
    hide NotBefore, Times;
    TimesStep(done, txn, tsMs);
    NotBeforeMeans(done, tsMs);
    var done1 := done + [Deliver(txn, tsMs)];
    if InOrder(done1) {
      forall i | 0 <= i < |done| && done[i].Deliver? ensures done[i].tsMs <= tsMs {
        assert done1[i] == done[i] && done1[|done|] == Deliver(txn, tsMs);
      }
      forall i, j | 0 <= i < j < |done| && done[i].Deliver? && done[j].Deliver? ensures done[i].tsMs <= done[j].tsMs {
        assert done1[i] == done[i] && done1[j] == done[j];
      }
    }
  }

  lemma LogOfSnoc(cfg: Config, done: seq<Input>, last: Input)
    ensures LogOf(cfg, done + [last])
         == LogOf(cfg, done) + if !IsTransfer(last) then [] else
              [Transfer(last.txn.user, last.txn.counterparty.value, last.txn.amount, last.tsMs,
                        LogPassThrough(cfg, LogOf(cfg, done), last.txn.user, last.txn.amount, last.tsMs).chainDepth)]
  {
    assert (done + [last])[..|done|] == done;
  }

  /** Only one location can be the latest. */
  lemma LocationIsUnique(done: seq<Input>, user: Node, a: Option<LastLocation>, b: Option<LastLocation>)
    requires LocationIs(done, user, a) && LocationIs(done, user, b)
    ensures a == b
  {
  }

  lemma DoneSnoc(done: seq<Input>, txn: Transaction, tsMs: int, user: Node)
    ensures var done1 := done + [Deliver(txn, tsMs)];
            && Events(done1) == Events(done) + [Event(txn.user, txn.amount, tsMs)]
            && Amounts(done1, user) == Amounts(done, user) + if txn.user == user then [txn.amount] else []
  {
    assert (done + [Deliver(txn, tsMs)])[..|done|] == done;
  }

  /** The location after one more delivery: a later or equally late one replaces it. */
  lemma LocationStep(done: seq<Input>, txn: Transaction, tsMs: int, user: Node, before: Option<LastLocation>)
    requires LocationIs(done, user, before)
    ensures LocationIs(done + [Deliver(txn, tsMs)], user,
                       if txn.user == user && (before.None? || tsMs >= before.value.tsMs) then
                         Some(LastLocation(txn.lat, txn.lon, tsMs))
                       else before)
  {
    var done1 := done + [Deliver(txn, tsMs)];
    if txn.user == user && (before.None? || tsMs >= before.value.tsMs) {
      assert IsLatest(done1, user, |done|);
    } else if before.Some? {
      var i: nat :| IsLatest(done, user, i) && before.value == LocationAt(done[i]);
      assert IsLatest(done1, user, i);
    }
  }

  lemma ProfileStep(done: seq<Input>, txn: Transaction, tsMs: int, user: Node)
    ensures ProfileOf(done + [Deliver(txn, tsMs)], user)
         == if txn.user != user then ProfileOf(done, user)
            else Some((if ProfileOf(done, user).None? then Welford.EMPTY else ProfileOf(done, user).value).Add(txn.amount))
  {
    DoneSnoc(done, txn, tsMs, user);
    var amounts := Amounts(done, user);
    assert amounts + [] == amounts;
    assert (amounts + [txn.amount])[..|amounts|] == amounts;
    assert amounts == [] ==> Welford.Of(amounts) == Welford.EMPTY;
  }

  function Lookup<V>(m: map<Node, V>, user: Node): Option<V> {
    if user in m then Some(m[user]) else None
  }

  ghost predicate UserStored(profiles: map<Node, Welford.Accumulator>, locations: map<Node, LastLocation>,
                             done: seq<Input>, user: Node) {
    Lookup(profiles, user) == ProfileOf(done, user) && LocationIs(done, user, Lookup(locations, user))
  }

  ghost predicate Stored(profiles: map<Node, Welford.Accumulator>, locations: map<Node, LastLocation>, done: seq<Input>) {
    forall user {:trigger UserStored(profiles, locations, done, user)} :: UserStored(profiles, locations, done, user)
  }

  /** The user's stores after a transaction, from what the enrich stage read before it. */
  lemma StoredStep(profiles: map<Node, Welford.Accumulator>, locations: map<Node, LastLocation>, done: seq<Input>,
                   txn: Transaction, tsMs: int, profile: Welford.Accumulator, location: LastLocation)
    requires Stored(profiles, locations, done)
    requires ProfileOf(done + [Deliver(txn, tsMs)], txn.user) == Some(profile)
    requires LocationIs(done + [Deliver(txn, tsMs)], txn.user, Some(location))
    ensures Stored(profiles[txn.user := profile], locations[txn.user := location], done + [Deliver(txn, tsMs)])
  {
    hide ProfileOf, LocationIs;
    var profiles1, locations1, done1 := profiles[txn.user := profile], locations[txn.user := location], done + [Deliver(txn, tsMs)];
    forall user {:trigger UserStored(profiles1, locations1, done1, user)} ensures UserStored(profiles1, locations1, done1, user) {
      assert UserStored(profiles, locations, done, user);
      if user != txn.user {
        ProfileStep(done, txn, tsMs, user);
        LocationStep(done, txn, tsMs, user, Lookup(locations, user));
      }
    }
  }

  /** The counts read after recording: the transaction counts against itself, and the windows nest. */
  lemma CountsNest(log: seq<Event>, user: Node, amount: real, tsMs: int)
    ensures var log1 := log + [Event(user, amount, tsMs)];
            1 <= Total(log1, user, 1_000, tsMs - 60_000 + 1, tsMs + 1).count
              <= Total(log1, user, 5_000, tsMs - 300_000 + 1, tsMs + 1).count
              <= Total(log1, user, 60_000, tsMs - 3_600_000 + 1, tsMs + 1).count
  {
    CurrentEventCounts(log, user, amount, 60_000, 1_000, tsMs);
    WindowsNest(log + [Event(user, amount, tsMs)], user, tsMs);
  }

  /** The windows as read after recording: each the fold over all deliveries, the current one included. */
  ghost predicate ShowsWindows(ctx: CheckContext, done: seq<Input>, txn: Transaction, tsMs: int) {
    && ctx.in1m == Total(Events(done), txn.user, 1_000, tsMs - 60_000 + 1, tsMs + 1)
    && ctx.in5m == Total(Events(done), txn.user, 5_000, tsMs - 300_000 + 1, tsMs + 1)
    && ctx.in1h == Total(Events(done), txn.user, 60_000, tsMs - 3_600_000 + 1, tsMs + 1)
    && 1 <= ctx.in1m.count <= ctx.in5m.count <= ctx.in1h.count
  }

  /** The graph as seen after the transaction: a transfer's own view, in time order from the log; else no cycle and no pass-through. */
  ghost predicate ShowsGraph(view: GraphView, cfg: Config, before: seq<Input>, current: Input) {
    && |Elements(view.cycle)| <= view.componentSize
    && (!IsTransfer(current) ==> view.cycle == [] && view.passThrough == NO_PASS_THROUGH)
    && (IsTransfer(current) && InOrder(before + [current]) ==>
          view == LogView(cfg, LogOf(cfg, before), current.txn.user, current.txn.counterparty.value, current.txn.amount,
                          current.tsMs))
  }

  /** What the checks see: windows and graph with the transaction in them, profile and location without it. */
  ghost predicate Shows(ctx: CheckContext, cfg: Config, before: seq<Input>, txn: Transaction, tsMs: int) {
    && ShowsWindows(ctx, before + [Deliver(txn, tsMs)], txn, tsMs)
    && ShowsGraph(ctx.view, cfg, before, Deliver(txn, tsMs))
    && ctx.priorProfile == ProfileOf(before, txn.user) && LocationIs(before, txn.user, ctx.lastLocation)
  }

  class CheckProcessor {
    const w1m: VelocityWindows
    const w5m: VelocityWindows
    const w1h: VelocityWindows
    const graph: TransactionGraph
    const merchantRiskTiers: map<int, nat>
    const settings: Settings
    var profiles: map<Node, Welford.Accumulator>
    var locations: map<Node, LastLocation>
    ghost var done: seq<Input>

    ghost predicate WindowValid(w: VelocityWindows, windowMs: int)
      reads this`done, w
    {
      w.Valid() && w.windowMs == windowMs && w.log == Events(done)
    }

    ghost predicate WindowsValid()
      reads this`done, w1m, w5m, w1h
    {
      && w1m != w5m && w5m != w1h && w1m != w1h
      && WindowValid(w1m, 60_000) && WindowValid(w5m, 300_000) && WindowValid(w1h, 3_600_000)
    }

    ghost predicate Valid()
      reads this, w1m, w5m, w1h, graph, graph.store, graph.components
    {
      && WindowsValid() && graph.Valid() && Stored(profiles, locations, done)
      && Follows(graph.cfg, graph.log, graph.times, graph.inOrder, done)
    }

    constructor (cfg: Config, merchantRiskTiers: map<int, nat>, settings: Settings)
      ensures Valid() && done == [] && graph.cfg == cfg
      ensures this.merchantRiskTiers == merchantRiskTiers && this.settings == settings
      ensures fresh(w1m) && fresh(w5m) && fresh(w1h) && fresh(graph) && fresh(graph.store) && fresh(graph.components)
    {
      w1m := new VelocityWindows(60_000);
      w5m := new VelocityWindows(300_000);
      w1h := new VelocityWindows(3_600_000);
      graph := new TransactionGraph(cfg);
      this.merchantRiskTiers, this.settings := merchantRiskTiers, settings;
      profiles, locations, done := map[], map[], [];
      new;
      forall user {:trigger UserStored(profiles, locations, done, user)} ensures UserStored(profiles, locations, done, user) {
      }
    }

    /**
     The enrich stage: the risk tier of the merchant's category, 0 for an unknown one, and the stored profile and
     location of the user, before this transaction is in them.
     */
    method Enrich(txn: Transaction) returns (tier: nat, prior: Option<Welford.Accumulator>, last: Option<LastLocation>)
      requires Valid()
      ensures txn.merchantCategory in merchantRiskTiers ==> tier == merchantRiskTiers[txn.merchantCategory]
      ensures txn.merchantCategory !in merchantRiskTiers ==> tier == 0
      ensures prior == ProfileOf(done, txn.user) && LocationIs(done, txn.user, last)
    {
      tier := if txn.merchantCategory in merchantRiskTiers then merchantRiskTiers[txn.merchantCategory] else 0;
      prior, last := Lookup(profiles, txn.user), Lookup(locations, txn.user);
      assert UserStored(profiles, locations, done, txn.user);
    }

    /** Velocity: writes the transaction into the three windows, then reads them. */
    method Velocity(txn: Transaction, tsMs: int) returns (in1m: WindowAggregate, in5m: WindowAggregate, in1h: WindowAggregate)
      requires WindowsValid()
      modifies w1m, w5m, w1h, this`done
      ensures WindowsValid() && done == old(done) + [Deliver(txn, tsMs)]
      ensures in1m == Total(Events(done), txn.user, 1_000, tsMs - 60_000 + 1, tsMs + 1)
      ensures in5m == Total(Events(done), txn.user, 5_000, tsMs - 300_000 + 1, tsMs + 1)
      ensures in1h == Total(Events(done), txn.user, 60_000, tsMs - 3_600_000 + 1, tsMs + 1)
      ensures 1 <= in1m.count <= in5m.count <= in1h.count
    {
      hide Total, Holds, Amounts, AmountsIn, Welford.Sum;
      DoneSnoc(done, txn, tsMs, txn.user);
      CountsNest(Events(done), txn.user, txn.amount, tsMs);
      w1m.Record(txn.user, txn.amount, tsMs);
      w5m.Record(txn.user, txn.amount, tsMs);
      w1h.Record(txn.user, txn.amount, tsMs);
      done := done + [Deliver(txn, tsMs)];
      in1m := w1m.Aggregate(txn.user, tsMs);
      in5m := w5m.Aggregate(txn.user, tsMs);
      in1h := w1h.Aggregate(txn.user, tsMs);
    }

    /** Graph: a transfer adds its edge, anything else only reads. */
    method Graph(txn: Transaction, tsMs: int, ghost before: seq<Input>) returns (view: GraphView)
      requires graph.Valid() && Follows(graph.cfg, graph.log, graph.times, graph.inOrder, before)
      modifies graph, graph.store, graph.components
      ensures graph.Valid() && Follows(graph.cfg, graph.log, graph.times, graph.inOrder, before + [Deliver(txn, tsMs)])
      ensures ShowsGraph(view, graph.cfg, before, Deliver(txn, tsMs))
      ensures !IsTransfer(Deliver(txn, tsMs)) ==>
                view == IdleView(graph.cfg, old(graph.store.adjacency), graph.log, Some(txn.user), tsMs)
      ensures ViewFits(view, graph.cfg, LiveLinks(graph.store.adjacency, tsMs - graph.cfg.edgeTtlMs), Deliver(txn, tsMs),
                       graph.log, graph.inOrder)
      ensures IsTransfer(Deliver(txn, tsMs)) && InOrder(before + [Deliver(txn, tsMs)]) ==>
                LiveLinks(graph.store.adjacency, tsMs - graph.cfg.edgeTtlMs) == LogLinks(graph.cfg, graph.log, tsMs)
    {
      hide LogView, LogOf, IdleView, InOrder, Times, NotBefore, FindCycle, LiveLinks, Elements, Recorded, RecordedInOrder,
           LogPassThrough, LogLinks, Witnessed, Component, Pairs, Next, Traced, RecentIn, NamesLogged, ArrivalsAfter;
      if txn.counterparty.Some? {
        view := graph.AddEdge(Some(txn.user), txn.counterparty, txn.amount, tsMs);
      } else {
        view := graph.View(Some(txn.user), tsMs);
      }
      LogIsWitnessed(graph);
      if txn.counterparty.Some? && txn.counterparty.value != txn.user {
        assert graph.log[..|graph.log| - 1] == old(graph.log);
      }
      OrderStep(before, txn, tsMs);
      LogOfSnoc(graph.cfg, before, Deliver(txn, tsMs));
      if !IsTransfer(Deliver(txn, tsMs)) {
        IdleViewFacts(graph.cfg, old(graph.store.adjacency), graph.log, txn.user, tsMs);
      } else if graph.inOrder {
        LogViewFacts(graph.cfg, LogOf(graph.cfg, before), txn.user, txn.counterparty.value, txn.amount, tsMs);
      }
    }

    /** The transaction joins the user's profile, and its place the last location unless that is of a later time. */
    method Remember(txn: Transaction, tsMs: int, prior: Option<Welford.Accumulator>, last: Option<LastLocation>,
                    ghost before: seq<Input>)
      requires Stored(profiles, locations, before) && prior == ProfileOf(before, txn.user) && LocationIs(before, txn.user, last)
      modifies this`profiles, this`locations
      ensures Stored(profiles, locations, before + [Deliver(txn, tsMs)])
    {
      hide Stored, ProfileOf, LocationIs, Welford.Of;
      StoredNext(profiles, locations, before, txn, tsMs, prior, last);
      profiles := profiles[txn.user := (if prior.None? then Welford.EMPTY else prior.value).Add(txn.amount)];
      if last.None? || tsMs >= last.value.tsMs {
        locations := locations[txn.user := LastLocation(txn.lat, txn.lon, tsMs)];
      }
    }

    /**
     The check stage: the context shows the windows and the graph with this transaction in them, the profile and the
     location without it, and only then does this transaction join the latter two. The graph check's signals mean what
     `SignalsMean` says, in time order over the links of the transfers delivered so far.
     */
    method Check(txn: Transaction, tsMs: int, prior: Option<Welford.Accumulator>, last: Option<LastLocation>)
      returns (ctx: CheckContext, signals: seq<Signal>, ghost c: seq<nat>)
      requires Valid() && prior == ProfileOf(done, txn.user) && LocationIs(done, txn.user, last)
      modifies this, w1m, w5m, w1h, graph, graph.store, graph.components
      ensures Valid() && done == old(done) + [Deliver(txn, tsMs)]
      ensures Shows(ctx, graph.cfg, old(done), txn, tsMs)
      ensures ViewFits(ctx.view, graph.cfg, LiveLinks(graph.store.adjacency, tsMs - graph.cfg.edgeTtlMs), Deliver(txn, tsMs),
                       graph.log, InOrder(done))
      ensures SignalsFit(settings, graph.cfg, signals, ctx.view, LiveLinks(graph.store.adjacency, tsMs - graph.cfg.edgeTtlMs),
                         Deliver(txn, tsMs), graph.log, c)
      ensures IsTransfer(Deliver(txn, tsMs)) && InOrder(done) ==>
                && graph.log == LogOf(graph.cfg, done)
                && LiveLinks(graph.store.adjacency, tsMs - graph.cfg.edgeTtlMs) == LogLinks(graph.cfg, graph.log, tsMs)
    {
      hide Stored, ProfileOf, LocationIs, Total, ShowsGraph, FindCycle, LiveLinks, IdleView, Events, Welford.Of, SignalsFit,
           LogOf, LogLinks, InOrder, Times, IsTransfer, ViewFits;
      var in1m, in5m, in1h := Velocity(txn, tsMs);
      var view := Graph(txn, tsMs, old(done));
      ctx := CheckContext(in1m, in5m, in1h, prior, last, view);
      signals, c := GraphSignals(settings, graph.cfg, txn, tsMs, view,
                                 LiveLinks(graph.store.adjacency, tsMs - graph.cfg.edgeTtlMs), graph.log, graph.inOrder);
      Remember(txn, tsMs, prior, last, old(done));
    }
  }

  /**
   What the graph check's signals mean for a transaction. One that is no transfer gives no ring signal, and a pass-through
   signal only if the minimum depth is no minimum at all.
   */
  ghost predicate SignalsFit(settings: Settings, cfg: Config, signals: seq<Signal>, view: GraphView, g: Links, input: Input,
                             log: seq<Transfer>, c: seq<nat>)
  {
    if IsTransfer(input) then
      SignalsMean(settings, cfg, signals, view, input.txn.amount, g, input.txn.user, input.txn.counterparty.value, log, c)
    else
      && input.Deliver? && SignalsAre(settings, signals, view, input.txn.amount, input.txn.counterparty)
      && !SuspectsRing(signals) && (SeesPassThrough(signals) <==> settings.passThroughMinDepth <= 0)
  }

  /**
   The view is the one right after the transaction was added to the graph with these links and this log: live links and
   component of the user, for a transfer the cycle it closes and the logged arrival it forwards, which in time order is
   the right one of the recent arrivals, and for anything else neither.
   */
  ghost predicate ViewFits(view: GraphView, cfg: Config, g: Links, input: Input, log: seq<Transfer>, inOrder: bool) {
    && input.Deliver? && Witnessed(cfg, log)
    && view.outDegree == |Next(g, input.txn.user)| && view.componentSize == |Component(Pairs(log), input.txn.user)|
    && if IsTransfer(input) then
         && ViewOf(view, g, input.txn.user, input.txn.counterparty.value, cfg.maxCycleDepth)
         && log != [] && EndsIn(cfg, log[..|log| - 1], log[|log| - 1], input, view.passThrough, inOrder)
       else
         view.cycle == [] && view.passThrough == PassThrough(None, 0.0, 0.0, -1, 0)
  }

  /** The log grew by this transfer, with the depth the view shows; what it forwards is logged, in time order the right one. */
  ghost predicate EndsIn(cfg: Config, before: seq<Transfer>, t: Transfer, input: Input, pt: PassThrough, inOrder: bool)
    requires IsTransfer(input)
  {
    var user, amount, tsMs := input.txn.user, input.txn.amount, input.tsMs;
    && t == Transfer(user, input.txn.counterparty.value, amount, tsMs, pt.chainDepth)
    && (pt.inboundFrom.Some? ==> exists j: nat {:trigger NamesLogged(cfg, before, user, amount, tsMs, pt, j)} ::
                                   NamesLogged(cfg, before, user, amount, tsMs, pt, j))
    && (inOrder ==> Traced(cfg, RecentIn(cfg, before, user), amount, tsMs, pt))
  }

  method GraphSignals(settings: Settings, cfg: Config, txn: Transaction, tsMs: int, view: GraphView, ghost g: Links,
                      ghost log: seq<Transfer>, ghost inOrder: bool)
    returns (signals: seq<Signal>, ghost c: seq<nat>)
    requires ViewFits(view, cfg, g, Deliver(txn, tsMs), log, inOrder)
    ensures SignalsFit(settings, cfg, signals, view, g, Deliver(txn, tsMs), log, c)
  {
    hide Witnessed, ViewOf, SignalsMean, SuspectsRing, SeesPassThrough, SignalsAre, Traced, NamesLogged, RecentIn;
    c := [];
    if IsTransfer(Deliver(txn, tsMs)) {
      signals, c := EvaluateTransfer(settings, cfg, view, txn.amount, g, txn.user, txn.counterparty.value, log);
    } else {
      signals := Evaluate(settings, Some(view), txn.amount, txn.counterparty);
    }
  }

  lemma LogIsWitnessed(graph: TransactionGraph)
    requires graph.Valid()
    ensures Witnessed(graph.cfg, graph.log)
  {
    hide Witnessed;
  }

  lemma IdleViewFacts(cfg: Config, adj: Adjacency, log: seq<Transfer>, node: Node, tsMs: int)
    ensures var view := IdleView(cfg, adj, log, Some(node), tsMs);
            view.cycle == [] && view.passThrough == NO_PASS_THROUGH && |Elements(view.cycle)| == 0
  {
  }

  lemma LogViewFacts(cfg: Config, log: seq<Transfer>, src: Node, dst: Node, amount: real, tsMs: int)
    ensures LogView(cfg, log, src, dst, amount, tsMs).passThrough == LogPassThrough(cfg, log, src, amount, tsMs)
  {
  }

  lemma StoredNext(profiles: map<Node, Welford.Accumulator>, locations: map<Node, LastLocation>, done: seq<Input>,
                   txn: Transaction, tsMs: int, prior: Option<Welford.Accumulator>, last: Option<LastLocation>)
    requires Stored(profiles, locations, done)
    requires prior == ProfileOf(done, txn.user) && LocationIs(done, txn.user, last)
    ensures var profile := (if prior.None? then Welford.EMPTY else prior.value).Add(txn.amount);
            var locations1 := if last.None? || tsMs >= last.value.tsMs then
                                locations[txn.user := LastLocation(txn.lat, txn.lon, tsMs)] else locations;
            Stored(profiles[txn.user := profile], locations1, done + [Deliver(txn, tsMs)])
  {
    hide ProfileOf, LocationIs, Stored;
    ProfileStep(done, txn, tsMs, txn.user);
    LocationStep(done, txn, tsMs, txn.user, last);
    var profile := (if prior.None? then Welford.EMPTY else prior.value).Add(txn.amount);
    var location := if last.None? || tsMs >= last.value.tsMs then LastLocation(txn.lat, txn.lon, tsMs) else last.value;
    StoredStep(profiles, locations, done, txn, tsMs, profile, location);
    if !(last.None? || tsMs >= last.value.tsMs) {
      assert UserStored(profiles, locations, done, txn.user) by {
        StoredAt(profiles, locations, done, txn.user);
      }
      LocationIsUnique(done, txn.user, Lookup(locations, txn.user), last);
      assert locations[txn.user := last.value] == locations;
    }
  }

  lemma StoredAt(profiles: map<Node, Welford.Accumulator>, locations: map<Node, LastLocation>, done: seq<Input>, user: Node)
    requires Stored(profiles, locations, done)
    ensures UserStored(profiles, locations, done, user)
  {
  }

  // ---------- the stages together ----------

  /** A user's stored profile is exactly the statistics of the amounts it was built from. */
  lemma ProfileIsExact(done: seq<Input>, user: Node)
    ensures var amounts := Amounts(done, user);
            match ProfileOf(done, user)
            case None => amounts == []
            case Some(a) =>
              && amounts != [] && a.n == |amounts| && a.mean == Welford.Sum(amounts) / |amounts| as real
              && a.m2 == Welford.Deviations(amounts, a.mean)
  {
    hide Amounts, Welford.Of, Welford.Sum, Welford.Deviations;
    Welford.AccumulatorIsExact(Amounts(done, user));
  }

  class Pipeline {
    const dedup: DedupProcessor
    const checks: CheckProcessor

    ghost predicate Valid()
      reads this, dedup, checks, checks.w1m, checks.w5m, checks.w1h
      reads checks.graph, checks.graph.store, checks.graph.components
    {
      dedup.Valid() && checks.Valid() && checks.done == Forwarded(dedup.ttlMs, dedup.inputs)
    }

    constructor (ttlMs: int, cfg: Config, merchantRiskTiers: map<int, nat>, settings: Settings)
      ensures Valid() && checks.settings == settings && dedup.ttlMs == ttlMs && dedup.inputs == [] && checks.graph.cfg == cfg
    {
      dedup := new DedupProcessor(ttlMs);
      checks := new CheckProcessor(cfg, merchantRiskTiers, settings);
    }

    /**
     One record through the stages. While redeliveries come before their entry is evicted, what the check stage has
     processed is exactly the first delivery of each id, and in time order the graph signals are about the transfers
     among them.
     */
    method Process(txn: Transaction, tsMs: int)
      returns (ctx: Option<CheckContext>, signals: seq<Signal>, ghost c: seq<nat>)
      requires Valid()
      modifies dedup, checks, checks.w1m, checks.w5m, checks.w1h
      modifies checks.graph, checks.graph.store, checks.graph.components
      ensures Valid() && dedup.inputs == old(dedup.inputs) + [Deliver(txn, tsMs)]
      ensures checks.done == old(checks.done) + if ctx.Some? then [Deliver(txn, tsMs)] else []
      ensures Prompt(dedup.ttlMs, dedup.inputs) ==> checks.done == Firsts(dedup.inputs)
      ensures ctx.Some? ==> Shows(ctx.value, checks.graph.cfg, old(checks.done), txn, tsMs)
      ensures var cfg, links := checks.graph.cfg, LiveLinks(checks.graph.store.adjacency, tsMs - checks.graph.cfg.edgeTtlMs);
              && (ctx.None? ==> signals == [])
              && (ctx.Some? ==>
                    && ViewFits(ctx.value.view, cfg, links, Deliver(txn, tsMs), checks.graph.log, InOrder(checks.done))
                    && SignalsFit(checks.settings, cfg, signals, ctx.value.view, links, Deliver(txn, tsMs), checks.graph.log, c))
              && (ctx.Some? && IsTransfer(Deliver(txn, tsMs)) && InOrder(checks.done) ==>
                    checks.graph.log == LogOf(cfg, checks.done) && links == LogLinks(cfg, checks.graph.log, tsMs))
    {
      hide Forwarded, Firsts, Prompt, StoreAfter, ProfileOf, LocationIs, Stored, Follows, Shows, SignalsFit, ViewFits, LiveLinks,
           LogLinks, LogOf, InOrder, IsTransfer;
      ctx, signals, c := None, [], [];
      var forwarded := dedup.Process(txn, tsMs);
      if forwarded {
        var tier, prior, last := checks.Enrich(txn);
        var context;
        context, signals, c := checks.Check(txn, tsMs, prior, last);
        ctx := Some(context);
      }
      ForwardsFirstsIff(dedup.ttlMs, dedup.inputs);
    }

    /** The punctuator only touches the deduplication store. */
    method Punctuate(streamTimeMs: int)
      requires Valid()
      modifies dedup
      ensures Valid() && dedup.inputs == old(dedup.inputs) + [Input.Punctuate(streamTimeMs)]
    {
      hide Forwarded, StoreAfter;
      dedup.Evict(streamTimeMs);
    }
  }
}

/**
 Pass-through depth against the log. Every stored depth is witnessed by earlier transfers, whatever the order of
 times; and while time does not go back, the depth is a function of the log alone.
 */
module PassThroughChains {
  import opened Accounts
  import opened Collections
  import opened LazyDeques
  import opened History

  // ---------- the scan over the arrivals ----------

  /** Arrival `k` is `i`, eligible, and the last one that is. */
  ghost predicate LastAt(cfg: Config, arrivals: seq<Inbound>, amount: real, tsMs: int, inBand: bool, i: Inbound, k: nat) {
    && k < |arrivals| && arrivals[k] == i && Eligible(cfg, amount, tsMs, inBand, i)
    && forall m :: k < m < |arrivals| ==> !Eligible(cfg, amount, tsMs, inBand, arrivals[m])
  }

  ghost predicate NoneEligible(cfg: Config, arrivals: seq<Inbound>, amount: real, tsMs: int, inBand: bool) {
    forall m :: 0 <= m < |arrivals| ==> !Eligible(cfg, amount, tsMs, inBand, arrivals[m])
  }

  lemma SkipLast(cfg: Config, front: seq<Inbound>, last: Inbound, amount: real, tsMs: int, inBand: bool)
    requires !Eligible(cfg, amount, tsMs, inBand, last)
    ensures LastEligible(cfg, front + [last], amount, tsMs, inBand) == LastEligible(cfg, front, amount, tsMs, inBand)
    ensures NoneEligible(cfg, front, amount, tsMs, inBand) ==> NoneEligible(cfg, front + [last], amount, tsMs, inBand)
    ensures forall i, k: nat {:trigger LastAt(cfg, front, amount, tsMs, inBand, i, k)} ::
              LastAt(cfg, front, amount, tsMs, inBand, i, k) ==> LastAt(cfg, front + [last], amount, tsMs, inBand, i, k)
  {
    hide Eligible;
    assert (front + [last])[..|front|] == front;
  }

  /** `LastEligible` is the last eligible arrival, at position `k`, or says there is none. */
  lemma {:induction false} LastEligibleIsLast(cfg: Config, arrivals: seq<Inbound>, amount: real, tsMs: int, inBand: bool)
    returns (k: nat)
    ensures match LastEligible(cfg, arrivals, amount, tsMs, inBand)
            case Some(i) => LastAt(cfg, arrivals, amount, tsMs, inBand, i, k)
            case None => NoneEligible(cfg, arrivals, amount, tsMs, inBand)
  {
    hide Eligible;
    k := 0;
    if arrivals != [] {
      var front, last := arrivals[..|arrivals| - 1], arrivals[|arrivals| - 1];
      if Eligible(cfg, amount, tsMs, inBand, last) {
        k := |front|;
      } else {
        hide LastEligible, NoneEligible, LastAt;
        k := LastEligibleIsLast(cfg, front, amount, tsMs, inBand);
        assert arrivals == front + [last];
        SkipLast(cfg, front, last, amount, tsMs, inBand);
      }
    }
  }

  lemma {:induction false} FreshIsFilter(arrivals: seq<Inbound>, cutoff: int, i: Inbound)
    ensures i in Fresh(arrivals, cutoff) <==> i in arrivals && i.tsMs >= cutoff
  {
    if arrivals != [] {
      FreshIsFilter(arrivals[..|arrivals| - 1], cutoff, i);
      assert arrivals == arrivals[..|arrivals| - 1] + [arrivals[|arrivals| - 1]];
    }
  }

  lemma {:induction false} FreshAppend(a: seq<Inbound>, b: seq<Inbound>, cutoff: int)
    ensures Fresh(a + b, cutoff) == Fresh(a, cutoff) + Fresh(b, cutoff)
  {
    if b == [] {
      assert a + b == a;
    } else {
      assert (a + b)[..|a + b| - 1] == a + b[..|b| - 1];
      FreshAppend(a, b[..|b| - 1], cutoff);
    }
  }

  lemma FreshOfOld(arrivals: seq<Inbound>, cutoff: int)
    requires forall i :: i in arrivals ==> i.tsMs < cutoff
    ensures Fresh(arrivals, cutoff) == []
  {
    if Fresh(arrivals, cutoff) != [] {
      FreshIsFilter(arrivals, cutoff, Fresh(arrivals, cutoff)[0]);
    }
  }

  ghost predicate ArrivalsInOrder(arrivals: seq<Inbound>) {
    forall a, b :: 0 <= a < b < |arrivals| ==> arrivals[a].tsMs <= arrivals[b].tsMs
  }

  /** In time order, forgetting what is before the cutoff drops a leading run. */
  lemma {:induction false} FreshCut(arrivals: seq<Inbound>, cutoff: int) returns (n: nat)
    requires ArrivalsInOrder(arrivals)
    ensures n <= |arrivals| && Fresh(arrivals, cutoff) == arrivals[n..]
    ensures forall k :: 0 <= k < n ==> arrivals[k].tsMs < cutoff
  {
    if arrivals == [] {
      n := 0;
    } else if arrivals[|arrivals| - 1].tsMs < cutoff {
      n := |arrivals|;
      forall i | i in arrivals ensures i.tsMs < cutoff {
        var k :| 0 <= k < |arrivals| && arrivals[k] == i;
      }
      FreshOfOld(arrivals, cutoff);
    } else {
      n := FreshCut(arrivals[..|arrivals| - 1], cutoff);
      assert arrivals[..|arrivals| - 1][n..] + [arrivals[|arrivals| - 1]] == arrivals[n..];
    }
  }

  // ---------- what the answer says of the arrival it is about ----------

  /** The arrival was stamped within the window before the transfer. */
  predicate InWindow(cfg: Config, i: Inbound, tsMs: int) {
    tsMs - cfg.windowMs <= i.tsMs <= tsMs
  }

  /** The transfer's amount is within the ratio band of the arrival's; an arrival of nothing has the ratio zero. */
  predicate MatchesAmount(cfg: Config, i: Inbound, amount: real) {
    if i.amount > 0.0 then cfg.minRatio * i.amount <= amount <= cfg.maxRatio * i.amount
    else cfg.minRatio <= 0.0 <= cfg.maxRatio
  }

  /** Sender and amount are the arrival's, the ratio is rounded to three decimals, and whole seconds passed since. */
  ghost predicate Names(pt: PassThrough, from: Node, received: real, receivedMs: int, amount: real, tsMs: int) {
    && pt.inboundFrom == Some(from) && pt.inboundAmount == received
    && (received > 0.0 ==> amount / received - 0.0005 <= pt.ratio <= amount / received + 0.0005)
    && (received <= 0.0 ==> pt.ratio == 0.0)
    && (pt.ratio * 1000.0).Floor as real == pt.ratio * 1000.0
    && pt.secsSinceInbound * 1000 <= tsMs - receivedMs < (pt.secsSinceInbound + 1) * 1000
  }

  /**
   The answer is about arrival `k`: the last in the window whose amount matches, one link further down its chain; or, if
   none matches, the last in the window, as context of depth zero.
   */
  ghost predicate TracedTo(cfg: Config, arrivals: seq<Inbound>, amount: real, tsMs: int, pt: PassThrough, k: nat) {
    && k < |arrivals| && InWindow(cfg, arrivals[k], tsMs)
    && Names(pt, arrivals[k].src, arrivals[k].amount, arrivals[k].tsMs, amount, tsMs)
    && if MatchesAmount(cfg, arrivals[k], amount) then
         && pt.chainDepth == (if arrivals[k].depth < 10 then arrivals[k].depth + 1 else 10)
         && forall m :: k < m < |arrivals| && InWindow(cfg, arrivals[m], tsMs) ==> !MatchesAmount(cfg, arrivals[m], amount)
       else
         && pt.chainDepth == 0
         && (forall m :: k < m < |arrivals| ==> !InWindow(cfg, arrivals[m], tsMs))
         && forall m :: 0 <= m < k && InWindow(cfg, arrivals[m], tsMs) ==> !MatchesAmount(cfg, arrivals[m], amount)
  }

  /** The answer is about one of the arrivals, or says there is nothing, and that exactly if none is in the window. */
  ghost predicate Traced(cfg: Config, arrivals: seq<Inbound>, amount: real, tsMs: int, pt: PassThrough) {
    if forall k :: 0 <= k < |arrivals| ==> !InWindow(cfg, arrivals[k], tsMs) then
      pt == PassThrough(None, 0.0, 0.0, -1, 0)
    else
      exists k: nat {:trigger TracedTo(cfg, arrivals, amount, tsMs, pt, k)} :: TracedTo(cfg, arrivals, amount, tsMs, pt, k)
  }

  lemma RatioMatches(cfg: Config, i: Inbound, amount: real)
    ensures InBand(cfg, amount, i) <==> MatchesAmount(cfg, i, amount)
  {
    if i.amount > 0.0 {
      var q := amount / i.amount;
      assert q * i.amount == amount;
      ScaleOrder(cfg.minRatio, q, i.amount);
      ScaleOrder(q, cfg.maxRatio, i.amount);
    }
  }

  lemma ScaleOrder(x: real, y: real, f: real)
    requires f > 0.0
    ensures x <= y <==> x * f <= y * f
  {
    if x <= y {
      assert (y - x) * f >= 0.0;
    } else {
      assert (x - y) * f > 0.0;
    }
  }

  lemma RoundedNearby(x: real)
    ensures x - 0.0005 <= Round3(x) <= x + 0.0005 && (Round3(x) * 1000.0).Floor as real == Round3(x) * 1000.0
  {
    assert Round3(x) * 1000.0 == (x * 1000.0 + 0.5).Floor as real;
  }

  lemma DescribeNames(cfg: Config, i: Inbound, amount: real, tsMs: int, depth: nat)
    requires i.tsMs <= tsMs
    ensures Names(Describe(cfg, i, amount, tsMs, depth), i.src, i.amount, i.tsMs, amount, tsMs)
    ensures Describe(cfg, i, amount, tsMs, depth).chainDepth == depth
  {
    hide Round3;
    RoundedNearby(Ratio(amount, i));
    assert i.amount <= 0.0 ==> Round3(0.0) == 0.0 by {
      NothingRounds();
    }
  }

  lemma NothingRounds()
    ensures Round3(0.0) == 0.0
  {
  }

  /** Arrival `k` is in the window and, if asked for, matches, and none later does. */
  ghost predicate LastUsable(cfg: Config, arrivals: seq<Inbound>, amount: real, tsMs: int, inBand: bool, k: nat) {
    && k < |arrivals| && InWindow(cfg, arrivals[k], tsMs) && (inBand ==> MatchesAmount(cfg, arrivals[k], amount))
    && forall m :: k < m < |arrivals| && InWindow(cfg, arrivals[m], tsMs) ==> inBand && !MatchesAmount(cfg, arrivals[m], amount)
  }

  ghost predicate NoneUsable(cfg: Config, arrivals: seq<Inbound>, amount: real, tsMs: int, inBand: bool) {
    forall m :: 0 <= m < |arrivals| && InWindow(cfg, arrivals[m], tsMs) ==> inBand && !MatchesAmount(cfg, arrivals[m], amount)
  }

  lemma FreshSnoc(front: seq<Inbound>, last: Inbound, cutoff: int)
    ensures Fresh(front + [last], cutoff) == if last.tsMs < cutoff then Fresh(front, cutoff) else Fresh(front, cutoff) + [last]
  {
    assert (front + [last])[..|front|] == front;
  }

  lemma EligibleSnoc(cfg: Config, front: seq<Inbound>, last: Inbound, amount: real, tsMs: int, inBand: bool)
    ensures LastEligible(cfg, front + [last], amount, tsMs, inBand)
         == if Eligible(cfg, amount, tsMs, inBand, last) then Some(last) else LastEligible(cfg, front, amount, tsMs, inBand)
  {
    hide Eligible;
    assert (front + [last])[..|front|] == front;
  }

  lemma {:induction false} LastOfFresh(cfg: Config, arrivals: seq<Inbound>, amount: real, tsMs: int, inBand: bool) returns (k: nat)
    ensures match LastEligible(cfg, Fresh(arrivals, tsMs - cfg.windowMs), amount, tsMs, inBand)
            case Some(i) => LastUsable(cfg, arrivals, amount, tsMs, inBand, k) && arrivals[k] == i
            case None => NoneUsable(cfg, arrivals, amount, tsMs, inBand)
  {
    hide MatchesAmount, InBand;
    k := 0;
    if arrivals != [] {
      hide Fresh, LastEligible;
      var front, last := arrivals[..|arrivals| - 1], arrivals[|arrivals| - 1];
      k := LastOfFresh(cfg, front, amount, tsMs, inBand);
      assert arrivals == front + [last];
      FreshSnoc(front, last, tsMs - cfg.windowMs);
      EligibleSnoc(cfg, Fresh(front, tsMs - cfg.windowMs), last, amount, tsMs, inBand);
      RatioMatches(cfg, last, amount);
      if InWindow(cfg, last, tsMs) && (inBand ==> MatchesAmount(cfg, last, amount)) {
        k := |front|;
      }
    }
  }

  /** What the graph answers is about the right arrival and says the right things of it. */
  lemma PassThroughIsTraced(cfg: Config, arrivals: seq<Inbound>, amount: real, tsMs: int)
    ensures Traced(cfg, arrivals, amount, tsMs,
                   PassThroughOf(cfg, Fresh(arrivals, tsMs - cfg.windowMs), amount, tsMs))
  {
    hide MatchesAmount, Names, Describe, Fresh, LastEligible;
    var pt := PassThroughOf(cfg, Fresh(arrivals, tsMs - cfg.windowMs), amount, tsMs);
    var k := LastOfFresh(cfg, arrivals, amount, tsMs, true);
    var l := LastOfFresh(cfg, arrivals, amount, tsMs, false);
    if LastEligible(cfg, Fresh(arrivals, tsMs - cfg.windowMs), amount, tsMs, true).Some? {
      DescribeNames(cfg, arrivals[k], amount, tsMs, Min(MAX_CHAIN_DEPTH, arrivals[k].depth + 1));
      assert TracedTo(cfg, arrivals, amount, tsMs, pt, k);
    } else if LastEligible(cfg, Fresh(arrivals, tsMs - cfg.windowMs), amount, tsMs, false).Some? {
      DescribeNames(cfg, arrivals[l], amount, tsMs, 0);
      assert TracedTo(cfg, arrivals, amount, tsMs, pt, l);
    }
  }

  // ---------- what the arrival deques hold ----------

  /** The deques after `src` forgot its arrivals from before the cutoff; an emptied one is removed. */
  function Forget(inbound: Arrivals, src: Node, cutoff: int): Arrivals {
    if src !in inbound then
      inbound
    else if Fresh(inbound[src], cutoff) == [] then
      inbound - {src}
    else
      inbound[src := Fresh(inbound[src], cutoff)]
  }

  lemma ForgetAt(inbound: Arrivals, src: Node, cutoff: int, n: Node)
    ensures ArrivalsAt(Forget(inbound, src, cutoff), n)
         == if n == src then Fresh(ArrivalsAt(inbound, n), cutoff) else ArrivalsAt(inbound, n)
  {
  }

  ghost predicate IsLogged(log: seq<Transfer>, n: Node, i: Inbound) {
    exists j :: 0 <= j < |log| && log[j].dst == n && InboundOf(log[j]) == i
  }

  /** Every arrival a node holds is some logged transfer into it. */
  ghost predicate LoggedAt(inbound: Arrivals, log: seq<Transfer>, n: Node) {
    forall i {:trigger IsLogged(log, n, i)} :: i in ArrivalsAt(inbound, n) ==> IsLogged(log, n, i)
  }

  ghost predicate ArrivalsLogged(inbound: Arrivals, log: seq<Transfer>) {
    forall n {:trigger LoggedAt(inbound, log, n)} :: LoggedAt(inbound, log, n)
  }

  lemma ForgetKeepsLogged(inbound: Arrivals, log: seq<Transfer>, src: Node, cutoff: int)
    requires ArrivalsLogged(inbound, log)
    ensures ArrivalsLogged(Forget(inbound, src, cutoff), log)
  {
    var after := Forget(inbound, src, cutoff);
    forall n {:trigger LoggedAt(after, log, n)} ensures LoggedAt(after, log, n) {
      assert LoggedAt(inbound, log, n);
      ForgetAt(inbound, src, cutoff, n);
      forall i {:trigger IsLogged(log, n, i)} | i in ArrivalsAt(after, n) ensures IsLogged(log, n, i) {
        FreshIsFilter(ArrivalsAt(inbound, n), cutoff, i);
      }
    }
  }

  lemma LoggedMonotone(log: seq<Transfer>, t: Transfer, n: Node, i: Inbound)
    requires IsLogged(log, n, i) || (n == t.dst && i == InboundOf(t))
    ensures IsLogged(log + [t], n, i)
  {
    if IsLogged(log, n, i) {
      var j :| 0 <= j < |log| && log[j].dst == n && InboundOf(log[j]) == i;
      assert (log + [t])[j] == log[j];
    } else {
      assert (log + [t])[|log|] == t;
    }
  }

  lemma RecordKeepsLogged(inbound: Arrivals, log: seq<Transfer>, t: Transfer, cap: nat, after: Arrivals)
    requires ArrivalsLogged(inbound, log)
    requires after == inbound[t.dst := LastN(ArrivalsAt(inbound, t.dst) + [InboundOf(t)], cap)]
    ensures ArrivalsLogged(after, log + [t])
  {
    var log' := log + [t];
    forall n {:trigger LoggedAt(after, log', n)} ensures LoggedAt(after, log', n) {
      assert LoggedAt(inbound, log, n);
      forall i {:trigger IsLogged(log', n, i)} | i in ArrivalsAt(after, n) ensures IsLogged(log', n, i) {
        assert i in ArrivalsAt(inbound, n) || (n == t.dst && i == InboundOf(t));
        LoggedMonotone(log, t, n, i);
      }
    }
  }

  // ---------- while time does not go back ----------

  function InboundTime(i: Inbound): int { i.tsMs }

  ghost predicate ArrivalsKeptAt(inbound: Arrivals, ideal: Arrivals, times: set<int>, span: int, n: Node) {
    Kept(InboundTime, ArrivalsAt(inbound, n), ArrivalsAt(ideal, n), times, span)
  }

  ghost predicate ArrivalsKept(inbound: Arrivals, ideal: Arrivals, times: set<int>, span: int) {
    forall n {:trigger ArrivalsKeptAt(inbound, ideal, times, span, n)} :: ArrivalsKeptAt(inbound, ideal, times, span, n)
  }

  lemma LaterCallKeeps(inbound: Arrivals, ideal: Arrivals, times: set<int>, span: int, nowMs: int, n: Node)
    requires ArrivalsKept(inbound, ideal, times, span)
    ensures ArrivalsKeptAt(inbound, ideal, times + {nowMs}, span, n)
  {
    var kept := ArrivalsAt(inbound, n);
    assert ArrivalsKeptAt(inbound, ideal, times, span, n);
    KeptAfterDrop(InboundTime, kept, ArrivalsAt(ideal, n), times, span, nowMs, 0);
    assert kept[0..] == kept;
  }

  lemma LaterCallKeepsAll(inbound: Arrivals, ideal: Arrivals, times: set<int>, span: int, nowMs: int)
    requires ArrivalsKept(inbound, ideal, times, span)
    ensures ArrivalsKept(inbound, ideal, times + {nowMs}, span)
  {
    var times' := times + {nowMs};
    forall n {:trigger ArrivalsKeptAt(inbound, ideal, times', span, n)} ensures ArrivalsKeptAt(inbound, ideal, times', span, n) {
      LaterCallKeeps(inbound, ideal, times, span, nowMs, n);
    }
  }

  lemma FreshKeeps(kept: seq<Inbound>, ideal: seq<Inbound>, times: set<int>, span: int, nowMs: int)
    requires Kept(InboundTime, kept, ideal, times, span) && ArrivalsInOrder(ideal)
    ensures Kept(InboundTime, Fresh(kept, nowMs - span), ideal, times + {nowMs}, span)
  {
    var gone := |ideal| - |kept|;
    forall a, b | 0 <= a < b < |kept| ensures kept[a].tsMs <= kept[b].tsMs {
      assert kept[a] == ideal[gone + a] && kept[b] == ideal[gone + b];
    }
    var cut := FreshCut(kept, nowMs - span);
    forall k | 0 <= k < cut ensures InboundTime(kept[k]) < nowMs - span {
      assert kept[k].tsMs < nowMs - span;
    }
    KeptAfterDrop(InboundTime, kept, ideal, times, span, nowMs, cut);
  }

  lemma ForgetKeepsArrivals(inbound: Arrivals, ideal: Arrivals, times: set<int>, span: int, nowMs: int, src: Node)
    requires ArrivalsKept(inbound, ideal, times, span) && ArrivalsInOrder(ArrivalsAt(ideal, src))
    ensures ArrivalsKept(Forget(inbound, src, nowMs - span), ideal, times + {nowMs}, span)
  {
    var after, times' := Forget(inbound, src, nowMs - span), times + {nowMs};
    forall n {:trigger ArrivalsKeptAt(after, ideal, times', span, n)} ensures ArrivalsKeptAt(after, ideal, times', span, n) {
      ForgetAt(inbound, src, nowMs - span, n);
      if n == src {
        assert ArrivalsKeptAt(inbound, ideal, times, span, n);
        FreshKeeps(ArrivalsAt(inbound, n), ArrivalsAt(ideal, n), times, span, nowMs);
      } else {
        LaterCallKeeps(inbound, ideal, times, span, nowMs, n);
        assert ArrivalsAt(after, n) == ArrivalsAt(inbound, n);
      }
    }
  }

  lemma RecordKeepsArrivals(inbound: Arrivals, ideal: Arrivals, times: set<int>, span: int, dst: Node, i: Inbound,
                            cap: nat, inbound': Arrivals, ideal': Arrivals)
    requires ArrivalsKept(inbound, ideal, times, span)
    requires inbound' == inbound[dst := LastN(ArrivalsAt(inbound, dst) + [i], cap)]
    requires ideal' == ideal[dst := LastN(ArrivalsAt(ideal, dst) + [i], cap)]
    ensures ArrivalsKept(inbound', ideal', times, span)
  {
    forall n {:trigger ArrivalsKeptAt(inbound', ideal', times, span, n)} ensures ArrivalsKeptAt(inbound', ideal', times, span, n) {
      assert ArrivalsKeptAt(inbound, ideal, times, span, n);
      if n == dst {
        KeptAfterAppend(InboundTime, ArrivalsAt(inbound, n), ArrivalsAt(ideal, n), i, times, span, cap);
      }
    }
  }

  lemma FreshReadsIdeal(kept: seq<Inbound>, ideal: seq<Inbound>, times: set<int>, span: int, nowMs: int)
    requires Kept(InboundTime, kept, ideal, times, span) && NotBefore(times, nowMs)
    ensures Fresh(kept, nowMs - span) == Fresh(ideal, nowMs - span)
  {
    var gone := MissingIsOld(InboundTime, kept, ideal, times, span, nowMs);
    FreshAppend(gone, kept, nowMs - span);
    forall i | i in gone ensures i.tsMs < nowMs - span {
      assert InboundTime(i) < nowMs - span;
    }
    FreshOfOld(gone, nowMs - span);
  }

  /** What a sender finds in its deque at a time no call is later than is what the log says arrived. */
  lemma FreshReadsLog(inbound: Arrivals, ideal: Arrivals, times: set<int>, span: int, nowMs: int, src: Node)
    requires ArrivalsKept(inbound, ideal, times, span) && NotBefore(times, nowMs)
    ensures Fresh(ArrivalsAt(inbound, src), nowMs - span) == Fresh(ArrivalsAt(ideal, src), nowMs - span)
  {
    assert ArrivalsKeptAt(inbound, ideal, times, span, src);
    FreshReadsIdeal(ArrivalsAt(inbound, src), ArrivalsAt(ideal, src), times, span, nowMs);
  }

  /** The last `maxEdgesPerNode` transfers into `n`, as it received them. */
  function RecentIn(cfg: Config, log: seq<Transfer>, n: Node): seq<Inbound> {
    LastN(InTo(log, n), cfg.maxEdgesPerNode)
  }

  lemma LogPassThroughIsTraced(cfg: Config, log: seq<Transfer>, src: Node, amount: real, tsMs: int)
    ensures Traced(cfg, RecentIn(cfg, log, src), amount, tsMs, LogPassThrough(cfg, log, src, amount, tsMs))
  {
    hide Traced, PassThroughOf, Fresh, LogArrivals, LastN, InTo;
    ArrivalsKeepRecent(cfg, log, src);
    PassThroughIsTraced(cfg, RecentIn(cfg, log, src), amount, tsMs);
  }

  /** The answer names logged transfer `j` into `src`, in the window, and counts at most one hop more than that has. */
  ghost predicate NamesLogged(cfg: Config, log: seq<Transfer>, src: Node, amount: real, tsMs: int, pt: PassThrough, j: nat) {
    && j < |log| && log[j].dst == src && tsMs - cfg.windowMs <= log[j].tsMs <= tsMs
    && Names(pt, log[j].src, log[j].amount, log[j].tsMs, amount, tsMs)
    && (pt.chainDepth == 0 || pt.chainDepth == if log[j].depth < 10 then log[j].depth + 1 else 10)
  }

  lemma TracedIsLogged(cfg: Config, inbound: Arrivals, log: seq<Transfer>, src: Node, amount: real, tsMs: int, pt: PassThrough)
    requires ArrivalsLogged(inbound, log) && Traced(cfg, ArrivalsAt(inbound, src), amount, tsMs, pt)
    ensures pt.inboundFrom.Some? ==> exists j: nat {:trigger NamesLogged(cfg, log, src, amount, tsMs, pt, j)} ::
                                       NamesLogged(cfg, log, src, amount, tsMs, pt, j)
  {
    hide Names, MatchesAmount;
    if pt.inboundFrom.Some? {
      var arrivals := ArrivalsAt(inbound, src);
      var k: nat :| TracedTo(cfg, arrivals, amount, tsMs, pt, k);
      assert LoggedAt(inbound, log, src) && IsLogged(log, src, arrivals[k]);
      var j :| 0 <= j < |log| && log[j].dst == src && InboundOf(log[j]) == arrivals[k];
      assert NamesLogged(cfg, log, src, amount, tsMs, pt, j);
    }
  }

  lemma LogArrivalsInOrder(cfg: Config, log: seq<Transfer>, n: Node)
    requires LogInOrder(log)
    ensures ArrivalsInOrder(ArrivalsAt(LogArrivals(cfg, log), n))
  {
    LogKeepsRecent(cfg, log, n);
    ProjectionsInOrder(log, n);
  }

  // ---------- chains ----------

  /** `b` forwards `a`: it leaves the account `a` arrived in, within the window, at an amount inside the band. */
  ghost predicate Feeds(cfg: Config, a: Transfer, b: Transfer) {
    && a.dst == b.src && b.tsMs - cfg.windowMs <= a.tsMs <= b.tsMs
    && InBand(cfg, b.amount, InboundOf(a))
  }

  /** The depth of transfer `k` is 0, or one more, up to the limit, than that of an earlier transfer it forwards. */
  ghost predicate WitnessedAt(cfg: Config, log: seq<Transfer>, k: nat) {
    && k < |log|
    && (log[k].depth == 0 ||
        exists j :: 0 <= j < k && Feeds(cfg, log[j], log[k]) && log[k].depth == Min(MAX_CHAIN_DEPTH, log[j].depth + 1))
  }

  ghost predicate Witnessed(cfg: Config, log: seq<Transfer>) {
    forall k {:trigger WitnessedAt(cfg, log, k)} :: 0 <= k < |log| ==> WitnessedAt(cfg, log, k)
  }

  /** Transfers at increasing positions in the log, each forwarding the one before. */
  ghost predicate Chain(cfg: Config, log: seq<Transfer>, c: seq<nat>) {
    && |c| > 0 && (forall i :: 0 <= i < |c| ==> c[i] < |log|)
    && (forall i :: 0 <= i < |c| - 1 ==> c[i] < c[i + 1] && Feeds(cfg, log[c[i]], log[c[i + 1]]))
  }

  lemma WitnessedSnoc(cfg: Config, log: seq<Transfer>, t: Transfer)
    requires Witnessed(cfg, log) && WitnessedAt(cfg, log + [t], |log|)
    ensures Witnessed(cfg, log + [t])
  {
    var log' := log + [t];
    forall k {:trigger WitnessedAt(cfg, log', k)} | 0 <= k < |log'| ensures WitnessedAt(cfg, log', k) {
      if k < |log| {
        assert WitnessedAt(cfg, log, k);
        if log[k].depth != 0 {
          var j :| 0 <= j < k && Feeds(cfg, log[j], log[k]) && log[k].depth == Min(MAX_CHAIN_DEPTH, log[j].depth + 1);
          assert log'[j] == log[j];
        }
      }
    }
  }

  /** The depth computed from logged arrivals is witnessed by one of them. */
  lemma PassThroughIsWitnessed(cfg: Config, inbound: Arrivals, log: seq<Transfer>, t: Transfer)
    requires ArrivalsLogged(inbound, log)
    requires t.depth == PassThroughOf(cfg, Fresh(ArrivalsAt(inbound, t.src), t.tsMs - cfg.windowMs), t.amount, t.tsMs).chainDepth
    ensures WitnessedAt(cfg, log + [t], |log|)
  {
    var recent := Fresh(ArrivalsAt(inbound, t.src), t.tsMs - cfg.windowMs);
    var k := LastEligibleIsLast(cfg, recent, t.amount, t.tsMs, true);
    var found := LastEligible(cfg, recent, t.amount, t.tsMs, true);
    if found.Some? {
      var m := found.value;
      assert recent[k] == m;
      FreshIsFilter(ArrivalsAt(inbound, t.src), t.tsMs - cfg.windowMs, m);
      assert LoggedAt(inbound, log, t.src) && IsLogged(log, t.src, m);
      var j :| 0 <= j < |log| && log[j].dst == t.src && InboundOf(log[j]) == m;
      assert (log + [t])[j] == log[j];
      assert Feeds(cfg, log[j], t);
    }
  }

  /** A transfer of depth d ends a chain of d earlier transfers, so d never overstates how far money was forwarded. */
  lemma {:induction false} WitnessChain(cfg: Config, log: seq<Transfer>, k: nat) returns (c: seq<nat>)
    requires Witnessed(cfg, log) && k < |log|
    ensures Chain(cfg, log, c) && c[|c| - 1] == k && |c| == log[k].depth + 1
    ensures log[k].depth <= MAX_CHAIN_DEPTH
  {
    assert WitnessedAt(cfg, log, k);
    if log[k].depth == 0 {
      c := [k];
    } else {
      var j :| 0 <= j < k && Feeds(cfg, log[j], log[k]) && log[k].depth == Min(MAX_CHAIN_DEPTH, log[j].depth + 1);
      var b := WitnessChain(cfg, log, j);
      var from := |b| - log[k].depth;
      c := b[from..] + [k];
      forall i | 0 <= i < |c| - 1 ensures c[i] < c[i + 1] && Feeds(cfg, log[c[i]], log[c[i + 1]]) {
        if i + 1 < |b| - from {
          assert b[from + i] < b[from + i + 1] && Feeds(cfg, log[b[from + i]], log[b[from + i + 1]]);
        }
      }
    }
  }

  function PowerOf(x: real, n: nat): real {
    if n == 0 then 1.0 else x * PowerOf(x, n - 1)
  }

  /** `amount` after `n` hops at ratio `x`. */
  function Scaled(x: real, n: nat, amount: real): real {
    if n == 0 then amount else x * Scaled(x, n - 1, amount)
  }

  lemma {:induction false} ScaledIsPower(x: real, n: nat, amount: real)
    ensures Scaled(x, n, amount) == PowerOf(x, n) * amount
  {
    if n > 0 {
      ScaledIsPower(x, n - 1, amount);
    }
  }

  /** The band leaves out a ratio of zero, which is what an arrival of no or negative amount is given. */
  predicate ZeroOutside(cfg: Config) {
    cfg.minRatio > 0.0 || cfg.maxRatio < 0.0
  }

  lemma RatioBounds(cfg: Config, a: Transfer, b: Transfer)
    requires Feeds(cfg, a, b) && ZeroOutside(cfg)
    ensures a.amount > 0.0 && cfg.minRatio * a.amount <= b.amount <= cfg.maxRatio * a.amount
    ensures cfg.maxRatio < 0.0 ==> b.amount < 0.0
  {
    var q := b.amount / a.amount;
    assert q * a.amount == b.amount;
    assert (q - cfg.minRatio) * a.amount >= 0.0;
    assert (cfg.maxRatio - q) * a.amount >= 0.0;
    if cfg.maxRatio < 0.0 {
      assert -cfg.maxRatio * a.amount > 0.0;
    }
  }

  lemma ScaleBounds(lo: real, x: real, hi: real, f: real, g: real, y: real)
    requires 0.0 < f <= g && 0.0 < lo <= x <= hi && f * x <= y <= g * x
    ensures 0.0 < f * lo <= y <= g * hi
  {
    assert f * (x - lo) >= 0.0;
    assert g * (hi - x) >= 0.0;
    assert f * lo > 0.0;
  }

  function Windows(n: nat, windowMs: int): int {
    if n == 0 then 0 else Windows(n - 1, windowMs) + windowMs
  }

  ghost predicate TimesApart(cfg: Config, a: Transfer, b: Transfer, d: nat) {
    a.tsMs <= b.tsMs <= a.tsMs + Windows(d, cfg.windowMs)
  }

  ghost predicate AmountsApart(cfg: Config, a: Transfer, b: Transfer, d: nat) {
    && Scaled(cfg.minRatio, d, a.amount) <= b.amount <= Scaled(cfg.maxRatio, d, a.amount)
    && (cfg.minRatio > 0.0 ==> 0.0 < Scaled(cfg.minRatio, d, a.amount))
    && (cfg.maxRatio < 0.0 ==> b.amount < 0.0)
  }

  lemma ScaledStep(x: real, n: nat, amount: real)
    ensures Scaled(x, n + 1, amount) == x * Scaled(x, n, amount)
  {
  }

  lemma OneMoreHop(cfg: Config, a: Transfer, x: Transfer, b: Transfer, d: nat)
    requires ZeroOutside(cfg) && Feeds(cfg, x, b)
    requires AmountsApart(cfg, a, x, d) || (d == 0 && a == x)
    ensures AmountsApart(cfg, a, b, d + 1)
  {
    hide Feeds, Scaled;
    if d == 0 {
      OneHop(cfg, a, x, b);
    } else {
      RatioBounds(cfg, x, b);
      assert cfg.minRatio > 0.0;
      ScaledStep(cfg.minRatio, d, a.amount);
      ScaledStep(cfg.maxRatio, d, a.amount);
      BandIsOrdered(cfg, x, b);
      ScaleBounds(Scaled(cfg.minRatio, d, a.amount), x.amount, Scaled(cfg.maxRatio, d, a.amount),
                  cfg.minRatio, cfg.maxRatio, b.amount);
    }
  }

  lemma BandIsOrdered(cfg: Config, a: Transfer, b: Transfer)
    requires Feeds(cfg, a, b)
    ensures cfg.minRatio <= cfg.maxRatio
  {
  }

  lemma OneHop(cfg: Config, a: Transfer, x: Transfer, b: Transfer)
    requires ZeroOutside(cfg) && Feeds(cfg, x, b)
    requires AmountsApart(cfg, a, x, 0) || a == x
    ensures AmountsApart(cfg, a, b, 1)
  {
    RatioBounds(cfg, x, b);
    assert a.amount == x.amount;
    assert Scaled(cfg.minRatio, 1, a.amount) == cfg.minRatio * a.amount;
    assert Scaled(cfg.maxRatio, 1, a.amount) == cfg.maxRatio * a.amount;
    if cfg.minRatio > 0.0 {
      assert cfg.minRatio * a.amount > 0.0;
    }
  }

  lemma ChainFront(cfg: Config, log: seq<Transfer>, c: seq<nat>)
    requires Chain(cfg, log, c) && |c| > 1
    ensures Chain(cfg, log, c[..|c| - 1]) && Feeds(cfg, log[c[|c| - 2]], log[c[|c| - 1]])
  {
    hide Feeds;
    var front := c[..|c| - 1];
    assert c[|c| - 2] < c[|c| - 2 + 1] && Feeds(cfg, log[c[|c| - 2]], log[c[|c| - 2 + 1]]);
    forall i | 0 <= i < |front| - 1
      ensures front[i] < front[i + 1] && Feeds(cfg, log[front[i]], log[front[i + 1]])
    {
      assert c[i] < c[i + 1] && Feeds(cfg, log[c[i]], log[c[i + 1]]);
    }
  }

  /** A chain of d hops spans no more than d windows. */
  lemma {:induction false} ChainTimes(cfg: Config, log: seq<Transfer>, c: seq<nat>)
    requires Chain(cfg, log, c)
    ensures TimesApart(cfg, log[c[0]], log[c[|c| - 1]], |c| - 1)
  {
    if |c| > 1 {
      ChainFront(cfg, log, c);
      ChainTimes(cfg, log, c[..|c| - 1]);
    }
  }

  /** Along a chain of d hops the amount stays between minRatio^d and maxRatio^d of what entered. */
  lemma {:induction false} ChainBounds(cfg: Config, log: seq<Transfer>, c: seq<nat>)
    requires Chain(cfg, log, c) && ZeroOutside(cfg) && |c| > 1
    ensures AmountsApart(cfg, log[c[0]], log[c[|c| - 1]], |c| - 1)
  {
    hide AmountsApart, Feeds;
    ChainFront(cfg, log, c);
    if |c| > 2 {
      ChainBounds(cfg, log, c[..|c| - 1]);
    }
    OneMoreHop(cfg, log[c[0]], log[c[|c| - 2]], log[c[|c| - 1]], |c| - 2);
  }

  lemma {:induction false} WindowsIsProduct(n: nat, windowMs: int)
    ensures Windows(n, windowMs) == n * windowMs
  {
    if n > 0 {
      WindowsIsProduct(n - 1, windowMs);
    }
  }

  /** The chain ends in transfer `k` and is as long as the depth stored with it. */
  ghost predicate Explains(cfg: Config, log: seq<Transfer>, k: nat, c: seq<nat>) {
    k < |log| && Chain(cfg, log, c) && c[|c| - 1] == k && |c| - 1 == log[k].depth
  }

  /** The amount of transfer `k` is within the powers of the ratio band of the amount of the chain's origin. */
  ghost predicate WithinPowers(cfg: Config, log: seq<Transfer>, k: nat, c: seq<nat>)
    requires Explains(cfg, log, k, c)
  {
    var origin, d := log[c[0]], log[k].depth;
    PowerOf(cfg.minRatio, d) * origin.amount <= log[k].amount <= PowerOf(cfg.maxRatio, d) * origin.amount
  }

  /**
   What a stored depth d > 0 means: some chain of d earlier transfers was forwarded hop by hop into this one, so its
   time, and its amount if the band leaves out zero, are bounded by those of the chain's origin.
   */
  lemma DepthIsHonest(cfg: Config, log: seq<Transfer>, k: nat) returns (c: seq<nat>)
    requires Witnessed(cfg, log) && k < |log| && log[k].depth > 0
    ensures log[k].depth <= MAX_CHAIN_DEPTH && Explains(cfg, log, k, c)
    ensures log[c[0]].tsMs <= log[k].tsMs <= log[c[0]].tsMs + log[k].depth * cfg.windowMs
    ensures ZeroOutside(cfg) ==> WithinPowers(cfg, log, k, c)
  {
    c := WitnessChain(cfg, log, k);
    ChainTimes(cfg, log, c);
    WindowsIsProduct(|c| - 1, cfg.windowMs);
    if ZeroOutside(cfg) {
      ChainBounds(cfg, log, c);
      ScaledIsPower(cfg.minRatio, |c| - 1, log[c[0]].amount);
      ScaledIsPower(cfg.maxRatio, |c| - 1, log[c[0]].amount);
    }
  }

  // ---------- depths in time order are a function of the log ----------

  ghost predicate ExactAt(cfg: Config, log: seq<Transfer>, k: nat) {
    && k < |log|
    && log[k].depth == LogPassThrough(cfg, log[..k], log[k].src, log[k].amount, log[k].tsMs).chainDepth
  }

  ghost predicate ExactDepths(cfg: Config, log: seq<Transfer>) {
    forall k {:trigger ExactAt(cfg, log, k)} :: 0 <= k < |log| ==> ExactAt(cfg, log, k)
  }

  lemma ExactSnoc(cfg: Config, log: seq<Transfer>, t: Transfer)
    requires ExactDepths(cfg, log)
    requires t.depth == LogPassThrough(cfg, log, t.src, t.amount, t.tsMs).chainDepth
    ensures ExactDepths(cfg, log + [t])
  {
    var log' := log + [t];
    forall k {:trigger ExactAt(cfg, log', k)} | 0 <= k < |log'| ensures ExactAt(cfg, log', k) {
      if k < |log| {
        assert ExactAt(cfg, log, k);
        assert log'[..k] == log[..k];
      } else {
        assert log'[..k] == log;
      }
    }
  }

  lemma {:induction false} ExactIsWitnessed(cfg: Config, log: seq<Transfer>, k: nat)
    requires ExactDepths(cfg, log) && k <= |log|
    ensures Witnessed(cfg, log[..k]) && ArrivalsLogged(LogArrivals(cfg, log[..k]), log[..k])
  {
    hide Witnessed, ArrivalsLogged, PassThroughOf, Fresh, LogPassThrough, LogArrivals, ArrivalsAt, LastN;
    if k == 0 {
      NothingLogged(cfg);
    } else {
      var front, t := log[..k - 1], log[k - 1];
      ExactIsWitnessed(cfg, log, k - 1);
      assert ExactAt(cfg, log, k - 1) && log[..k] == front + [t];
      LogPassThroughIs(cfg, front, t.src, t.amount, t.tsMs);
      LogSnoc(cfg, front, t);
      RecordKeepsLogged(LogArrivals(cfg, front), front, t, cfg.maxEdgesPerNode, LogArrivals(cfg, log[..k]));
      PassThroughIsWitnessed(cfg, LogArrivals(cfg, front), front, t);
      WitnessedSnoc(cfg, front, t);
    }
  }

  lemma NothingLogged(cfg: Config)
    ensures Witnessed(cfg, []) && ArrivalsLogged(LogArrivals(cfg, []), [])
  {
    forall n {:trigger LoggedAt(map[], [], n)} ensures LoggedAt(map[], [], n) {
    }
  }

  // ---------- when depths bound amounts ----------

  /** Some chain bounds the amount of transfer `k`. */
  ghost predicate AmountIsBounded(cfg: Config, log: seq<Transfer>, k: nat) {
    exists c {:trigger Explains(cfg, log, k, c)} :: Explains(cfg, log, k, c) && WithinPowers(cfg, log, k, c)
  }

  /** An account that received nothing forwards one: a zero inbound and a transfer it feeds. */
  function ZeroFeeds(): seq<Transfer> {
    [Transfer(1, 2, 0.0, 0, 0), Transfer(2, 3, 1.0, 0, 1)]
  }

  lemma ZeroIsUnbounded(cfg: Config)
    requires !ZeroOutside(cfg)
    ensures !AmountIsBounded(cfg, ZeroFeeds(), 1)
  {
    var log := ZeroFeeds();
    forall c | Explains(cfg, log, 1, c) ensures !WithinPowers(cfg, log, 1, c) {
      assert c[0] < c[0 + 1];
      assert PowerOf(cfg.maxRatio, 1) == cfg.maxRatio;
    }
  }

  lemma ZeroIsInBand(cfg: Config, amount: real, i: Inbound)
    requires !ZeroOutside(cfg) && i.amount == 0.0
    ensures InBand(cfg, amount, i)
  {
  }

  lemma OneArrivalForwarded(cfg: Config, i: Inbound, amount: real, tsMs: int)
    requires i.tsMs <= tsMs <= i.tsMs + cfg.windowMs && InBand(cfg, amount, i)
    ensures PassThroughOf(cfg, Fresh([i], tsMs - cfg.windowMs), amount, tsMs).chainDepth == Min(MAX_CHAIN_DEPTH, i.depth + 1)
  {
    hide InBand, Ratio;
    assert [i][..0] == [];
    assert Fresh([i], tsMs - cfg.windowMs) == [i];
  }

  lemma FirstArrival(cfg: Config, t: Transfer)
    requires cfg.maxEdgesPerNode >= 1
    ensures ArrivalsAt(LogArrivals(cfg, [t]), t.dst) == [InboundOf(t)]
  {
    LogSnoc(cfg, [], t);
    assert [] + [t] == [t];
  }

  lemma FirstDepth(cfg: Config, t: Transfer)
    requires t.depth == 0
    ensures ExactDepths(cfg, [t])
  {
    hide LogPassThrough;
    assert LogPassThrough(cfg, [], t.src, t.amount, t.tsMs) == NO_PASS_THROUGH by {
      NothingArrived(cfg, t.src, t.amount, t.tsMs);
    }
    assert [] + [t] == [t];
    ExactSnoc(cfg, [], t);
  }

  lemma NothingArrived(cfg: Config, src: Node, amount: real, tsMs: int)
    ensures LogPassThrough(cfg, [], src, amount, tsMs) == NO_PASS_THROUGH
  {
  }

  /** The two transfers get these depths in a graph that keeps arrivals and looks back at all. */
  lemma ZeroFeedsIsExact(cfg: Config)
    requires !ZeroOutside(cfg) && cfg.windowMs >= 0 && cfg.maxEdgesPerNode >= 1
    ensures ExactDepths(cfg, ZeroFeeds()) && LogInOrder(ZeroFeeds())
  {
    hide ExactDepths, LogArrivals, Fresh, PassThroughOf, InBand, ZeroOutside, LogPassThrough;
    var a, b := ZeroFeeds()[0], ZeroFeeds()[1];
    FirstDepth(cfg, a);
    FirstArrival(cfg, a);
    ZeroIsInBand(cfg, b.amount, InboundOf(a));
    OneArrivalForwarded(cfg, InboundOf(a), b.amount, b.tsMs);
    LogPassThroughIs(cfg, [a], b.src, b.amount, b.tsMs);
    ExactSnoc(cfg, [a], b);
    assert ZeroFeeds() == [a] + [b];
  }

  lemma LogPassThroughIs(cfg: Config, log: seq<Transfer>, src: Node, amount: real, tsMs: int)
    ensures LogPassThrough(cfg, log, src, amount, tsMs)
         == PassThroughOf(cfg, Fresh(ArrivalsAt(LogArrivals(cfg, log), src), tsMs - cfg.windowMs), amount, tsMs)
  {
    hide LogArrivals, Fresh, PassThroughOf;
  }

  /** Without a window to look back into, or a deque to keep arrivals in, no depth is positive. */
  lemma NothingForwarded(cfg: Config, log: seq<Transfer>, k: nat)
    requires ExactDepths(cfg, log) && k < |log|
    requires cfg.windowMs < 0 || cfg.maxEdgesPerNode == 0
    ensures log[k].depth == 0
  {
    var front, t := log[..k], log[k];
    assert ExactAt(cfg, log, k);
    ExactIsWitnessed(cfg, log, |log|);
    assert log[..|log|] == log && WitnessedAt(cfg, log, k);
    ArrivalsKeepRecent(cfg, front, t.src);
    assert cfg.maxEdgesPerNode == 0 ==> Fresh([], t.tsMs - cfg.windowMs) == [];
  }

  /**
   The amount of every transfer of positive depth is bounded, in every log a graph can hold while calls come in time
   order, exactly if the band leaves out zero, or the graph keeps no arrivals or looks back at none.
   */
  lemma AmountsBoundedIff(cfg: Config)
    ensures ZeroOutside(cfg) || cfg.windowMs < 0 || cfg.maxEdgesPerNode == 0 <==>
            forall log: seq<Transfer>, k: nat {:trigger AmountIsBounded(cfg, log, k)} ::
              ExactDepths(cfg, log) && LogInOrder(log) && k < |log| && log[k].depth > 0 ==> AmountIsBounded(cfg, log, k)
  {
    hide ExactDepths, LogInOrder, AmountIsBounded;
    if ZeroOutside(cfg) || cfg.windowMs < 0 || cfg.maxEdgesPerNode == 0 {
      forall log: seq<Transfer>, k: nat {:trigger AmountIsBounded(cfg, log, k)}
        | ExactDepths(cfg, log) && LogInOrder(log) && k < |log| && log[k].depth > 0
        ensures AmountIsBounded(cfg, log, k)
      {
        if ZeroOutside(cfg) {
          BoundedByChain(cfg, log, k);
        } else {
          NothingForwarded(cfg, log, k);
        }
      }
    } else {
      ZeroFeedsIsExact(cfg);
      ZeroIsUnbounded(cfg);
      assert ZeroFeeds()[1].depth > 0;
    }
  }

  lemma BoundedByChain(cfg: Config, log: seq<Transfer>, k: nat)
    requires ZeroOutside(cfg) && ExactDepths(cfg, log) && k < |log| && log[k].depth > 0
    ensures AmountIsBounded(cfg, log, k)
  {
    hide Explains, WithinPowers, ExactDepths, Witnessed;
    ExactIsWitnessed(cfg, log, |log|);
    assert log[..|log|] == log;
    var c := DepthIsHonest(cfg, log, k);
  }
}

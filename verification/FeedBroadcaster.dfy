/**
 The dashboard feed: fresh decisions wait in a bounded queue and leave it in frames. Beside its fields the class keeps,
 for the contracts only, every id it let in and what became of every tick.
 */
module FeedBroadcaster {
  import opened Collections

  const RECENT_IDS := 20_000

  /** A decision: flagged ticks (REVIEW or BLOCK) open a case, the others are ALLOW ticks. */
  datatype Tick<K> = Tick(txnId: Option<K>, decidedAt: Option<int>, flagged: bool)

  // ---------- the order of a frame ----------

  /** By time, and ticks without a time last. */
  predicate NotAfter(a: Option<int>, b: Option<int>) {
    b.None? || (a.Some? && a.value <= b.value)
  }

  /** Puts a tick behind those that are not after it. */
  function Insert<K>(batch: seq<Tick<K>>, t: Tick<K>): seq<Tick<K>> {
    if batch == [] || NotAfter(batch[|batch| - 1].decidedAt, t.decidedAt) then batch + [t]
    else Insert(batch[..|batch| - 1], t) + [batch[|batch| - 1]]
  }

  function InTimeOrder<K>(batch: seq<Tick<K>>): seq<Tick<K>> {
    if batch == [] then [] else Insert(InTimeOrder(batch[..|batch| - 1]), batch[|batch| - 1])
  }

  ghost predicate Ordered<K>(batch: seq<Tick<K>>) {
    forall i, j :: 0 <= i < j < |batch| ==> NotAfter(batch[i].decidedAt, batch[j].decidedAt)
  }

  /** Times do not go down from tick to tick, and no tick with a time comes after one without. */
  ghost predicate TimesRise<K>(batch: seq<Tick<K>>) {
    forall i, j :: 0 <= i < j < |batch| && batch[j].decidedAt.Some? ==>
      batch[i].decidedAt.Some? && batch[i].decidedAt.value <= batch[j].decidedAt.value
  }

  /** The ticks of one time, in order. */
  function At<K>(batch: seq<Tick<K>>, time: Option<int>): seq<Tick<K>> {
    if batch == [] then []
    else At(batch[..|batch| - 1], time) + if batch[|batch| - 1].decidedAt == time then [batch[|batch| - 1]] else []
  }

  lemma AtSnoc<K>(batch: seq<Tick<K>>, t: Tick<K>, time: Option<int>)
    ensures At(batch + [t], time) == At(batch, time) + if t.decidedAt == time then [t] else []
  {
    assert (batch + [t])[..|batch|] == batch;
  }

  lemma {:induction false} InsertPermutes<K>(batch: seq<Tick<K>>, t: Tick<K>)
    ensures multiset(Insert(batch, t)) == multiset(batch) + multiset{t}
  {
    if batch != [] && !NotAfter(batch[|batch| - 1].decidedAt, t.decidedAt) {
      InsertPermutes(batch[..|batch| - 1], t);
      assert batch == batch[..|batch| - 1] + [batch[|batch| - 1]];
    }
  }

  lemma {:induction false} InsertOrders<K>(batch: seq<Tick<K>>, t: Tick<K>)
    requires Ordered(batch)
    ensures Ordered(Insert(batch, t))
  {
    if batch != [] && !NotAfter(batch[|batch| - 1].decidedAt, t.decidedAt) {
      var front, last := batch[..|batch| - 1], batch[|batch| - 1];
      InsertOrders(front, t);
      InsertPermutes(front, t);
      var rest := Insert(front, t);
      forall i | 0 <= i < |rest| ensures NotAfter(rest[i].decidedAt, last.decidedAt) {
        assert rest[i] in multiset(rest);
        assert rest[i] in front || rest[i] == t;
      }
    }
  }

  lemma {:induction false} InsertIsStable<K>(batch: seq<Tick<K>>, t: Tick<K>, time: Option<int>)
    requires Ordered(batch)
    ensures At(Insert(batch, t), time) == At(batch, time) + if t.decidedAt == time then [t] else []
  {
    if batch == [] || NotAfter(batch[|batch| - 1].decidedAt, t.decidedAt) {
      AtSnoc(batch, t, time);
    } else {
      var front, last := batch[..|batch| - 1], batch[|batch| - 1];
      InsertIsStable(front, t, time);
      AtSnoc(Insert(front, t), last, time);
    }
  }

  /** A frame is its batch in order of time, and ticks of the same time keep their order. */
  lemma {:induction false} InTimeOrderIs<K>(batch: seq<Tick<K>>, time: Option<int>)
    ensures Ordered(InTimeOrder(batch)) && multiset(InTimeOrder(batch)) == multiset(batch)
    ensures TimesRise(InTimeOrder(batch))
    ensures At(InTimeOrder(batch), time) == At(batch, time)
  {
    if batch != [] {
      var front, last := batch[..|batch| - 1], batch[|batch| - 1];
      assert batch == front + [last];
      InTimeOrderIs(front, time);
      InsertOrders(InTimeOrder(front), last);
      InsertPermutes(InTimeOrder(front), last);
      InsertIsStable(InTimeOrder(front), last, time);
    }
  }

  // ---------- ids ----------

  /** An id is let in again only after `RECENT_IDS` others. */
  ghost predicate FarApart<K>(inserted: seq<K>) {
    forall i, j :: 0 <= i < j < |inserted| && inserted[i] == inserted[j] ==> j - i > RECENT_IDS
  }

  /** Between two times an id is let in, that many different other ids are. */
  lemma OthersBetween<K>(inserted: seq<K>, i: nat, j: nat)
    requires FarApart(inserted) && i < j < |inserted| && inserted[i] == inserted[j]
    ensures j - 20_000 > i
    ensures var between := inserted[j - 20_000..j];
            NoDuplicates(between) && inserted[j] !in between && |Elements(between)| == 20_000
  {
    var between := inserted[j - RECENT_IDS..j];
    forall a, b | 0 <= a < b < |between| ensures between[a] != between[b] {
      assert between[a] == inserted[j - RECENT_IDS + a] && between[b] == inserted[j - RECENT_IDS + b];
    }
    DistinctCount(between);
  }

  lemma NewIdIsFar<K>(inserted: seq<K>, id: K)
    requires FarApart(inserted) && id !in LastN(inserted, RECENT_IDS)
    ensures FarApart(inserted + [id])
  {
    var recent := LastN(inserted, RECENT_IDS);
    forall i | 0 <= i < |inserted| && |inserted| - i <= RECENT_IDS ensures inserted[i] != id {
      assert recent[i - (|inserted| - |recent|)] == inserted[i];
    }
  }

  lemma LastNSnoc<T>(s: seq<T>, x: T, n: nat)
    ensures LastN(LastN(s, n) + [x], n) == LastN(s + [x], n)
  {
  }

  // ---------- what becomes of a tick ----------

  /** Each offered tick is sent, dropped or waiting, once; only ALLOW ticks leave the queue unsent. */
  ghost predicate EachInOnePlace<K>(offered: seq<Tick<K>>, sent: seq<Tick<K>>, evicted: seq<Tick<K>>,
                                    refused: seq<Tick<K>>, pending: seq<Tick<K>>)
  {
    && multiset(offered) == multiset(sent) + multiset(evicted) + multiset(refused) + multiset(pending)
    && forall i :: 0 <= i < |evicted| ==> !evicted[i].flagged
  }

  lemma OfferOne<K>(offered: seq<Tick<K>>, sent: seq<Tick<K>>, evicted: seq<Tick<K>>, refused: seq<Tick<K>>,
                    pending: seq<Tick<K>>, t: Tick<K>)
    requires EachInOnePlace(offered, sent, evicted, refused, pending)
    ensures EachInOnePlace(offered + [t], sent, evicted, refused, pending + [t])
    ensures EachInOnePlace(offered + [t], sent, evicted, refused + [t], pending)
  {
  }

  lemma EvictHead<K>(offered: seq<Tick<K>>, sent: seq<Tick<K>>, evicted: seq<Tick<K>>, refused: seq<Tick<K>>,
                     pending: seq<Tick<K>>)
    requires EachInOnePlace(offered, sent, evicted, refused, pending) && pending != [] && !pending[0].flagged
    ensures EachInOnePlace(offered, sent, evicted + [pending[0]], refused, pending[1..])
  {
    assert pending == [pending[0]] + pending[1..];
  }

  lemma SendAll<K>(offered: seq<Tick<K>>, sent: seq<Tick<K>>, evicted: seq<Tick<K>>, refused: seq<Tick<K>>,
                   pending: seq<Tick<K>>)
    requires EachInOnePlace(offered, sent, evicted, refused, pending)
    ensures EachInOnePlace(offered, sent + InTimeOrder(pending), evicted, refused, [])
  {
    hide InTimeOrder;
    InTimeOrderIs(pending, None);
  }

  datatype Outcome = Duplicate | Unwatched | Queued | Refused

  class FeedBroadcaster<K(==,!new), Session(==)> {
    const maxQueued: int
    const maxHistory: nat
    var sessions: set<Session>
    var pending: seq<Tick<K>>
    var pendingCount: int
    var history: seq<Tick<K>>
    var recentIds: seq<K>
    /**
     The ids and the ticks ever let in; the ticks let in while someone watched; and which of these were sent, taken out
     of the queue to make room, or refused.
     */
    ghost var inserted: seq<K>
    ghost var letIn: seq<Tick<K>>
    ghost var offered: seq<Tick<K>>
    ghost var sent: seq<Tick<K>>
    ghost var evicted: seq<Tick<K>>
    ghost var refused: seq<Tick<K>>

    ghost predicate Remembers()
      reads this`recentIds, this`inserted, this`history, this`letIn
    {
      recentIds == LastN(inserted, RECENT_IDS) && FarApart(inserted) && history == LastN(letIn, maxHistory)
    }

    ghost predicate Bounded()
      reads this`pending, this`pendingCount
    {
      pendingCount == |pending| && |pending| <= Max(1, maxQueued)
    }

    ghost predicate Conserved()
      reads this`offered, this`sent, this`evicted, this`refused, this`pending
    {
      EachInOnePlace(offered, sent, evicted, refused, pending)
    }

    ghost predicate Valid()
      reads this
    {
      Remembers() && Bounded() && Conserved()
    }

    constructor (maxQueued: int, maxHistory: nat)
      ensures Valid() && this.maxQueued == maxQueued && this.maxHistory == maxHistory
      ensures sessions == {} && pending == [] && inserted == [] && letIn == [] && offered == [] && sent == []
      ensures evicted == [] && refused == []
    {
      this.maxQueued, this.maxHistory := maxQueued, maxHistory;
      sessions, pending, pendingCount, history, recentIds := {}, [], 0, [], [];
      inserted, letIn, offered, sent, evicted, refused := [], [], [], [], [], [];
    }

    /** A new session is first shown the recent past; if that fails it is not kept. */
    method Register(session: Session, broken: bool) returns (backfill: seq<Tick<K>>)
      requires Valid()
      modifies this`sessions
      ensures Valid() && backfill == LastN(letIn, maxHistory)
      ensures sessions == if backfill != [] && broken then old(sessions) - {session} else old(sessions) + {session}
    {
      sessions := sessions + {session};
      backfill := history;
      if backfill != [] && broken {
        sessions := sessions - {session};
      }
    }

    method Unregister(session: Session)
      requires Valid()
      modifies this`sessions
      ensures Valid() && sessions == old(sessions) - {session}
    {
      sessions := sessions - {session};
    }

    /** Lets a tick in unless its id is among the recent ones, and appends it to the history. */
    method Remember(tick: Tick<K>) returns (isNew: bool)
      requires Remembers()
      modifies this`recentIds, this`history, this`inserted, this`letIn
      ensures Remembers()
      ensures isNew <==> tick.txnId.None? || tick.txnId.value !in LastN(old(inserted), 20_000)
      ensures letIn == old(letIn) + if isNew then [tick] else []
      ensures inserted == old(inserted) + if isNew && tick.txnId.Some? then [tick.txnId.value] else []
    {
      hide FarApart, LastN;
      if tick.txnId.Some? {
        var id := tick.txnId.value;
        if id in recentIds {
          return false;
        }
        NewIdIsFar(inserted, id);
        LastNSnoc(inserted, id, RECENT_IDS);
        recentIds := LastN(recentIds + [id], RECENT_IDS);
        inserted := inserted + [id];
      }
      LastNSnoc(letIn, tick, maxHistory);
      history := Trim(history + [tick], maxHistory);
      letIn := letIn + [tick];
      isNew := true;
    }

    /** Drops the head of a full queue if that is an ALLOW tick; looks at no other tick. */
    method MakeRoom() returns (room: bool)
      requires Bounded() && Conserved()
      modifies this`pending, this`pendingCount, this`evicted
      ensures Bounded() && Conserved()
      ensures room <==> old(pending) == [] || !old(pending)[0].flagged
      ensures pending == if room && old(pending) != [] then old(pending)[1..] else old(pending)
      ensures evicted == old(evicted) + if room then old(pending)[..|old(pending)| - |pending|] else []
    {
      hide EachInOnePlace;
      if pending == [] {
        return true;
      }
      var head := pending[0];
      if head.flagged {
        return false;
      }
      EvictHead(offered, sent, evicted, refused, pending);
      pending := pending[1..];
      pendingCount := pendingCount - 1;
      evicted := evicted + [head];
      room := true;
    }

    /** The part of `Publish` that concerns the queue. */
    method Enqueue(tick: Tick<K>) returns (outcome: Outcome)
      requires Bounded() && Conserved()
      modifies this`pending, this`pendingCount, this`offered, this`evicted, this`refused
      ensures Bounded() && Conserved() && outcome in {Queued, Refused}
      ensures offered == old(offered) + [tick]
      ensures outcome == Refused <==> |old(pending)| >= maxQueued && old(pending) != [] && old(pending)[0].flagged
      ensures refused == old(refused) + if outcome == Refused then [tick] else []
      ensures pending == if outcome != Queued then old(pending)
                         else if |old(pending)| >= maxQueued && old(pending) != [] then old(pending)[1..] + [tick]
                         else old(pending) + [tick]
    {
      hide EachInOnePlace;
      if pendingCount >= maxQueued {
        var room := MakeRoom();
        if !room {
          OfferOne(offered, sent, evicted, refused, pending, tick);
          offered, refused := offered + [tick], refused + [tick];
          return Refused;
        }
      }
      OfferOne(offered, sent, evicted, refused, pending, tick);
      offered := offered + [tick];
      pending := pending + [tick];
      pendingCount := pendingCount + 1;
      outcome := Queued;
    }

    /**
     A fresh tick is queued if someone watches, in the place of the head if the queue is full. It is refused exactly
     if the queue is full and its head is flagged, whatever the tick itself and the rest of the queue are.
     */
    method Publish(tick: Tick<K>) returns (outcome: Outcome)
      requires Valid()
      modifies this`recentIds, this`history, this`inserted, this`letIn
      modifies this`pending, this`pendingCount, this`offered, this`evicted, this`refused
      ensures Valid()
      ensures outcome == Duplicate <==> tick.txnId.Some? && tick.txnId.value in LastN(old(inserted), 20_000)
      ensures letIn == old(letIn) + if outcome != Duplicate then [tick] else []
      ensures inserted == old(inserted) + if outcome != Duplicate && tick.txnId.Some? then [tick.txnId.value] else []
      ensures outcome == Unwatched <==> outcome != Duplicate && sessions == {}
      ensures offered == old(offered) + if outcome == Queued || outcome == Refused then [tick] else []
      ensures outcome == Refused <==> outcome != Duplicate && sessions != {} && |old(pending)| >= maxQueued
                                      && old(pending) != [] && old(pending)[0].flagged
      ensures refused == old(refused) + if outcome == Refused then [tick] else []
      ensures pending == if outcome != Queued then old(pending)
                         else if |old(pending)| >= maxQueued && old(pending) != [] then old(pending)[1..] + [tick]
                         else old(pending) + [tick]
    {
      hide Remembers, LastN, EachInOnePlace;
      var isNew := Remember(tick);
      if !isNew {
        return Duplicate;
      }
      if sessions == {} {
        return Unwatched;
      }
      outcome := Enqueue(tick);
    }

    /** Takes every tick out of the queue, from its head. */
    method Drain() returns (batch: seq<Tick<K>>)
      requires pendingCount == |pending|
      modifies this`pending, this`pendingCount
      ensures batch == old(pending) && pending == [] && pendingCount == 0
    {
      batch := [];
      while pending != []
        invariant pendingCount == |pending| && batch + pending == old(pending)
        decreases |pending|
      {
        assert batch + pending == (batch + [pending[0]]) + pending[1..];
        batch := batch + [pending[0]];
        pending := pending[1..];
        pendingCount := pendingCount - 1;
      }
    }

    /** Empties the queue into one frame in order of time, and lets go of the sessions that could not take it. */
    method Flush(broken: set<Session>) returns (frame: seq<Tick<K>>)
      requires Valid()
      modifies this`pending, this`pendingCount, this`sent, this`sessions
      ensures Valid()
      ensures if old(sessions) == {} || old(pending) == [] then
                frame == [] && pending == old(pending) && sent == old(sent) && sessions == old(sessions)
              else
                && frame == InTimeOrder(old(pending)) && pending == [] && sent == old(sent) + frame
                && TimesRise(frame) && multiset(frame) == multiset(old(pending))
                && sessions == old(sessions) - broken
    {
      hide Remembers, InTimeOrder, EachInOnePlace, TimesRise;
      frame := [];
      if sessions == {} || pending == [] {
        return;
      }
      var batch := Drain();
      SendAll(offered, sent, evicted, refused, batch);
      frame := InTimeOrder(batch);
      InTimeOrderIs(batch, None);
      sessions := sessions - broken;
      sent := sent + frame;
    }
  }

  /** Drops the oldest until no more than `n` are left. */
  method Trim<T>(s: seq<T>, n: nat) returns (r: seq<T>)
    ensures r == LastN(s, n)
  {
    r := s;
    while |r| > n
      invariant |r| <= |s| && r == s[|s| - |r|..] && (|r| < |s| ==> |r| >= n)
    {
      r := r[1..];
    }
  }

  /** A flagged tick is refused although an ALLOW tick is queued: only the head of the queue is looked at. */
  method RefusedBehindFlagged() returns (tick: Tick<int>, outcome: Outcome, queue: seq<Tick<int>>)
    ensures tick.flagged && outcome == Refused && |queue| == 2 && queue[0].flagged && !queue[1].flagged
  {
    hide EachInOnePlace, FarApart, LastN;
    var feed := new FeedBroadcaster<int, int>(2, 10);
    var backfill := feed.Register(0, false);
    outcome := feed.Publish(Tick(None, None, true));
    outcome := feed.Publish(Tick(None, None, false));
    tick := Tick(None, None, true);
    outcome := feed.Publish(tick);
    queue := feed.pending;
  }
}

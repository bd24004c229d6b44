/**
 The traffic generator's loop: base arrivals and the events of fraud episodes, published in time order against a clock
 that may jump. Times are in microseconds; the clock, the arrival gaps and the episodes are arbitrary.
 */
module Runner {
  import opened Collections

  const MAX_BEHIND := 5_000_000

  /** An event as it was drawn: when it was due, before any clock jump moved the schedule. */
  datatype Planned = Planned(id: int, due: int, labelled: bool)

  /** A queued event: the time to publish it at, and the times in its transaction and in its label. */
  datatype Event = Event(planned: Planned, at: int, ts: int, labelTs: Option<int>)

  datatype Hop = Hop(id: int, offset: nat, labelled: bool)

  /** An episode by the offsets of its events from its start, and the gap until its injector's next one. */
  datatype Episode = Episode(hops: seq<Hop>, gap: nat)

  datatype Base = Base(id: int, gap: nat)

  function EventOf(id: int, at: int, labelled: bool, offset: int): Event {
    Event(Planned(id, at - offset, labelled), at, at, if labelled then Some(at) else None)
  }

  /** Both times of the event are its time to publish, which is when it was due plus what clock jumps added. */
  predicate OnSchedule(e: Event, offset: int) {
    e.at == e.planned.due + offset && e.ts == e.at && e.labelTs == if e.planned.labelled then Some(e.at) else None
  }

  /** The event is published at `at`, which is the time in its transaction and, if it has a label, in that. */
  predicate IsEvent(e: Event, id: int, at: int, labelled: bool) {
    && e.planned.id == id && e.planned.labelled == labelled && e.at == at && e.ts == at
    && (if labelled then e.labelTs == Some(at) else e.labelTs.None?)
  }

  function Plans(events: seq<Event>): seq<Planned> {
    if events == [] then [] else Plans(events[..|events| - 1]) + [events[|events| - 1].planned]
  }

  lemma PlansSnoc(events: seq<Event>, e: Event)
    ensures Plans(events + [e]) == Plans(events) + [e.planned]
  {
    assert (events + [e])[..|events|] == events;
  }

  lemma NoPlans()
    ensures Plans([]) == []
  {
  }

  lemma {:induction false} PlansAppend(a: seq<Event>, b: seq<Event>)
    ensures Plans(a + b) == Plans(a) + Plans(b)
  {
    hide Plans;
    if b == [] {
      assert a + b == a;
      NoPlans();
    } else {
      var front, last := b[..|b| - 1], b[|b| - 1];
      PlansAppend(a, front);
      assert b == front + [last] && a + b == (a + front) + [last];
      PlansSnoc(a + front, last);
      PlansSnoc(front, last);
    }
  }

  lemma PlansOne(e: Event)
    ensures Plans([e]) == [e.planned]
  {
  }

  lemma TakeOut<T>(a: seq<T>, x: T, b: seq<T>)
    ensures multiset(a + ([x] + b)) == multiset(a + b) + multiset{x}
  {
  }

  lemma PlansWithout(events: seq<Event>, k: nat)
    requires k < |events|
    ensures multiset(Plans(events)) == multiset(Plans(events[..k] + events[k + 1..])) + multiset{events[k].planned}
  {
    hide Plans;
    var before, e, after := events[..k], events[k], events[k + 1..];
    assert events == before + ([e] + after);
    PlansAppend(before, [e] + after);
    PlansAppend([e], after);
    PlansAppend(before, after);
    PlansOne(e);
    TakeOut(Plans(before), e.planned, Plans(after));
  }

  // ---------- what holds of the queue and of what was published ----------

  /** Queued events are on schedule and not before `latest`. */
  predicate Waiting(queue: seq<Event>, latest: int, offset: int) {
    forall k :: 0 <= k < |queue| ==> OnSchedule(queue[k], offset) && latest <= queue[k].at
  }

  /**
   What was published, with the clock reading at that time and the schedule's offset then: in time order, on schedule,
   and never more than `MAX_BEHIND` behind the clock.
   */
  ghost predicate WellPublished(published: seq<Event>, readings: seq<int>, offsets: seq<int>, latest: int, offset: int) {
    && |readings| == |offsets| == |published|
    && (forall i :: 0 <= i < |published| ==>
         && OnSchedule(published[i], offsets[i]) && readings[i] - published[i].at <= MAX_BEHIND
         && published[i].at <= latest && offsets[i] <= offset)
    && (forall i, j :: 0 <= i < j < |published| ==> published[i].at <= published[j].at && offsets[i] <= offsets[j])
  }

  /** Everything scheduled was published or is queued, once. */
  ghost predicate Accounted(scheduled: seq<Planned>, published: seq<Event>, queue: seq<Event>) {
    multiset(scheduled) == multiset(Plans(published)) + multiset(Plans(queue))
  }

  lemma PublishOne(published: seq<Event>, readings: seq<int>, offsets: seq<int>, latest: int, offset: int, e: Event, now: int)
    requires WellPublished(published, readings, offsets, latest, offset)
    requires OnSchedule(e, offset) && latest <= e.at && now - e.at <= MAX_BEHIND
    ensures WellPublished(published + [e], readings + [now], offsets + [offset], e.at, offset)
  {
  }

  lemma JumpKeepsPublished(published: seq<Event>, readings: seq<int>, offsets: seq<int>, latest: int, offset: int, behind: nat)
    requires WellPublished(published, readings, offsets, latest, offset)
    ensures WellPublished(published, readings, offsets, latest, offset + behind)
  {
  }

  /**
   Between two published events lies the gap they were planned with, and the clock jumps between them: within an
   episode that no jump falls into, the gaps are exactly as drawn.
   */
  lemma GapsAreKept(published: seq<Event>, readings: seq<int>, offsets: seq<int>, latest: int, offset: int, i: nat, j: nat)
    requires WellPublished(published, readings, offsets, latest, offset) && i < j < |published|
    ensures published[j].at - published[i].at == published[j].planned.due - published[i].planned.due + offsets[j] - offsets[i]
    ensures offsets[j] >= offsets[i]
  {
  }

  function Shifted(queue: seq<Event>, behind: int): seq<Event> {
    if queue == [] then []
    else
      var e := queue[|queue| - 1];
      Shifted(queue[..|queue| - 1], behind)
      + [Event(e.planned, e.at + behind, e.ts + behind, if e.labelTs.Some? then Some(e.labelTs.value + behind) else None)]
  }

  lemma {:induction false} ShiftedWaits(queue: seq<Event>, behind: nat, latest: int, offset: int)
    requires Waiting(queue, latest, offset)
    ensures Waiting(Shifted(queue, behind), latest, offset + behind) && Plans(Shifted(queue, behind)) == Plans(queue)
  {
    if queue != [] {
      var front := queue[..|queue| - 1];
      ShiftedWaits(front, behind, latest, offset);
      PlansSnoc(Shifted(front, behind), Shifted(queue, behind)[|Shifted(front, behind)|]);
    }
  }

  /** The events of an episode that starts at `start`. */
  function EventsOf(hops: seq<Hop>, start: int, offset: int): seq<Event> {
    if hops == [] then []
    else
      var hop := hops[|hops| - 1];
      EventsOf(hops[..|hops| - 1], start, offset) + [EventOf(hop.id, start + hop.offset, hop.labelled, offset)]
  }

  /** When the injectors' next episodes are due after the drawn ones: `which[j]` is the injector of episode `j`. */
  function DueAfter(due: seq<int>, drawn: seq<Episode>, which: seq<nat>): seq<int>
    requires |drawn| == |which|
  {
    if drawn == [] then due
    else
      var n := |drawn| - 1;
      var before := DueAfter(due, drawn[..n], which[..n]);
      if which[n] < |before| then before[which[n] := before[which[n]] + drawn[n].gap] else before
  }

  /** The events of the drawn episodes, each starting when its injector was due. */
  function AllEvents(due: seq<int>, drawn: seq<Episode>, which: seq<nat>, offset: int): seq<Event>
    requires |drawn| == |which|
  {
    if drawn == [] then []
    else
      var n := |drawn| - 1;
      var before := DueAfter(due, drawn[..n], which[..n]);
      AllEvents(due, drawn[..n], which[..n], offset)
      + if which[n] < |before| then EventsOf(drawn[n].hops, before[which[n]], offset) else []
  }

  lemma NothingDrawn(due: seq<int>, offset: int)
    ensures DueAfter(due, [], []) == due && AllEvents(due, [], [], offset) == []
  {
  }

  lemma DrawOne(due: seq<int>, drawn: seq<Episode>, which: seq<nat>, offset: int, e: Episode, w: nat)
    requires |drawn| == |which|
    ensures var before := DueAfter(due, drawn, which);
            && DueAfter(due, drawn + [e], which + [w])
               == (if w < |before| then before[w := before[w] + e.gap] else before)
            && AllEvents(due, drawn + [e], which + [w], offset)
               == AllEvents(due, drawn, which, offset) + if w < |before| then EventsOf(e.hops, before[w], offset) else []
  {
    hide EventsOf;
    assert (drawn + [e])[..|drawn|] == drawn && (which + [w])[..|which|] == which;
  }

  lemma SpawnOne(queue: seq<Event>, due: seq<int>, drawn: seq<Episode>, which: seq<nat>, offset: int, e: Episode, w: nat)
    requires |drawn| == |which| && w < |DueAfter(due, drawn, which)|
    ensures var before := DueAfter(due, drawn, which);
            && DueAfter(due, drawn + [e], which + [w]) == before[w := before[w] + e.gap]
            && queue + AllEvents(due, drawn, which, offset) + EventsOf(e.hops, before[w], offset)
               == queue + AllEvents(due, drawn + [e], which + [w], offset)
  {
    hide EventsOf, DueAfter, AllEvents;
    DrawOne(due, drawn, which, offset, e, w);
  }

  lemma EventsOfSnoc(hops: seq<Hop>, i: nat, start: int, offset: int)
    requires i < |hops|
    ensures EventsOf(hops[..i + 1], start, offset)
         == EventsOf(hops[..i], start, offset) + [EventOf(hops[i].id, start + hops[i].offset, hops[i].labelled, offset)]
  {
    assert hops[..i + 1][..i] == hops[..i];
  }

  // ---------- the clock ----------

  /** A clock that never goes back, and may be later than asked for after a sleep. */
  class Clock {
    var time: int

    constructor (start: int)
      ensures time == start
    {
      time := start;
    }

    method Now() returns (t: int)
      modifies this
      ensures t == time >= old(time)
    {
      var passed: nat :| true;
      time := time + passed;
      t := time;
    }

    method SleepUntil(when: int)
      modifies this
      ensures time >= old(time) && time >= when
    {
      var extra: nat :| true;
      time := Max(time, when) + extra;
    }
  }

  /** The first of the earliest events; the heap may yield any of them. */
  method Earliest(queue: seq<Event>) returns (k: nat)
    requires queue != []
    ensures k < |queue| && forall j :: 0 <= j < |queue| ==> queue[k].at <= queue[j].at
  {
    k := 0;
    for i := 1 to |queue|
      invariant k < |queue| && forall j :: 0 <= j < i ==> queue[k].at <= queue[j].at
    {
      if queue[i].at < queue[k].at {
        k := i;
      }
    }
  }

  /** Some queued event is further behind the clock than the loop tolerates. */
  predicate HasStale(queue: seq<Event>, now: int) {
    exists k :: 0 <= k < |queue| && now - queue[k].at > MAX_BEHIND
  }

  /**
   Some queued event is further behind both the clock and the next base arrival than the loop tolerates. Skipping ahead
   moves event and arrival alike, so the event stays as far behind.
   */
  predicate Jams(queue: seq<Event>, nextBase: int, now: int) {
    exists k :: 0 <= k < |queue| && now - queue[k].at > MAX_BEHIND && nextBase - queue[k].at > MAX_BEHIND
  }

  lemma {:induction false} ShiftedAt(queue: seq<Event>, behind: int, k: nat)
    requires k < |queue|
    ensures |Shifted(queue, behind)| == |queue| && Shifted(queue, behind)[k].at == queue[k].at + behind
  {
    var front := queue[..|queue| - 1];
    if k < |front| {
      ShiftedAt(front, behind, k);
    } else if front != [] {
      ShiftedAt(front, behind, 0);
    }
  }

  /** Some queued event is due too long before the next base arrival. */
  predicate FarAhead(queue: seq<Event>, nextBase: int) {
    exists k :: 0 <= k < |queue| && nextBase - queue[k].at > MAX_BEHIND
  }

  /**
   `late` after a skip to `now` something queued is stale exactly if, before the skip, some queued event was due too long
   before that time after the next base arrival.
   */
  lemma SkipClearsIff(queue: seq<Event>, nextBase: int, now: int, late: nat)
    ensures HasStale(Shifted(queue, now - nextBase), now + late) <==> FarAhead(queue, nextBase + late)
  {
    hide Shifted;
    var shifted := Shifted(queue, now - nextBase);
    if queue == [] {
      ShiftedNone(now - nextBase);
    } else {
      ShiftedAt(queue, now - nextBase, 0);
    }
    if FarAhead(queue, nextBase + late) {
      var k :| 0 <= k < |queue| && nextBase + late - queue[k].at > MAX_BEHIND;
      ShiftedAt(queue, now - nextBase, k);
    }
    if HasStale(shifted, now + late) {
      var k :| 0 <= k < |shifted| && now + late - shifted[k].at > MAX_BEHIND;
      ShiftedAt(queue, now - nextBase, k);
    }
  }

  // ---------- a skip and the episodes spawned after it ----------

  lemma ShiftedSnoc(queue: seq<Event>, e: Event, behind: int)
    ensures Shifted(queue + [e], behind) == Shifted(queue, behind) + Shifted([e], behind)
  {
    assert (queue + [e])[..|queue|] == queue;
    assert Shifted([e], behind) == Shifted([], behind) + Shifted([e], behind);
  }

  lemma {:induction false} ShiftedAppend(a: seq<Event>, b: seq<Event>, behind: int)
    ensures Shifted(a + b, behind) == Shifted(a, behind) + Shifted(b, behind)
  {
    if b == [] {
      assert a + b == a;
      ShiftedNone(behind);
    } else {
      var front, last := b[..|b| - 1], b[|b| - 1];
      ShiftedAppend(a, front, behind);
      assert a + b == (a + front) + [last] && b == front + [last];
      hide Shifted;
      ShiftedSnoc(a + front, last, behind);
      ShiftedSnoc(front, last, behind);
    }
  }

  lemma EventShifted(id: int, at: int, labelled: bool, offset: int, behind: int)
    ensures Shifted([EventOf(id, at, labelled, offset)], behind) == [EventOf(id, at + behind, labelled, offset + behind)]
  {
    assert Shifted([], behind) == [];
  }

  lemma {:induction false} EventsOfShifted(hops: seq<Hop>, start: int, offset: int, behind: int, i: nat)
    requires i <= |hops|
    ensures EventsOf(hops[..i], start + behind, offset + behind) == Shifted(EventsOf(hops[..i], start, offset), behind)
  {
    hide EventsOf, Shifted, EventOf;
    if i == 0 {
      NoHops(start, offset);
      NoHops(start + behind, offset + behind);
      ShiftedNone(behind);
    } else {
      var hop := hops[i - 1];
      EventsOfShifted(hops, start, offset, behind, i - 1);
      EventsOfSnoc(hops, i - 1, start, offset);
      EventsOfSnoc(hops, i - 1, start + behind, offset + behind);
      EventShifted(hop.id, start + hop.offset, hop.labelled, offset, behind);
      ShiftedSnoc(EventsOf(hops[..i - 1], start, offset), EventOf(hop.id, start + hop.offset, hop.labelled, offset), behind);
    }
  }

  lemma NoHops(start: int, offset: int)
    ensures EventsOf([], start, offset) == []
  {
  }

  lemma {:induction false} EventsAre(hops: seq<Hop>, start: int, offset: int, n: nat)
    requires n <= |hops|
    ensures |EventsOf(hops[..n], start, offset)| == n
    ensures forall k :: 0 <= k < n ==>
              IsEvent(EventsOf(hops[..n], start, offset)[k], hops[k].id, start + hops[k].offset, hops[k].labelled)
  {
    hide EventsOf, EventOf, IsEvent;
    if n == 0 {
      NoHops(start, offset);
    } else {
      EventsAre(hops, start, offset, n - 1);
      EventsOfSnoc(hops, n - 1, start, offset);
      EventIsOnSchedule(hops[n - 1].id, start + hops[n - 1].offset, hops[n - 1].labelled, offset);
    }
  }

  lemma MovedUpdate(times: seq<int>, i: nat, gap: int, delta: int)
    requires i < |times|
    ensures |Moved(times, delta)| == |times|
    ensures Moved(times[i := times[i] + gap], delta) == Moved(times, delta)[i := Moved(times, delta)[i] + gap]
  {
    hide Moved;
    MovedIs(times, delta);
    MovedIs(times[i := times[i] + gap], delta);
  }

  /** Spawning the same draws after a skip gives the same episodes, moved by the skip. */
  lemma {:induction false} SpawnShifted(due: seq<int>, drawn: seq<Episode>, which: seq<nat>, offset: int, behind: int, n: nat)
    requires |drawn| == |which| && n <= |drawn|
    ensures DueAfter(Moved(due, behind), drawn[..n], which[..n]) == Moved(DueAfter(due, drawn[..n], which[..n]), behind)
    ensures AllEvents(Moved(due, behind), drawn[..n], which[..n], offset + behind)
         == Shifted(AllEvents(due, drawn[..n], which[..n], offset), behind)
  {
    hide DueAfter, AllEvents, EventsOf, Shifted, Moved;
    if n == 0 {
      NothingDrawn(due, offset);
      NothingDrawn(Moved(due, behind), offset + behind);
      ShiftedNone(behind);
    } else {
      var e, w := drawn[n - 1], which[n - 1];
      var before := DueAfter(due, drawn[..n - 1], which[..n - 1]);
      SpawnShifted(due, drawn, which, offset, behind, n - 1);
      assert drawn[..n] == drawn[..n - 1] + [e] && which[..n] == which[..n - 1] + [w];
      DrawOne(due, drawn[..n - 1], which[..n - 1], offset, e, w);
      DrawOne(Moved(due, behind), drawn[..n - 1], which[..n - 1], offset + behind, e, w);
      MovedIs(before, behind);
      if w < |before| {
        MovedUpdate(before, w, e.gap, behind);
        assert e.hops[..|e.hops|] == e.hops;
        EventsOfShifted(e.hops, before[w], offset, behind, |e.hops|);
        ShiftedAppend(AllEvents(due, drawn[..n - 1], which[..n - 1], offset), EventsOf(e.hops, before[w], offset), behind);
      } else {
        NothingAdded(AllEvents(due, drawn[..n - 1], which[..n - 1], offset));
        NothingAdded(AllEvents(Moved(due, behind), drawn[..n - 1], which[..n - 1], offset + behind));
      }
    }
  }

  lemma NothingAdded<T>(s: seq<T>)
    ensures s + [] == s
  {
  }

  /** Skipping and then spawning leaves what spawning and then skipping would. */
  lemma SkipThenSpawn(queue: seq<Event>, due: seq<int>, drawn: seq<Episode>, which: seq<nat>, offset: int, behind: int)
    requires |drawn| == |which|
    ensures Shifted(queue, behind) + AllEvents(Moved(due, behind), drawn, which, offset + behind)
         == Shifted(queue + AllEvents(due, drawn, which, offset), behind)
  {
    hide Shifted, Moved, AllEvents, DueAfter;
    SpawnShifted(due, drawn, which, offset, behind, |drawn|);
    assert drawn[..|drawn|] == drawn && which[..|which|] == which;
    ShiftedAppend(queue, AllEvents(due, drawn, which, offset), behind);
  }

  /**
   `late` after a skip to `now` and the spawning of the episodes due then, something is stale exactly if, before the skip,
   some event queued or of these episodes was due too long before that time after the next base arrival.
   */
  lemma SkipAndSpawnClearsIff(queue: seq<Event>, due: seq<int>, drawn: seq<Episode>, which: seq<nat>, offset: int,
                              nextBase: int, now: int, late: nat)
    requires |drawn| == |which|
    ensures var b := now - nextBase;
            HasStale(Shifted(queue, b) + AllEvents(Moved(due, b), drawn, which, offset + b), now + late) <==>
            FarAhead(queue + AllEvents(due, drawn, which, offset), nextBase + late)
  {
    hide Shifted, Moved, AllEvents, DueAfter, HasStale, FarAhead;
    var b := now - nextBase;
    SkipThenSpawn(queue, due, drawn, which, offset, b);
    SkipClearsIff(queue + AllEvents(due, drawn, which, offset), nextBase, now, late);
  }

  lemma ShiftedNone(behind: int)
    ensures Shifted([], behind) == []
  {
  }

  lemma {:induction false} NoSkip(queue: seq<Event>, due: seq<int>)
    ensures Shifted(queue, 0) == queue && Moved(due, 0) == due
  {
    if queue != [] {
      NoSkip(queue[..|queue| - 1], due);
    }
    MovedIs(due, 0);
  }

  /** What is jammed with the episodes of this turn counted in stays so over the skip and the spawning. */
  lemma SpawnStaysJammed(queue: seq<Event>, due: seq<int>, drawn: seq<Episode>, which: seq<nat>, offset: int, nextBase: int,
                         t: int, now: int, behind: nat)
    requires |drawn| == |which| && t <= now && (behind == 0 || behind == now - nextBase)
    ensures Jams(queue + AllEvents(due, drawn, which, offset), nextBase, t) ==>
              Jams(Shifted(queue, behind) + AllEvents(Moved(due, behind), drawn, which, offset + behind), nextBase + behind, now)
  {
    hide Shifted, Moved, AllEvents, Jams;
    var events := queue + AllEvents(due, drawn, which, offset);
    if behind == 0 {
      NoSkip(queue, due);
      StaysJammed(events, events, nextBase, t, now);
    } else {
      SkipThenSpawn(queue, due, drawn, which, offset, behind);
      SkipStaysJammed(events, nextBase, t, now);
    }
  }

  /** An injector due nine seconds before the next arrival, and a host that slept until six seconds after the arrival. */
  lemma SpawnCanJam()
    ensures var nextBase, now, due, ep := 10_000_000, 16_000_001, [1_000_000], Episode([Hop(0, 0, true)], 0);
            && !FarAhead([], nextBase) && !Jams([], nextBase, now)
            && Jams(Shifted([], now - nextBase) + AllEvents(Moved(due, now - nextBase), [ep], [0], now - nextBase), now, now)
  {
    var b, due, ep := 6_000_001, [1_000_000], Episode([Hop(0, 0, true)], 0);
    var events := AllEvents(due, [ep], [0], 0);
    assert events == [EventOf(0, 1_000_000, true, 0)] by {
      NothingDrawn(due, 0);
      DrawOne(due, [], [], 0, ep, 0);
      NoHops(1_000_000, 0);
      EventsOfSnoc(ep.hops, 0, 1_000_000, 0);
    }
    SkipAndSpawnClearsIff([], due, [ep], [0], 0, 10_000_000, 16_000_001, 0);
    assert [] + events == events && events[0].at == 1_000_000;
    StaleBeforeArrivalJams(Shifted([], b) + AllEvents(Moved(due, b), [ep], [0], b), 16_000_001, 16_000_001);
  }

  /** What is jammed stays so as time passes, as events join the queue, and over a skip. */
  lemma StaysJammed(queue: seq<Event>, queue': seq<Event>, nextBase: int, t: int, t': int)
    requires t <= t' && queue <= queue'
    ensures Jams(queue, nextBase, t) ==> Jams(queue', nextBase, t')
  {
    if Jams(queue, nextBase, t) {
      var k :| 0 <= k < |queue| && t - queue[k].at > MAX_BEHIND && nextBase - queue[k].at > MAX_BEHIND;
      assert queue'[k] == queue[k];
    }
  }

  lemma SkipStaysJammed(queue: seq<Event>, nextBase: int, t: int, now: int)
    requires t <= now
    ensures Jams(queue, nextBase, t) ==> Jams(Shifted(queue, now - nextBase), now, now)
  {
    hide Shifted;
    if Jams(queue, nextBase, t) {
      var k :| 0 <= k < |queue| && t - queue[k].at > MAX_BEHIND && nextBase - queue[k].at > MAX_BEHIND;
      ShiftedAt(queue, now - nextBase, k);
    }
  }

  /** While the clock has not passed the next arrival, a stale event jams the loop; after it, one that is far ahead does. */
  lemma StaleBeforeArrivalJams(queue: seq<Event>, nextBase: int, now: int)
    ensures HasStale(queue, now) && now <= nextBase ==> Jams(queue, nextBase, now)
    ensures Jams(queue, nextBase, now) ==> HasStale(queue, now) && FarAhead(queue, nextBase)
    ensures nextBase <= now && FarAhead(queue, nextBase) ==> Jams(queue, nextBase, now)
  {
    if FarAhead(queue, nextBase) && nextBase <= now {
      var k :| 0 <= k < |queue| && nextBase - queue[k].at > MAX_BEHIND;
      assert now - queue[k].at > MAX_BEHIND;
    }
    if HasStale(queue, now) && now <= nextBase {
      var k :| 0 <= k < |queue| && now - queue[k].at > MAX_BEHIND;
      assert nextBase - queue[k].at > MAX_BEHIND;
    }
  }

  /** An event due nine seconds before the next arrival, and a host that slept until six seconds after it was due. */
  lemma SleepCanJam()
    ensures Jams([EventOf(0, 1_000_000, true, 0)], 10_000_000, 7_000_001)
  {
    assert [EventOf(0, 1_000_000, true, 0)][0].at == 1_000_000;
  }

  lemma QueueOne(queue: seq<Event>, e: Event, latest: int, offset: int, scheduled: seq<Planned>, published: seq<Event>)
    requires Waiting(queue, latest, offset) && OnSchedule(e, offset) && latest <= e.at
    requires Accounted(scheduled, published, queue)
    ensures Waiting(queue + [e], latest, offset) && Accounted(scheduled + [e.planned], published, queue + [e])
  {
    PlansSnoc(queue, e);
  }

  lemma PublishNow(e: Event, scheduled: seq<Planned>, published: seq<Event>, queue: seq<Event>)
    requires Accounted(scheduled, published, queue)
    ensures Accounted(scheduled + [e.planned], published + [e], queue)
  {
    PlansSnoc(published, e);
  }

  lemma PublishQueued(queue: seq<Event>, k: nat, latest: int, offset: int, scheduled: seq<Planned>, published: seq<Event>)
    requires k < |queue| && Waiting(queue, latest, offset) && Accounted(scheduled, published, queue)
    requires forall j :: 0 <= j < |queue| ==> queue[k].at <= queue[j].at
    ensures var rest := queue[..k] + queue[k + 1..];
            && Waiting(rest, queue[k].at, offset) && Accounted(scheduled, published + [queue[k]], rest)
            && Accounted(scheduled, published, rest + [queue[k]]) && Waiting(rest + [queue[k]], latest, offset)
  {
    hide OnSchedule, Plans;
    var rest := queue[..k] + queue[k + 1..];
    PlansWithout(queue, k);
    PlansSnoc(published, queue[k]);
    PlansSnoc(rest, queue[k]);
    forall j | 0 <= j < |rest| ensures rest[j] in queue {
    }
  }

  class Runner {
    const clock: Clock
    /** Zero means no limit, and no deadline means the loop runs until it is stopped. */
    const maxEvents: nat
    const deadline: Option<int>
    var queue: seq<Event>
    var published: seq<Event>
    var nextBase: int
    var nextEpisode: seq<int>
    var episodes: nat
    var clockJumps: nat
    /** How far clock jumps moved the schedule so far. */
    var offset: int
    /** The draws still to come; the loop stops where they end. */
    var draws: seq<Episode>
    var bases: seq<Base>
    ghost var scheduled: seq<Planned>
    ghost var readings: seq<int>
    ghost var offsets: seq<int>
    ghost var latest: int
    /** The turns so far that were not over at once. */
    ghost var turnsMade: nat

    ghost predicate Valid()
      reads this
    {
      && Waiting(queue, latest, offset) && WellPublished(published, readings, offsets, latest, offset)
      && Accounted(scheduled, published, queue)
      && latest <= nextBase && (forall i :: 0 <= i < |nextEpisode| ==> latest <= nextEpisode[i])
      && (maxEvents > 0 ==> |published| <= maxEvents)
    }

    constructor (clock: Clock, maxEvents: nat, deadline: Option<int>, gaps: seq<nat>, draws: seq<Episode>, bases: seq<Base>)
      ensures Valid() && this.clock == clock && this.maxEvents == maxEvents
      ensures this.deadline == deadline && this.draws == draws && this.bases == bases
      ensures published == [] && queue == [] && scheduled == [] && offset == 0
      ensures nextBase == clock.time && |nextEpisode| == |gaps|
      ensures forall i :: 0 <= i < |gaps| ==> nextEpisode[i] == clock.time + gaps[i]
    {
      var start := clock.time;
      this.clock, this.maxEvents, this.deadline, this.draws, this.bases := clock, maxEvents, deadline, draws, bases;
      queue, published, nextBase, episodes, clockJumps := [], [], start, 0, 0;
      scheduled, readings, offsets, latest, offset, turnsMade := [], [], [], start, 0, 0;
      nextEpisode := Moved(gaps, start);
      new;
      MovedIs(gaps, start);
      assert multiset(scheduled) == multiset(Plans(published)) + multiset(Plans(queue));
    }

    predicate LimitReached()
      reads this
    {
      maxEvents > 0 && |published| >= maxEvents
    }

    /** No episode is due by the next base arrival. */
    predicate Spawned()
      reads this
    {
      forall i :: 0 <= i < |nextEpisode| ==> nextBase < nextEpisode[i]
    }

    /** Moves everything that is scheduled forward by the same time. */
    method SkipAhead(behind: nat)
      requires Valid()
      modifies this`queue, this`nextBase, this`nextEpisode, this`clockJumps, this`offset
      ensures Valid() && offset == old(offset) + behind && nextBase == old(nextBase) + behind
      ensures queue == Shifted(old(queue), behind) && nextEpisode == Moved(old(nextEpisode), behind)
    {
      hide Waiting, WellPublished, Accounted, Shifted, Moved, Plans;
      clockJumps := clockJumps + 1;
      ShiftedWaits(queue, behind, latest, offset);
      JumpKeepsPublished(published, readings, offsets, latest, offset, behind);
      SamePlans(scheduled, published, queue, Shifted(queue, behind));
      MovedIs(nextEpisode, behind);
      queue, nextBase, nextEpisode, offset := Shifted(queue, behind), nextBase + behind, Moved(nextEpisode, behind), offset + behind;
    }

    /** Queues the events of an episode that starts at `start`. */
    method ScheduleEpisode(episode: Episode, start: int)
      requires Valid() && latest <= start
      modifies this`queue, this`episodes, this`scheduled
      ensures Valid() && episodes == old(episodes) + 1
      ensures queue == old(queue) + EventsOf(episode.hops, start, offset)
      ensures |queue| == |old(queue)| + |episode.hops|
      ensures forall k :: 0 <= k < |episode.hops| ==> IsEvent(queue[|old(queue)| + k], episode.hops[k].id,
                                                              start + episode.hops[k].offset, episode.hops[k].labelled)
    {
      hide Waiting, WellPublished, Accounted, OnSchedule, EventOf, EventsOf, IsEvent;
      NoHops(start, offset);
      for i := 0 to |episode.hops|
        invariant Valid() && episodes == old(episodes)
        invariant queue == old(queue) + EventsOf(episode.hops[..i], start, offset)
      {
        var hop := episode.hops[i];
        var e := EventOf(hop.id, start + hop.offset, hop.labelled, offset);
        EventIsOnSchedule(hop.id, start + hop.offset, hop.labelled, offset);
        QueueOne(queue, e, latest, offset, scheduled, published);
        EventsOfSnoc(episode.hops, i, start, offset);
        queue, scheduled := queue + [e], scheduled + [e.planned];
      }
      assert episode.hops[..|episode.hops|] == episode.hops;
      EventsAre(episode.hops, start, offset, |episode.hops|);
      episodes := episodes + 1;
    }

    /**
     Schedules every episode that is due by the next base arrival, each from when its injector was due; false if the
     draws ran out.
     */
    method SpawnDue() returns (drawn: bool, ghost taken: seq<Episode>, ghost which: seq<nat>)
      requires Valid()
      modifies this`queue, this`episodes, this`scheduled, this`nextEpisode, this`draws
      ensures Valid() && if drawn then Spawned() else draws == []
      ensures old(draws) == taken + draws && |which| == |taken| && episodes == old(episodes) + |taken|
      ensures nextEpisode == DueAfter(old(nextEpisode), taken, which)
      ensures queue == old(queue) + AllEvents(old(nextEpisode), taken, which, offset)
      ensures forall j :: 0 <= j < |which| ==> which[j] < |nextEpisode|
    {
      hide Waiting, WellPublished, Accounted, DueAfter, AllEvents, EventsOf;
      taken, which := [], [];
      NothingDrawn(nextEpisode, offset);
      var i := 0;
      while i < |nextEpisode|
        invariant Valid() && i <= |nextEpisode| == |old(nextEpisode)|
        invariant forall j :: 0 <= j < i ==> nextBase < nextEpisode[j]
        invariant old(draws) == taken + draws && |which| == |taken| && episodes == old(episodes) + |taken|
        invariant nextEpisode == DueAfter(old(nextEpisode), taken, which)
        invariant queue == old(queue) + AllEvents(old(nextEpisode), taken, which, offset)
        invariant forall j :: 0 <= j < |which| ==> which[j] < |nextEpisode|
        decreases |old(nextEpisode)| - i, |draws|
      {
        if nextEpisode[i] > nextBase {
          i := i + 1;
        } else if draws == [] {
          drawn := false;
          return;
        } else {
          var episode := draws[0];
          SpawnOne(old(queue), old(nextEpisode), taken, which, offset, episode, i);
          draws := draws[1..];
          ScheduleEpisode(episode, nextEpisode[i]);
          nextEpisode := nextEpisode[i := nextEpisode[i] + episode.gap];
          taken, which := taken + [episode], which + [i];
        }
      }
      drawn := true;
    }

    /** Takes out an earliest queued event and publishes it. */
    method PublishEvent(k: nat, now: int)
      requires Valid() && Spawned() && !LimitReached() && k < |queue| && queue[k].at <= nextBase
      requires (forall j :: 0 <= j < |queue| ==> queue[k].at <= queue[j].at) && now - queue[k].at <= MAX_BEHIND
      modifies this`queue, this`published, this`readings, this`offsets, this`latest
      ensures Valid() && queue == old(queue[..k] + queue[k + 1..]) && published == old(published) + [old(queue[k])]
      ensures readings == old(readings) + [now]
    {
      hide WellPublished, Accounted, OnSchedule, Waiting;
      var e, rest := queue[k], queue[..k] + queue[k + 1..];
      PublishQueued(queue, k, latest, offset, scheduled, published);
      WaitingAt(queue, k, latest, offset);
      PublishOne(published, readings, offsets, latest, offset, e, now);
      queue, published, readings, offsets, latest := rest, published + [e], readings + [now], offsets + [offset], e.at;
    }

    /** Puts an earliest event that was found stale back. */
    method PutBack(k: nat, now: int)
      requires Valid() && k < |queue| && now - queue[k].at > MAX_BEHIND
      requires forall j :: 0 <= j < |queue| ==> queue[k].at <= queue[j].at
      modifies this`queue
      ensures Valid() && queue == old(queue[..k] + queue[k + 1..] + [queue[k]])
      ensures HasStale(queue, now) && (nextBase - old(queue[k]).at > MAX_BEHIND ==> Jams(queue, nextBase, now))
    {
      hide WellPublished, Accounted, OnSchedule, Waiting, HasStale, Jams;
      PublishQueued(queue, k, latest, offset, scheduled, published);
      StaleAtEnd(queue[..k] + queue[k + 1..], queue[k], nextBase, now);
      queue := queue[..k] + queue[k + 1..] + [queue[k]];
    }

    /** Publishes the queued events that are due by the next base arrival; true if the clock jumped meanwhile. */
    method PublishDue() returns (resync: bool)
      requires Valid() && Spawned()
      modifies this`queue, this`published, this`readings, this`offsets, this`latest, clock
      ensures Valid() && clock.time >= old(clock.time) && old(published) <= published
      ensures ReadBetween(old(readings), readings, old(clock.time), clock.time)
      ensures !resync && !LimitReached() ==> NothingDue()
      ensures resync ==> HasStale(queue, clock.time) && HasStale(old(queue), clock.time)
      ensures LimitReached() && published == old(published) ==> old(LimitReached())
      ensures old(HasStale(queue, clock.time)) && old(clock.time) - MAX_BEHIND <= nextBase ==>
                published == old(published) && (resync || LimitReached())
      ensures old(Jams(queue, nextBase, clock.time)) ==>
                Jams(queue, nextBase, clock.time) && published == old(published) && (resync || LimitReached())
    {
      hide WellPublished, Accounted, OnSchedule, Waiting, HasStale, Jams, AllFrom;
      ghost var t0 := clock.time;
      ghost var stuck := HasStale(queue, t0) && t0 - MAX_BEHIND <= nextBase;
      ghost var jammed := Jams(queue, nextBase, t0);
      resync := false;
      FromItself(queue);
      while queue != [] && !LimitReached()
        invariant Valid() && clock.time >= t0 && old(published) <= published
        invariant ReadBetween(old(readings), readings, t0, clock.time)
        invariant stuck ==> published == old(published) && HasStale(queue, t0)
        invariant jammed ==> published == old(published) && Jams(queue, nextBase, t0)
        invariant AllFrom(queue, old(queue))
        decreases |queue|
      {
        var k := Earliest(queue);
        EarliestIsStalest(queue, k, nextBase, t0);
        if queue[k].at > nextBase {
          return;
        }
        clock.SleepUntil(queue[k].at);
        var now := clock.Now();
        if now - queue[k].at > MAX_BEHIND {
          StaleWithin(queue, old(queue), k, now);
          PutBack(k, now);
          resync := true;
          return;
        }
        FromWithout(queue, old(queue), k);
        PublishEvent(k, now);
      }
      NothingQueued(nextBase, t0);
      StaysJammed(queue, queue, nextBase, t0, clock.time);
    }

    predicate NothingDue()
      reads this
    {
      forall k :: 0 <= k < |queue| ==> nextBase < queue[k].at
    }

    /** Publishes the base arrival that is due now. */
    method PublishBase(base: Base, now: int)
      requires Valid() && Spawned() && NothingDue() && !LimitReached() && now - nextBase <= MAX_BEHIND
      modifies this`nextBase, this`published, this`scheduled, this`readings, this`offsets, this`latest
      ensures Valid() && published == old(published) + [EventOf(base.id, old(nextBase), false, offset)]
      ensures IsEvent(published[|old(published)|], base.id, old(nextBase), false)
      ensures nextBase == old(nextBase) + base.gap && readings == old(readings) + [now]
    {
      hide WellPublished, Accounted, OnSchedule;
      var e := EventOf(base.id, nextBase, false, offset);
      EventIsOnSchedule(base.id, nextBase, false, offset);
      PublishOne(published, readings, offsets, latest, offset, e, now);
      PublishNow(e, scheduled, published, queue);
      published, scheduled := published + [e], scheduled + [e.planned];
      readings, offsets, latest := readings + [now], offsets + [offset], nextBase;
      nextBase := nextBase + base.gap;
    }

    /**
     Skips ahead by `behind` if the schedule is too far behind the clock, then spawns what is due; false if the draws ran
     out. After a skip something is stale exactly if, before it, an event queued or of a spawned episode was due too long
     before the next base arrival.
     */
    method CatchUp() returns (drawn: bool, ghost behind: nat, ghost taken: seq<Episode>, ghost which: seq<nat>)
      requires Valid()
      modifies this`queue, this`nextBase, this`nextEpisode, this`clockJumps, this`offset
      modifies this`episodes, this`scheduled, this`draws, this`turnsMade, clock
      ensures turnsMade == old(turnsMade) + 1
      ensures Valid() && clock.time >= old(clock.time) && if drawn then Spawned() else draws == []
      ensures old(draws) == taken + draws && |which| == |taken| && forall j :: 0 <= j < |which| ==> which[j] < |nextEpisode|
      ensures behind == if clock.time - old(nextBase) > 5_000_000 then clock.time - old(nextBase) else 0
      ensures nextBase == old(nextBase) + behind && offset == old(offset) + behind
      ensures nextEpisode == DueAfter(Moved(old(nextEpisode), behind), taken, which)
      ensures queue == Shifted(old(queue), behind) + AllEvents(Moved(old(nextEpisode), behind), taken, which, offset)
      ensures behind > 0 ==>
                (HasStale(queue, clock.time) <==>
                 FarAhead(old(queue) + AllEvents(old(nextEpisode), taken, which, old(offset)), old(nextBase)))
      ensures old(HasStale(queue, clock.time)) && clock.time <= old(nextBase) + MAX_BEHIND ==> HasStale(queue, clock.time)
      ensures Jams(old(queue) + AllEvents(old(nextEpisode), taken, which, old(offset)), old(nextBase), old(clock.time)) ==>
                Jams(queue, nextBase, clock.time)
    {
      hide WellPublished, Accounted, OnSchedule, Waiting, HasStale, FarAhead, Jams, Shifted, Moved, AllEvents, DueAfter;
      var now := clock.Now();
      NoSkip(queue, nextEpisode);
      behind, turnsMade := 0, turnsMade + 1;
      if now - nextBase > MAX_BEHIND {
        behind := now - nextBase;
        SkipAhead(now - nextBase);
      }
      drawn, taken, which := SpawnDue();
      if behind > 0 {
        SkipAndSpawnClearsIff(old(queue), old(nextEpisode), taken, which, old(offset), old(nextBase), now, 0);
      }
      StaysStale(old(queue), queue, old(clock.time), clock.time);
      SpawnStaysJammed(old(queue), old(nextEpisode), taken, which, old(offset), old(nextBase), old(clock.time), now, behind);
    }

    /** Waits for the next base arrival and publishes it, unless the clock jumped meanwhile or the draws ran out. */
    method NextBase() returns (more: bool)
      requires Valid() && Spawned() && NothingDue() && !LimitReached()
      modifies this`nextBase, this`published, this`scheduled, this`readings, this`offsets, this`latest, this`bases, clock
      ensures Valid() && clock.time >= old(clock.time) && old(published) <= published
      ensures !more ==> bases == []
      ensures more && published == old(published) ==> clock.time - nextBase > MAX_BEHIND && nextBase == old(nextBase)
      ensures ReadBetween(old(readings), readings, old(clock.time), clock.time)
      ensures published == old(published) <==> bases == old(bases)
      ensures published != old(published) ==> more && |published| == |old(published)| + 1
      ensures Consumes(old(bases), bases, old(published), published, old(nextBase), nextBase)
    {
      hide WellPublished, Accounted, OnSchedule, Waiting;
      clock.SleepUntil(nextBase);
      var now := clock.Now();
      if now - nextBase > MAX_BEHIND {
        return true;
      }
      if bases == [] {
        return false;
      }
      PublishBase(bases[0], now);
      bases := bases[1..];
      more := true;
    }

    /** Publishes what is queued and due, and then the next base arrival unless something was found too far behind. */
    method Serve() returns (more: bool)
      requires Valid() && Spawned() && !LimitReached()
      modifies this`queue, this`nextBase, this`published, this`scheduled, this`readings, this`offsets, this`latest
      modifies this`bases, clock
      ensures Valid() && clock.time >= old(clock.time) && old(published) <= published
      ensures ReadBetween(old(readings), readings, old(clock.time), clock.time)
      ensures !more ==> bases == []
      ensures more && bases == old(bases) ==>
                LimitReached() || HasStale(queue, clock.time) || clock.time - nextBase > MAX_BEHIND
      ensures more && published == old(published) ==>
                && (HasStale(queue, clock.time) || clock.time - nextBase > MAX_BEHIND)
                && (HasStale(old(queue), clock.time) || clock.time - old(nextBase) > MAX_BEHIND)
      ensures old(HasStale(queue, clock.time)) && old(clock.time - MAX_BEHIND <= nextBase) ==> published == old(published)
      ensures old(Jams(queue, nextBase, clock.time)) ==> Jams(queue, nextBase, clock.time) && published == old(published)
      ensures Consumes(old(bases), bases, old(published), published, old(nextBase), nextBase)
    {
      hide WellPublished, Accounted, OnSchedule, Waiting, HasStale, Jams, IsEvent;
      var resync := PublishDue();
      if resync || LimitReached() {
        return true;
      }
      more := NextBase();
    }

    /**
     One turn of the loop; false when it is over. A turn that publishes nothing found the schedule too far behind the
     clock. While some queued event is too far behind and the next base arrival is not, no turn publishes anything: the
     event is taken out, found stale and put back. Once it is that far behind the next base arrival too, this is for
     good, because skipping ahead moves both. So a turn that skips ahead by `behind` jams the loop if an event queued, or of
     an episode spawned in it, was due too long before the next base arrival; otherwise it publishes something unless it
     ends the loop or its sleeps are late. A turn at or after the deadline, or with the limit reached, does nothing and ends
     the loop; one that gets to the end publishes the next base arrival at its time, and the one after follows its gap.
     */
    method Turn() returns (more: bool, ghost behind: nat, ghost taken: seq<Episode>, ghost which: seq<nat>)
      requires Valid()
      modifies this, clock
      ensures Valid() && clock.time >= old(clock.time) && old(published) <= published
      ensures old(turnsMade) <= turnsMade <= old(turnsMade) + 1 && (more ==> turnsMade == old(turnsMade) + 1)
      ensures !more ==> (maxEvents > 0 && |old(published)| >= maxEvents) || (deadline.Some? && deadline.value <= clock.time)
                        || draws == [] || bases == []
      ensures more ==> published != old(published) || HasStale(queue, clock.time) || clock.time - nextBase > MAX_BEHIND
      ensures old(HasStale(queue, clock.time)) && clock.time <= old(nextBase) + MAX_BEHIND ==> published == old(published)
      ensures old(Jams(queue, nextBase, clock.time)) ==> Jams(queue, nextBase, clock.time) && published == old(published)
      ensures old(draws) == taken + draws && |which| == |taken| && offset == old(offset) + behind
      ensures old((deadline.Some? && deadline.value <= clock.time) || (maxEvents > 0 && |published| >= maxEvents)) ==>
                && !more && behind == 0 && taken == [] && queue == old(queue) && published == old(published)
                && nextBase == old(nextBase) && nextEpisode == old(nextEpisode) && bases == old(bases)
      ensures ReadBetween(old(readings), readings, old(clock.time), clock.time)
      ensures Consumes(old(bases), bases, old(published), published, old(nextBase) + behind, nextBase)
      ensures more && bases == old(bases) ==>
                (maxEvents > 0 && |published| >= maxEvents) || HasStale(queue, clock.time) || clock.time - nextBase > MAX_BEHIND
      ensures Jams(old(queue) + AllEvents(old(nextEpisode), taken, which, old(offset)), old(nextBase), old(clock.time)) ==>
                Jams(queue, nextBase, clock.time) && published == old(published)
      ensures behind > 0 ==>
                var events := old(queue) + AllEvents(old(nextEpisode), taken, which, old(offset));
                var late := clock.time - (old(nextBase) + behind);
                && late >= 0
                && (FarAhead(events, old(nextBase)) ==> Jams(queue, nextBase, clock.time) && published == old(published))
                && (more && late <= MAX_BEHIND && !FarAhead(events, old(nextBase) + late) ==> published != old(published))
    {
      hide WellPublished, Accounted, OnSchedule, Waiting, HasStale, FarAhead, Jams, Shifted, Moved, AllEvents, DueAfter, IsEvent,
           ReadBetween, Consumes;
      behind, taken, which := 0, [], [];
      var now := clock.Now();
      NothingDrawn(nextEpisode, offset);
      assert queue + [] == queue;
      NothingUsed(bases, published, nextBase);
      NothingRead(readings, old(clock.time), now);
      StaysJammed(queue, queue, nextBase, old(clock.time), clock.time);
      if (deadline.Some? && now >= deadline.value) || LimitReached() {
        return false, behind, taken, which;
      }
      StaysStale(queue, queue, old(clock.time), clock.time);
      var drawn;
      drawn, behind, taken, which := CatchUp();
      ghost var t1, events := clock.time, old(queue) + AllEvents(old(nextEpisode), taken, which, old(offset));
      StaysJammed(old(queue), events, old(nextBase), old(clock.time), old(clock.time));
      StaysJammed(events, events, old(nextBase), old(clock.time), now);
      if behind > 0 {
        StaleBeforeArrivalJams(queue, nextBase, clock.time);
      }
      if !drawn {
        NothingUsed(bases, published, nextBase);
        NothingRead(readings, old(clock.time), clock.time);
        return false, behind, taken, which;
      }
      more := Serve();
      ReadSince(old(readings), readings, old(clock.time), t1, clock.time);
      if behind > 0 {
        SkipAndSpawnClearsIff(old(queue), old(nextEpisode), taken, which, old(offset), old(nextBase), t1, clock.time - t1);
      }
    }

    /**
     As many turns as asked for, unless the loop ends before: whatever the clock and the draws, what is published keeps to
     `Valid`, and a jammed loop never publishes anything again. The base arrivals `used` are published in order, the k-th as event number `places[k]`, and
     they follow each other by the gaps drawn and the clock jumps. Only the last of them can come at or after the
     deadline, and a run that starts then does nothing.
     */
    method Run(turns: nat) returns (ghost used: seq<Base>, ghost places: seq<nat>)
      requires Valid()
      modifies this, clock
      ensures Valid() && old(published) <= published && old(readings) <= readings && |readings| == |published|
      ensures forall i, j :: 0 <= i < j < |published| ==> published[i].ts <= published[j].ts
      ensures forall i :: 0 <= i < |published| ==> readings[i] - published[i].at <= 5_000_000
      ensures maxEvents > 0 ==> |published| <= maxEvents
      ensures old(Jams(queue, nextBase, clock.time)) ==> Jams(queue, nextBase, clock.time) && published == old(published)
      ensures turnsMade <= old(turnsMade) + turns
      ensures turnsMade < old(turnsMade) + turns ==>
                (maxEvents > 0 && |published| >= maxEvents) || (deadline.Some? && deadline.value <= clock.time)
                || draws == [] || bases == []
      ensures old(bases) == used + bases && nextBase == old(nextBase) + (offset - old(offset)) + GapsOf(used)
      ensures PlacedAt(used, places, published, |old(published)|)
      ensures deadline.Some? ==> InTime(places, readings, |old(published)|, deadline.value)
      ensures old((deadline.Some? && deadline.value <= clock.time) || (maxEvents > 0 && |published| >= maxEvents)) ==>
                queue == old(queue) && published == old(published) && nextBase == old(nextBase) && nextEpisode == old(nextEpisode)
    {
      hide Waiting, WellPublished, Accounted, Jams, HasStale, FarAhead, GapsOf, PlacedAt, InTime, OnSchedule, AllEvents, Consumes;
      TimesInOrder(published, readings, offsets, latest, offset);
      used, places := [], [];
      ghost var over := (deadline.Some? && deadline.value <= clock.time) || LimitReached();
      NoGaps();
      NothingPlaced(published, readings, if deadline.Some? then deadline.value else 0);
      for i := 0 to turns
        invariant Valid() && old(published) <= published && old(readings) <= readings && |readings| == |published|
        invariant clock.time >= old(clock.time) && turnsMade == old(turnsMade) + i
        invariant old(Jams(queue, nextBase, clock.time)) ==> Jams(queue, nextBase, clock.time) && published == old(published)
        invariant old(bases) == used + bases && nextBase == old(nextBase) + (offset - old(offset)) + GapsOf(used)
        invariant forall i :: |old(readings)| <= i < |readings| ==> readings[i] <= clock.time
        invariant PlacedAt(used, places, published, |old(published)|)
        invariant deadline.Some? ==> InTime(places, readings, |old(published)|, deadline.value)
        invariant over ==> i == 0 && queue == old(queue) && published == old(published) && nextBase == old(nextBase)
        invariant over ==> nextEpisode == old(nextEpisode)
      {
        ghost var bases0, published0, readings0, nextBase0, time0 := bases, published, readings, nextBase, clock.time;
        var more, behind, taken, which := Turn();
        TimesInOrder(published, readings, offsets, latest, offset);
        used, places := TurnPlaced(used, places, |old(published)|, bases0, bases, published0, published, readings0, readings,
                                   nextBase0 + behind, nextBase, deadline, time0);
        if !more {
          break;
        }
      }
      TimesInOrder(published, readings, offsets, latest, offset);
    }
  }

  /** The base arrivals were published at these places, after the first `from` events, in order. */
  ghost predicate PlacedAt(used: seq<Base>, places: seq<nat>, published: seq<Event>, from: nat) {
    && |places| == |used|
    && (forall k :: 0 <= k < |used| ==> from <= places[k] < |published|
                                        && IsEvent(published[places[k]], used[k].id, published[places[k]].at, false))
    && forall k, l :: 0 <= k < l < |places| ==> places[k] < places[l]
  }

  /** Each of these but the last, and all that was published before it, came before the deadline. */
  ghost predicate InTime(places: seq<nat>, readings: seq<int>, from: nat, deadline: int) {
    forall k, i :: 0 <= k < |places| - 1 && from <= i <= places[k] && i < |readings| ==> readings[i] < deadline
  }

  lemma NothingPlaced(published: seq<Event>, readings: seq<int>, deadline: int)
    ensures PlacedAt([], [], published, |published|) && InTime([], readings, |published|, deadline)
  {
  }

  lemma StaysPlaced(used: seq<Base>, places: seq<nat>, published: seq<Event>, published': seq<Event>, readings: seq<int>,
                    readings': seq<int>, from: nat)
    requires PlacedAt(used, places, published, from) && published <= published' && readings <= readings'
    requires |readings| == |published|
    ensures PlacedAt(used, places, published', from) && (forall k :: 0 <= k < |places| ==> places[k] < |published|)
    ensures forall deadline :: InTime(places, readings, from, deadline) ==> InTime(places, readings', from, deadline)
  {
    hide IsEvent;
  }

  lemma OneMorePlaced(used: seq<Base>, places: seq<nat>, published: seq<Event>, from: nat, base: Base, at: int)
    requires PlacedAt(used, places, published, from) && |published| > from
    requires forall k :: 0 <= k < |places| ==> places[k] < |published| - 1
    requires IsEvent(published[|published| - 1], base.id, at, false)
    ensures PlacedAt(used + [base], places + [|published| - 1], published, from)
  {
    assert IsEvent(published[|published| - 1], base.id, published[|published| - 1].at, false);
    hide IsEvent;
  }

  /** One turn more: if it used a base arrival, this was published last, and the turn began before the deadline. */
  lemma TurnPlaced(used: seq<Base>, places: seq<nat>, from: nat, bases: seq<Base>, bases': seq<Base>, published: seq<Event>,
                   published': seq<Event>, readings: seq<int>, readings': seq<int>, nextBase: int, nextBase': int,
                   deadline: Option<int>, time: int)
    returns (used': seq<Base>, places': seq<nat>)
    requires PlacedAt(used, places, published, from) && (deadline.Some? ==> InTime(places, readings, from, deadline.value))
    requires published <= published' && readings <= readings' && |readings| == |published| && |readings'| == |published'|
    requires from <= |published| && Consumes(bases, bases', published, published', nextBase, nextBase')
    requires bases' != bases && deadline.Some? ==> time < deadline.value
    requires forall i :: from <= i < |readings| ==> readings[i] <= time
    ensures PlacedAt(used', places', published', from) && (deadline.Some? ==> InTime(places', readings', from, deadline.value))
    ensures used' + bases' == used + bases && nextBase' == nextBase + GapsOf(used') - GapsOf(used)
  {
    hide IsEvent, GapsOf, PlacedAt, InTime;
    used', places' := used, places;
    StaysPlaced(used, places, published, published', readings, readings', from);
    if bases' != bases {
      GapsSnoc(used, bases[0]);
      OneMorePlaced(used, places, published', from, bases[0], nextBase);
      if deadline.Some? {
        OneMoreInTime(places, readings, readings', from, deadline.value, time);
      }
      used', places' := used + [bases[0]], places + [|published'| - 1];
      assert used' + bases' == used + ([bases[0]] + bases');
    }
  }

  lemma TimesInOrder(published: seq<Event>, readings: seq<int>, offsets: seq<int>, latest: int, offset: int)
    requires WellPublished(published, readings, offsets, latest, offset)
    ensures forall i, j :: 0 <= i < j < |published| ==> published[i].ts <= published[j].ts
    ensures |readings| == |published| && forall i :: 0 <= i < |published| ==> readings[i] - published[i].at <= 5_000_000
  {
  }

  lemma OneMoreInTime(places: seq<nat>, readings: seq<int>, readings': seq<int>, from: nat, deadline: int, time: int)
    requires readings < readings' && forall k :: 0 <= k < |places| ==> places[k] < |readings|
    requires time < deadline && forall i :: from <= i < |readings| ==> readings[i] <= time
    ensures InTime(places + [|readings'| - 1], readings', from, deadline)
  {
  }

  /**
   The base arrivals used: none, and then the next is due when it was; or the first one, published last, at the time it
   was due, and then the next is due after its gap.
   */
  ghost predicate Consumes(bases: seq<Base>, bases': seq<Base>, published: seq<Event>, published': seq<Event>, nextBase: int,
                           nextBase': int)
  {
    || (bases' == bases && nextBase' == nextBase)
    || (bases != [] && bases' == bases[1..] && |published'| > |published|
        && IsEvent(published'[|published'| - 1], bases[0].id, nextBase, false) && nextBase' == nextBase + bases[0].gap)
  }

  /** The readings so far stay, and the new ones were taken between the two times. */
  ghost predicate ReadBetween(before: seq<int>, readings: seq<int>, t: int, t': int) {
    before <= readings && forall i :: |before| <= i < |readings| ==> t <= readings[i] <= t'
  }

  lemma NothingUsed(bases: seq<Base>, published: seq<Event>, nextBase: int)
    ensures Consumes(bases, bases, published, published, nextBase, nextBase)
  {
  }

  lemma NothingRead(readings: seq<int>, t: int, t': int)
    ensures ReadBetween(readings, readings, t, t')
  {
  }

  lemma ReadSince(before: seq<int>, readings: seq<int>, earlier: int, t: int, t': int)
    requires ReadBetween(before, readings, t, t') && earlier <= t
    ensures ReadBetween(before, readings, earlier, t')
  {
  }

  function GapsOf(bases: seq<Base>): int {
    if bases == [] then 0 else GapsOf(bases[..|bases| - 1]) + bases[|bases| - 1].gap
  }

  lemma NoGaps()
    ensures GapsOf([]) == 0
  {
  }

  lemma GapsSnoc(bases: seq<Base>, base: Base)
    ensures GapsOf(bases + [base]) == GapsOf(bases) + base.gap
  {
    assert (bases + [base])[..|bases|] == bases;
  }

  lemma EventIsOnSchedule(id: int, at: int, labelled: bool, offset: int)
    ensures OnSchedule(EventOf(id, at, labelled, offset), offset) && EventOf(id, at, labelled, offset).at == at
    ensures IsEvent(EventOf(id, at, labelled, offset), id, at, labelled)
  {
  }

  lemma StaysStale(queue: seq<Event>, queue': seq<Event>, t: int, t': int)
    requires t <= t'
    ensures HasStale(queue, t) && queue <= queue' ==> HasStale(queue', t')
  {
    if HasStale(queue, t) && queue <= queue' {
      var k :| 0 <= k < |queue| && t - queue[k].at > MAX_BEHIND;
      assert queue'[k] == queue[k];
    }
  }

  predicate AllFrom(queue: seq<Event>, queue0: seq<Event>) {
    forall e :: e in queue ==> e in queue0
  }

  lemma FromItself(queue: seq<Event>)
    ensures AllFrom(queue, queue)
  {
  }

  lemma FromWithout(queue: seq<Event>, queue0: seq<Event>, k: nat)
    requires k < |queue| && AllFrom(queue, queue0)
    ensures AllFrom(queue[..k] + queue[k + 1..], queue0)
  {
  }

  lemma StaleWithin(queue: seq<Event>, queue0: seq<Event>, k: nat, now: int)
    requires k < |queue| && AllFrom(queue, queue0) && now - queue[k].at > MAX_BEHIND
    ensures HasStale(queue0, now)
  {
    assert queue[k] in queue0;
  }

  lemma EarliestIsStalest(queue: seq<Event>, k: nat, nextBase: int, now: int)
    requires k < |queue| && forall j :: 0 <= j < |queue| ==> queue[k].at <= queue[j].at
    ensures HasStale(queue, now) <==> now - queue[k].at > MAX_BEHIND
    ensures Jams(queue, nextBase, now) <==> now - queue[k].at > MAX_BEHIND && nextBase - queue[k].at > MAX_BEHIND
  {
  }

  lemma NothingQueued(nextBase: int, now: int)
    ensures !HasStale([], now) && !Jams([], nextBase, now)
  {
  }

  lemma StaleAtEnd(rest: seq<Event>, e: Event, nextBase: int, now: int)
    requires now - e.at > MAX_BEHIND
    ensures HasStale(rest + [e], now) && (nextBase - e.at > MAX_BEHIND ==> Jams(rest + [e], nextBase, now))
  {
    assert (rest + [e])[|rest|] == e;
  }

  lemma WaitingAt(queue: seq<Event>, k: nat, latest: int, offset: int)
    requires Waiting(queue, latest, offset) && k < |queue|
    ensures OnSchedule(queue[k], offset) && latest <= queue[k].at
  {
  }

  function Moved(times: seq<int>, delta: int): seq<int> {
    if times == [] then [] else Moved(times[..|times| - 1], delta) + [times[|times| - 1] + delta]
  }

  lemma {:induction false} MovedIs(times: seq<int>, delta: int)
    ensures |Moved(times, delta)| == |times| && forall i :: 0 <= i < |times| ==> Moved(times, delta)[i] == times[i] + delta
  {
    if times != [] {
      MovedIs(times[..|times| - 1], delta);
    }
  }

  lemma SamePlans(scheduled: seq<Planned>, published: seq<Event>, queue: seq<Event>, queue': seq<Event>)
    requires Accounted(scheduled, published, queue) && Plans(queue') == Plans(queue)
    ensures Accounted(scheduled, published, queue')
  {
  }
}

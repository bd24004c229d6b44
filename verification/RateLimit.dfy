/** Sliding-window rate limits: one window first, then four of them that accept a call together or not at all. */
module RateLimit {
  import opened Collections

  /** How many of the accepted calls are, at time `t`, less than `seconds` old. */
  function Recent(accepted: seq<real>, seconds: int, t: real): nat {
    if accepted == [] then 0
    else
      Recent(accepted[..|accepted| - 1], seconds, t) + if t - accepted[|accepted| - 1] < seconds as real then 1 else 0
  }

  /** A call at time `t` would stay within the limit. A limit of zero or less is no limit. */
  predicate Allows(accepted: seq<real>, limit: int, seconds: int, t: real) {
    limit <= 0 || Recent(accepted, seconds, t) < limit
  }

  ghost predicate Sorted(times: seq<real>) {
    forall i, j :: 0 <= i < j < |times| ==> times[i] <= times[j]
  }

  /** Any call comes at least `seconds` after the call `limit` places before it. */
  ghost predicate Spaced(accepted: seq<real>, limit: int, seconds: int) {
    limit > 0 ==> forall i :: 0 <= i < |accepted| - limit ==> accepted[i + limit] - accepted[i] >= seconds as real
  }

  // ---------- what spacing means: no interval of the window's length holds more than the limit ----------

  function CountIn(times: seq<real>, lo: real, hi: real): nat {
    if times == [] then 0
    else
      var t := times[|times| - 1];
      CountIn(times[..|times| - 1], lo, hi) + if lo <= t < hi then 1 else 0
  }

  lemma {:induction false} CountAfter(times: seq<real>, lo: real, hi: real, d: nat)
    requires d <= |times| && forall i :: 0 <= i < d ==> times[i] < lo
    ensures CountIn(times, lo, hi) <= |times| - d
  {
    if |times| > d {
      CountAfter(times[..|times| - 1], lo, hi, d);
    } else if times != [] {
      CountAfter(times[..|times| - 1], lo, hi, d - 1);
    }
  }

  /** Every half-open interval of the window's length holds at most `limit` accepted calls. */
  lemma {:induction false} IntervalHoldsLimit(accepted: seq<real>, limit: int, seconds: int, lo: real)
    requires Sorted(accepted) && limit > 0 && Spaced(accepted, limit, seconds)
    ensures CountIn(accepted, lo, lo + seconds as real) <= limit
  {
    var n := |accepted|;
    if n > 0 {
      IntervalHoldsLimit(accepted[..n - 1], limit, seconds, lo);
      if accepted[n - 1] < lo + seconds as real {
        if n > limit {
          assert accepted[n - 1 - limit + limit] - accepted[n - 1 - limit] >= seconds as real;
          forall i | 0 <= i < n - limit ensures accepted[i] < lo {
          }
          CountAfter(accepted, lo, lo + seconds as real, n - limit);
        } else {
          CountAfter(accepted, lo, lo + seconds as real, 0);
        }
      }
    }
  }

  // ---------- one window ----------

  lemma {:induction false} RecentIs(accepted: seq<real>, seconds: int, t: real, d: nat)
    requires d <= |accepted|
    requires forall i :: 0 <= i < d ==> t - accepted[i] >= seconds as real
    ensures Recent(accepted, seconds, t) <= |accepted| - d
    ensures (forall i :: d <= i < |accepted| ==> t - accepted[i] < seconds as real) ==> Recent(accepted, seconds, t) == |accepted| - d
  {
    if |accepted| > d {
      RecentIs(accepted[..|accepted| - 1], seconds, t, d);
    } else if accepted != [] {
      RecentIs(accepted[..|accepted| - 1], seconds, t, d - 1);
    }
  }

  lemma {:induction false} RecentAtLeast(accepted: seq<real>, seconds: int, t: real, d: nat)
    requires d <= |accepted| && forall i :: d <= i < |accepted| ==> t - accepted[i] < seconds as real
    ensures Recent(accepted, seconds, t) >= |accepted| - d
  {
    if |accepted| > d {
      RecentAtLeast(accepted[..|accepted| - 1], seconds, t, d);
    }
  }

  /** After the wait a call is allowed, and at no time until a second before its end. */
  ghost predicate IsWait(accepted: seq<real>, limit: int, seconds: int, now: real, wait: nat) {
    && (forall t :: t >= now + wait as real ==> Allows(accepted, limit, seconds, t))
    && forall t :: now <= t < now + wait as real - 1.0 ==> !Allows(accepted, limit, seconds, t)
  }

  lemma WaitForOldest(accepted: seq<real>, limit: int, seconds: int, now: real, wait: nat)
    requires 0 < limit <= |accepted| && Sorted(accepted)
    requires var rest := seconds as real - (now - accepted[|accepted| - limit]);
             rest > 0.0 && wait == Max(1, rest.Floor + 1)
    ensures IsWait(accepted, limit, seconds, now, wait)
  {
    hide Recent;
    var d := |accepted| - limit;
    forall t | t >= now + wait as real ensures Allows(accepted, limit, seconds, t) {
      RecentIs(accepted, seconds, t, d + 1);
    }
    forall t | now <= t < now + wait as real - 1.0 ensures !Allows(accepted, limit, seconds, t) {
      RecentAtLeast(accepted, seconds, t, d);
    }
  }

  lemma NoneAreSpaced(limit: int, seconds: int)
    ensures Sorted([]) && Spaced([], limit, seconds)
  {
  }

  /** A window without a limit records nothing. */
  function Booked(accepted: seq<real>, limit: int, now: real): seq<real> {
    accepted + if limit > 0 then [now] else []
  }

  class Window {
    const limit: int
    const seconds: int
    var hits: seq<real>
    /** All calls ever recorded, and the latest time the window was asked about. */
    ghost var accepted: seq<real>
    ghost var seen: real

    /** The hits are the latest accepted calls, and no other is less than `seconds` old. */
    ghost predicate Valid()
      reads this
    {
      && Sorted(accepted) && Spaced(accepted, limit, seconds)
      && (forall i :: 0 <= i < |accepted| ==> accepted[i] <= seen)
      && |hits| <= |accepted| && hits == accepted[|accepted| - |hits|..]
      && (forall i :: 0 <= i < |accepted| - |hits| ==> seen - accepted[i] >= seconds as real)
      && if limit > 0 then |hits| <= limit else accepted == []
    }

    constructor (limit: int, seconds: int)
      ensures Valid() && this.limit == limit && this.seconds == seconds && accepted == [] && seen == 0.0
    {
      this.limit, this.seconds := limit, seconds;
      hits, accepted, seen := [], [], 0.0;
      new;
      hide Sorted, Spaced;
      NoneAreSpaced(limit, seconds);
    }

    /** The next call at `now` may be recorded. */
    ghost predicate HasRoom(now: real)
      reads this
    {
      seen == now && (limit > 0 ==> |hits| < limit)
    }

    ghost predicate WaitsFor(now: real, wait: nat)
      reads this
    {
      IsWait(accepted, limit, seconds, now, wait)
    }

    ghost predicate AllowsAt(t: real)
      reads this
    {
      Allows(accepted, limit, seconds, t)
    }

    /** Drops the hits that are `seconds` old or older. */
    method Prune(now: real)
      requires Valid() && seen <= now
      modifies this`hits, this`seen
      ensures Valid() && seen == now && (hits != [] ==> now - hits[0] < seconds as real)
    {
      hide Sorted, Spaced;
      ghost var d: nat := |accepted| - |hits|;
      seen := now;
      while hits != [] && now - hits[0] >= seconds as real
        invariant seen == now && d <= |accepted| && hits == accepted[d..] && |hits| <= |old(hits)|
        invariant forall i :: 0 <= i < d ==> now - accepted[i] >= seconds as real
        decreases |hits|
      {
        assert accepted[d..][1..] == accepted[d + 1..];
        hits := hits[1..];
        d := d + 1;
      }
    }

    /**
     Zero if a call is allowed now. Otherwise a wait after which it is allowed, if no other call is accepted before,
     and no more than a second longer than needed: at no time until a second before its end is a call allowed.
     */
    method Wait(now: real) returns (wait: nat)
      requires Valid() && seen <= now && seconds > 0
      modifies this`hits, this`seen
      ensures Valid() && seen == now
      ensures wait == 0 <==> AllowsAt(now)
      ensures wait == 0 ==> HasRoom(now)
      ensures wait > 0 ==> WaitsFor(now, wait)
    {
      hide IsWait, Recent;
      if limit <= 0 {
        seen := now;
        return 0;
      }
      Prune(now);
      CountHits(now);
      if |hits| < limit {
        return 0;
      }
      wait := Max(1, (seconds as real - (now - hits[0])).Floor + 1);
      WaitForOldest(accepted, limit, seconds, now, wait);
    }

    lemma CountHits(now: real)
      requires Valid() && seen == now && (hits != [] ==> now - hits[0] < seconds as real)
      ensures Recent(accepted, seconds, now) == |hits|
    {
      hide Recent;
      RecentIs(accepted, seconds, now, |accepted| - |hits|);
    }

    /** Books a call that was just allowed. */
    method Record(now: real)
      requires Valid() && HasRoom(now)
      modifies this`hits, this`accepted
      ensures Valid() && accepted == Booked(old(accepted), limit, now)
    {
      if limit > 0 {
        ghost var n := |accepted|;
        if n >= limit {
          assert now - accepted[n - limit] >= seconds as real;
        }
        hits, accepted := hits + [now], accepted + [now];
      }
    }
  }

  // ---------- four windows together ----------

  /** The windows a call is checked against: of its client, and of the whole deployment. */
  datatype Group = Group(ipMinute: Window, ipDay: Window, globalMinute: Window, globalDay: Window)

  ghost predicate GroupValid(g: Group)
    reads g.ipMinute, g.ipDay, g.globalMinute, g.globalDay
  {
    && g.ipMinute.Valid() && g.ipDay.Valid() && g.globalMinute.Valid() && g.globalDay.Valid()
    && g.ipMinute.seconds > 0 && g.ipDay.seconds > 0 && g.globalMinute.seconds > 0 && g.globalDay.seconds > 0
    && g.ipMinute != g.ipDay && g.ipMinute != g.globalMinute && g.ipMinute != g.globalDay
    && g.ipDay != g.globalMinute && g.ipDay != g.globalDay && g.globalMinute != g.globalDay
  }

  ghost predicate GroupAllows(g: Group, t: real)
    reads g.ipMinute, g.ipDay, g.globalMinute, g.globalDay
  {
    g.ipMinute.AllowsAt(t) && g.ipDay.AllowsAt(t) && g.globalMinute.AllowsAt(t) && g.globalDay.AllowsAt(t)
  }

  ghost predicate SeenBy(g: Group, now: real)
    reads g.ipMinute, g.ipDay, g.globalMinute, g.globalDay
  {
    g.ipMinute.seen <= now && g.ipDay.seen <= now && g.globalMinute.seen <= now && g.globalDay.seen <= now
  }

  ghost predicate HasRoom(g: Group, now: real)
    reads g.ipMinute, g.ipDay, g.globalMinute, g.globalDay
  {
    && g.ipMinute.HasRoom(now) && g.ipDay.HasRoom(now)
    && g.globalMinute.HasRoom(now) && g.globalDay.HasRoom(now)
  }

  /** After the wait all four windows allow a call, and at no time until a second before its end do they. */
  ghost predicate IsGroupWait(g: Group, now: real, wait: nat)
    reads g.ipMinute, g.ipDay, g.globalMinute, g.globalDay
  {
    && (forall t :: t >= now + wait as real ==> GroupAllows(g, t))
    && forall t :: now <= t < now + wait as real - 1.0 ==> !GroupAllows(g, t)
  }

  lemma LongestWait(g: Group, now: real, w1: nat, w2: nat, w3: nat, w4: nat)
    requires (w1 == 0 <==> g.ipMinute.AllowsAt(now)) && (w1 > 0 ==> g.ipMinute.WaitsFor(now, w1))
    requires (w2 == 0 <==> g.ipDay.AllowsAt(now)) && (w2 > 0 ==> g.ipDay.WaitsFor(now, w2))
    requires (w3 == 0 <==> g.globalMinute.AllowsAt(now)) && (w3 > 0 ==> g.globalMinute.WaitsFor(now, w3))
    requires (w4 == 0 <==> g.globalDay.AllowsAt(now)) && (w4 > 0 ==> g.globalDay.WaitsFor(now, w4))
    ensures var wait := Max(Max(w1, w2), Max(w3, w4));
            && (wait == 0 <==> GroupAllows(g, now))
            && (wait > 0 ==> IsGroupWait(g, now, wait))
  {
    hide Allows;
    StaysAllowed(g.ipMinute, now);
    StaysAllowed(g.ipDay, now);
    StaysAllowed(g.globalMinute, now);
    StaysAllowed(g.globalDay, now);
  }

  /** What is allowed now is allowed at any later time, if nothing is accepted in between. */
  lemma StaysAllowed(w: Window, now: real)
    ensures w.AllowsAt(now) ==> forall t :: t >= now ==> w.AllowsAt(t)
  {
    forall t | t >= now ensures Recent(w.accepted, w.seconds, t) <= Recent(w.accepted, w.seconds, now) {
      RecentShrinks(w.accepted, w.seconds, now, t);
    }
  }

  lemma {:induction false} RecentShrinks(accepted: seq<real>, seconds: int, now: real, t: real)
    requires now <= t
    ensures Recent(accepted, seconds, t) <= Recent(accepted, seconds, now)
  {
    if accepted != [] {
      RecentShrinks(accepted[..|accepted| - 1], seconds, now, t);
    }
  }

  /** The longest of the four waits. */
  method WaitGroup(g: Group, now: real) returns (wait: nat)
    requires GroupValid(g) && SeenBy(g, now)
    modifies g.ipMinute`hits, g.ipDay`hits, g.globalMinute`hits, g.globalDay`hits
    modifies g.ipMinute`seen, g.ipDay`seen, g.globalMinute`seen, g.globalDay`seen
    ensures GroupValid(g) && SeenBy(g, now)
    ensures wait == 0 <==> GroupAllows(g, now)
    ensures wait == 0 ==> HasRoom(g, now)
    ensures wait > 0 ==> IsGroupWait(g, now, wait)
  {
    hide Allows, IsWait, IsGroupWait, GroupAllows, Window.Valid;
    var w1 := g.ipMinute.Wait(now);
    var w2 := g.ipDay.Wait(now);
    var w3 := g.globalMinute.Wait(now);
    var w4 := g.globalDay.Wait(now);
    wait := Max(Max(w1, w2), Max(w3, w4));
    LongestWait(g, now, w1, w2, w3, w4);
  }

  method RecordGroup(g: Group, now: real)
    requires GroupValid(g) && SeenBy(g, now) && HasRoom(g, now)
    modifies g.ipMinute`hits, g.ipDay`hits, g.globalMinute`hits, g.globalDay`hits
    modifies g.ipMinute`accepted, g.ipDay`accepted, g.globalMinute`accepted, g.globalDay`accepted
    ensures GroupValid(g) && SeenBy(g, now)
    ensures g.ipMinute.accepted == Booked(old(g.ipMinute.accepted), g.ipMinute.limit, now)
    ensures g.ipDay.accepted == Booked(old(g.ipDay.accepted), g.ipDay.limit, now)
    ensures g.globalMinute.accepted == Booked(old(g.globalMinute.accepted), g.globalMinute.limit, now)
    ensures g.globalDay.accepted == Booked(old(g.globalDay.accepted), g.globalDay.limit, now)
  {
    hide Window.Valid, Booked;
    g.ipMinute.Record(now);
    g.ipDay.Record(now);
    g.globalMinute.Record(now);
    g.globalDay.Record(now);
  }

  // ---------- the limiter ----------

  datatype Pair = Pair(minute: Window, day: Window)

  datatype Call<K> = Call(client: K, at: real)

  function TimesOf<K(==)>(calls: seq<Call<K>>, k: K): seq<real> {
    if calls == [] then []
    else TimesOf(calls[..|calls| - 1], k) + if calls[|calls| - 1].client == k then [calls[|calls| - 1].at] else []
  }

  function AllTimes<K>(calls: seq<Call<K>>): seq<real> {
    if calls == [] then [] else AllTimes(calls[..|calls| - 1]) + [calls[|calls| - 1].at]
  }

  lemma CallsSnoc<K>(calls: seq<Call<K>>, call: Call<K>, k: K)
    ensures AllTimes(calls + [call]) == AllTimes(calls) + [call.at]
    ensures TimesOf(calls + [call], k) == TimesOf(calls, k) + if call.client == k then [call.at] else []
  {
    assert (calls + [call])[..|calls|] == calls;
  }

  /** The calls a window counts: all of them for a window without owner, else those of its owner. */
  function Counted<K(==)>(calls: seq<Call<K>>, owner: Option<K>, limit: int): seq<real> {
    if limit <= 0 then [] else if owner.None? then AllTimes(calls) else TimesOf(calls, owner.value)
  }

  lemma CountedSnoc<K>(calls: seq<Call<K>>, call: Call<K>, owner: Option<K>, limit: int)
    ensures Counted(calls + [call], owner, limit)
         == if owner.None? || owner.value == call.client then Booked(Counted(calls, owner, limit), limit, call.at)
            else Counted(calls, owner, limit)
  {
    CallsSnoc(calls, call, if owner.None? then call.client else owner.value);
  }

  class RateLimiter<K(==,!new)> {
    const ipMinute: int
    const ipDay: int
    const globalMinute: Window
    const globalDay: Window
    /** A call with a blank client counts for the anonymous one. */
    const blank: K
    const anonymous: K
    var ip: map<K, Pair>
    /** Whose calls each window counts, the accepted calls, and the time of the latest call. */
    ghost var owners: map<Window, Option<K>>
    ghost var calls: seq<Call<K>>
    ghost var clock: real

    ghost predicate ClientOwns(k: K)
      reads this`ip, this`owners
    {
      k in ip ==>
        && ip[k].minute in owners && owners[ip[k].minute] == Some(k) && ip[k].day in owners && owners[ip[k].day] == Some(k)
        && ip[k].minute != ip[k].day
        && ip[k].minute.limit == ipMinute && ip[k].minute.seconds == 60
        && ip[k].day.limit == ipDay && ip[k].day.seconds == 86_400
    }

    ghost predicate Shape()
      reads this
    {
      && globalMinute in owners && owners[globalMinute] == None && globalDay in owners && owners[globalDay] == None
      && globalMinute != globalDay && globalMinute.seconds == 60 && globalDay.seconds == 86_400
      && (forall k {:trigger ClientOwns(k)} :: ClientOwns(k))
      && (forall w {:trigger owners[w]} :: w in owners ==>
            match owners[w]
            case None => w == globalMinute || w == globalDay
            case Some(k) => k in ip && (w == ip[k].minute || w == ip[k].day))
      && (forall i :: 0 <= i < |calls| ==> calls[i].client in ip)
    }

    ghost predicate Counts(w: Window)
      requires w in owners
      reads this, w
    {
      w.Valid() && w.seen <= clock && w.accepted == Counted(calls, owners[w], w.limit)
    }

    ghost predicate Valid()
      reads this, owners.Keys
    {
      Shape() && 0.0 <= clock && forall w {:trigger owners[w]} :: w in owners ==> Counts(w)
    }

    constructor (ipMinute: int, ipDay: int, globalMinute: int, globalDay: int, blank: K, anonymous: K)
      ensures Valid() && calls == [] && clock == 0.0
      ensures this.ipMinute == ipMinute && this.ipDay == ipDay && this.blank == blank && this.anonymous == anonymous
      ensures this.globalMinute.limit == globalMinute && this.globalDay.limit == globalDay
    {
      this.ipMinute, this.ipDay, this.blank, this.anonymous := ipMinute, ipDay, blank, anonymous;
      var minute := new Window(globalMinute, 60);
      var day := new Window(globalDay, 86_400);
      this.globalMinute, this.globalDay := minute, day;
      ip, owners, calls, clock := map[], map[minute := None, day := None], [], 0.0;
      new;
      hide Window.Valid;
    }

    /** The windows of a client seen for the first time. */
    method AddClient(key: K)
      requires Valid() && key !in ip
      modifies this`ip, this`owners
      ensures Valid() && key in ip && fresh(owners.Keys - old(owners.Keys))
    {
      hide Window.Valid, Counted;
      var minute := new Window(ipMinute, 60);
      var day := new Window(ipDay, 86_400);
      NoCallsYet(calls, key);
      assert forall k {:trigger ClientOwns(k)} :: ClientOwns(k);
      assert minute !in owners && day !in owners;
      ip := ip[key := Pair(minute, day)];
      owners := owners[minute := Some(key)][day := Some(key)];
      forall k {:trigger ClientOwns(k)} ensures ClientOwns(k) {
        assert old(ClientOwns(k));
      }
      assert Counts(minute);
      assert Counts(day);
      forall w | w in owners ensures Counts(w) {
        if w != minute && w != day {
          assert old(Counts(w));
        }
      }
      assert Shape();
    }

    /** A call of client `k` at time `t` would stay within all four limits, given the calls accepted so far. */
    predicate Allowed(accepted: seq<Call<K>>, k: K, t: real) {
      && Allows(TimesOf(accepted, k), ipMinute, 60, t) && Allows(TimesOf(accepted, k), ipDay, 86_400, t)
      && Allows(AllTimes(accepted), globalMinute.limit, 60, t) && Allows(AllTimes(accepted), globalDay.limit, 86_400, t)
    }

    /** The call of client `k` was accepted and recorded, or told how long to wait. */
    ghost predicate Answered(before: seq<Call<K>>, after: seq<Call<K>>, k: K, now: real, wait: nat) {
      && after == before + (if wait == 0 then [Call(k, now)] else [])
      && (wait == 0 <==> Allowed(before, k, now))
      && (wait > 0 ==> forall t :: t >= now + wait as real ==> Allowed(after, k, t))
      && (wait > 0 ==> forall t :: now <= t < now + wait as real - 1.0 ==> !Allowed(after, k, t))
    }

    ghost function GroupOf(k: K): Group
      requires k in ip
      reads this
    {
      Group(ip[k].minute, ip[k].day, globalMinute, globalDay)
    }

    ghost predicate GroupCounts(g: Group, k: K, accepted: seq<Call<K>>)
      reads this, g.ipMinute, g.ipDay, g.globalMinute, g.globalDay
    {
      && g.ipMinute.accepted == Counted(accepted, Some(k), ipMinute) && g.ipMinute.limit == ipMinute && g.ipMinute.seconds == 60
      && g.ipDay.accepted == Counted(accepted, Some(k), ipDay) && g.ipDay.limit == ipDay && g.ipDay.seconds == 86_400
      && g.globalMinute == globalMinute && globalMinute.accepted == Counted(accepted, None, globalMinute.limit)
      && g.globalDay == globalDay && globalDay.accepted == Counted(accepted, None, globalDay.limit)
      && globalMinute.seconds == 60 && globalDay.seconds == 86_400
    }

    lemma GroupAgrees(g: Group, k: K, accepted: seq<Call<K>>, t: real)
      requires GroupCounts(g, k, accepted)
      ensures GroupAllows(g, t) <==> Allowed(accepted, k, t)
    {
      hide Recent, TimesOf, AllTimes;
    }

    lemma ClientGroup(k: K)
      requires Valid() && k in ip
      ensures GroupValid(GroupOf(k)) && SeenBy(GroupOf(k), clock) && GroupCounts(GroupOf(k), k, calls)
    {
      hide Window.Valid, Counted;
      assert ClientOwns(k);
      assert Counts(ip[k].minute) && Counts(ip[k].day) && Counts(globalMinute) && Counts(globalDay);
    }

    /** At any time, no minute and no day ever held more accepted calls of a client than its limits. */
    lemma ClientWithinLimits(k: K, lo: real)
      requires Valid()
      ensures ipMinute > 0 ==> CountIn(TimesOf(calls, k), lo, lo + 60.0) <= ipMinute
      ensures ipDay > 0 ==> CountIn(TimesOf(calls, k), lo, lo + 86_400.0) <= ipDay
    {
      hide Window.Valid, CountIn, TimesOf, AllTimes;
      assert ClientOwns(k);
      if k in ip {
        OwnedWithinLimit(ip[k].minute, lo);
        OwnedWithinLimit(ip[k].day, lo);
      } else {
        NoCallsYet(calls, k);
        CountsNone(lo, lo + 60.0);
        CountsNone(lo, lo + 86_400.0);
      }
    }

    /** Nor more than the limits over all clients. */
    lemma AllWithinLimits(lo: real)
      requires Valid()
      ensures globalMinute.limit > 0 ==> CountIn(AllTimes(calls), lo, lo + 60.0) <= globalMinute.limit
      ensures globalDay.limit > 0 ==> CountIn(AllTimes(calls), lo, lo + 86_400.0) <= globalDay.limit
    {
      hide Window.Valid, CountIn, TimesOf, AllTimes;
      OwnedWithinLimit(globalMinute, lo);
      OwnedWithinLimit(globalDay, lo);
    }

    lemma OwnedWithinLimit(w: Window, lo: real)
      requires Valid() && w in owners
      ensures w.limit > 0 ==> CountIn(Counted(calls, owners[w], w.limit), lo, lo + w.seconds as real) <= w.limit
    {
      hide Window.Valid, CountIn, Counted;
      assert Counts(w);
      WindowWithinLimit(w, lo);
    }

    /** Asks the windows of a client that has them, and records nothing. */
    method WaitFor(key: K, now: real) returns (wait: nat)
      requires Valid() && clock <= now && key in ip
      modifies this`clock, ip[key].minute`hits, ip[key].day`hits, globalMinute`hits, globalDay`hits
      modifies ip[key].minute`seen, ip[key].day`seen, globalMinute`seen, globalDay`seen
      ensures Valid() && clock == now && GroupCounts(GroupOf(key), key, calls)
      ensures wait == 0 <==> Allowed(calls, key, now)
      ensures wait == 0 ==> HasRoom(GroupOf(key), now)
      ensures wait > 0 ==> IsGroupWait(GroupOf(key), now, wait)
    {
      hide Window.Valid, Counted, Allowed, GroupAllows, IsGroupWait;
      var g := Group(ip[key].minute, ip[key].day, globalMinute, globalDay);
      ClientGroup(key);
      assert ClientOwns(key);
      wait := WaitGroup(g, now);
      GroupAgrees(g, key, calls, now);
      clock := now;
      forall w {:trigger owners[w]} | w in owners ensures Counts(w) {
        assert old(Counts(w));
      }
    }

    /** Records a call of a client that has its windows in all four of them. */
    method Book(key: K, now: real)
      requires Valid() && clock == now && key in ip && HasRoom(GroupOf(key), now)
      modifies this`calls, ip[key].minute`hits, ip[key].day`hits, globalMinute`hits, globalDay`hits
      modifies ip[key].minute`accepted, ip[key].day`accepted, globalMinute`accepted, globalDay`accepted
      ensures Valid() && calls == old(calls) + [Call(key, now)]
    {
      hide Window.Valid, Counted, Booked, Window.HasRoom;
      var g := Group(ip[key].minute, ip[key].day, globalMinute, globalDay);
      ClientGroup(key);
      assert ClientOwns(key);
      RecordGroup(g, now);
      calls := calls + [Call(key, now)];
      forall w {:trigger owners[w]} | w in owners ensures Counts(w) {
        CountedSnoc(old(calls), Call(key, now), owners[w], w.limit);
        assert old(Counts(w));
      }
    }

    /**
     Accepts a call and records it, or answers with the seconds to wait: after them the call is accepted if no other
     was accepted before, and at no time until a second before their end. A refused call changes no window's count. A
     client's calls are its own; only blank clients share theirs, with the one called anonymous.
     */
    method Check(client: K, now: real) returns (wait: nat)
      requires Valid() && clock <= now
      modifies this`ip, this`owners, this`calls, this`clock, owners.Keys
      ensures Valid() && clock == now && fresh(owners.Keys - old(owners.Keys))
      ensures client != blank ==> Answered(old(calls), calls, client, now, wait)
      ensures client == blank ==> Answered(old(calls), calls, anonymous, now, wait)
    {
      hide Window.Valid, Counted, Counts, Allowed, GroupAllows, GroupCounts, HasRoom;
      var key := if client == blank then anonymous else client;
      if key !in ip {
        AddClient(key);
      }
      assert ClientOwns(key);
      wait := WaitFor(key, now);
      if wait == 0 {
        Book(key, now);
      } else {
        forall t ensures GroupAllows(GroupOf(key), t) <==> Allowed(calls, key, t) {
          GroupAgrees(GroupOf(key), key, calls, t);
        }
      }
    }
  }

  /** `CountIn` counts the calls, by position, whose time is in the half-open interval. */
  lemma {:induction false} CountInIs(times: seq<real>, lo: real, hi: real)
    ensures CountIn(times, lo, hi) == |set i | 0 <= i < |times| && lo <= times[i] < hi|
  {
    var within := set i | 0 <= i < |times| && lo <= times[i] < hi;
    if times == [] {
      assert within == {};
    } else {
      var n := |times| - 1;
      CountInIs(times[..n], lo, hi);
      var earlier := set i | 0 <= i < n && lo <= times[..n][i] < hi;
      assert within == earlier + if lo <= times[n] < hi then {n} else {};
    }
  }

  lemma CountsNone(lo: real, hi: real)
    ensures CountIn([], lo, hi) == 0
  {
  }

  lemma WindowWithinLimit(w: Window, lo: real)
    requires w.Valid()
    ensures w.limit > 0 ==> CountIn(w.accepted, lo, lo + w.seconds as real) <= w.limit
  {
    hide CountIn, Sorted, Spaced;
    if w.limit > 0 {
      IntervalHoldsLimit(w.accepted, w.limit, w.seconds, lo);
    }
  }

  lemma {:induction false} NoCallsYet<K>(calls: seq<Call<K>>, key: K)
    requires forall i :: 0 <= i < |calls| ==> calls[i].client != key
    ensures TimesOf(calls, key) == []
    ensures forall limit :: Counted(calls, Some(key), limit) == []
  {
    if calls != [] {
      NoCallsYet(calls[..|calls| - 1], key);
    }
  }
}

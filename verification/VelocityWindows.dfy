/**
 Sliding-window counts kept as fixed-size buckets, one sixtieth of the window each. The contracts relate a bucketed
 read to the events recorded so far, and the lemmas bound it by the exact sliding count.
 */
module VelocityWindows {
  import opened Accounts
  import Welford

  const BUCKETS_PER_WINDOW := 60

  datatype WindowAggregate = WindowAggregate(count: nat, sum: real) {
    function Plus(amount: real): WindowAggregate {
      WindowAggregate(count + 1, sum + amount)
    }

    function Merge(other: WindowAggregate): WindowAggregate {
      WindowAggregate(count + other.count, sum + other.sum)
    }
  }

  const EMPTY := WindowAggregate(0, 0.0)

  datatype Event = Event(user: Node, amount: real, tsMs: int)

  /** The start of the bucket a time falls in; rounds down for times before zero as well. */
  function BucketStart(tsMs: int, bucketMs: int): int
    requires bucketMs > 0
  {
    tsMs - tsMs % bucketMs
  }

  // ---------- the reference: folds over the recorded events ----------

  predicate InBuckets(e: Event, user: Node, bucketMs: int, lo: int, hi: int)
    requires bucketMs > 0
  {
    e.user == user && lo <= BucketStart(e.tsMs, bucketMs) < hi
  }

  /** Count and sum of the user's events whose bucket starts in [lo, hi). */
  function Total(log: seq<Event>, user: Node, bucketMs: int, lo: int, hi: int): WindowAggregate
    requires bucketMs > 0
  {
    if log == [] then
      EMPTY
    else
      var before, e := Total(log[..|log| - 1], user, bucketMs, lo, hi), log[|log| - 1];
      if InBuckets(e, user, bucketMs, lo, hi) then before.Plus(e.amount) else before
  }

  /** The exact sliding count: the user's events stamped in [lo, hi]. */
  function Exact(log: seq<Event>, user: Node, lo: int, hi: int): nat {
    if log == [] then
      0
    else
      var e := log[|log| - 1];
      Exact(log[..|log| - 1], user, lo, hi) + if e.user == user && lo <= e.tsMs <= hi then 1 else 0
  }

  /** The amounts of the user's events whose bucket starts in [lo, hi), in order. */
  function AmountsIn(log: seq<Event>, user: Node, bucketMs: int, lo: int, hi: int): seq<real>
    requires bucketMs > 0
  {
    if log == [] then []
    else
      var e := log[|log| - 1];
      AmountsIn(log[..|log| - 1], user, bucketMs, lo, hi)
      + if e.user == user && lo <= BucketStart(e.tsMs, bucketMs) < hi then [e.amount] else []
  }

  /** The fold is the number of these amounts and their sum. */
  lemma {:induction false} TotalIs(log: seq<Event>, user: Node, bucketMs: int, lo: int, hi: int)
    requires bucketMs > 0
    ensures Total(log, user, bucketMs, lo, hi)
         == WindowAggregate(|AmountsIn(log, user, bucketMs, lo, hi)|, Welford.Sum(AmountsIn(log, user, bucketMs, lo, hi)))
  {
    if log != [] {
      TotalIs(log[..|log| - 1], user, bucketMs, lo, hi);
      hide BucketStart, Welford.Sum;
      var before := AmountsIn(log[..|log| - 1], user, bucketMs, lo, hi);
      SumSnoc(before, log[|log| - 1].amount);
      assert before + [] == before;
    } else {
      assert Welford.Sum([]) == 0.0;
    }
  }

  lemma SumSnoc(xs: seq<real>, x: real)
    ensures Welford.Sum(xs + [x]) == Welford.Sum(xs) + x
  {
    assert (xs + [x])[..|xs|] == xs;
  }

  lemma TotalSnoc(log: seq<Event>, e: Event, user: Node, bucketMs: int, lo: int, hi: int)
    requires bucketMs > 0
    ensures Total(log + [e], user, bucketMs, lo, hi)
         == if InBuckets(e, user, bucketMs, lo, hi) then Total(log, user, bucketMs, lo, hi).Plus(e.amount)
            else Total(log, user, bucketMs, lo, hi)
  {
    assert (log + [e])[..|log|] == log;
  }

  /** The same fold by bucket number: events of buckets number `lo` up to, not including, `hi`. */
  function ByNumber(log: seq<Event>, user: Node, bucketMs: int, lo: int, hi: int): WindowAggregate
    requires bucketMs > 0
  {
    if log == [] then
      EMPTY
    else
      var before, e := ByNumber(log[..|log| - 1], user, bucketMs, lo, hi), log[|log| - 1];
      if e.user == user && lo <= e.tsMs / bucketMs < hi then before.Plus(e.amount) else before
  }

  lemma {:induction false} ByNumberSplit(log: seq<Event>, user: Node, bucketMs: int, lo: int, mid: int, hi: int)
    requires bucketMs > 0 && lo <= mid <= hi
    ensures ByNumber(log, user, bucketMs, lo, hi)
         == ByNumber(log, user, bucketMs, lo, mid).Merge(ByNumber(log, user, bucketMs, mid, hi))
  {
    if log != [] {
      ByNumberSplit(log[..|log| - 1], user, bucketMs, lo, mid, hi);
    }
  }

  lemma {:induction false} ByNumberEmpty(log: seq<Event>, user: Node, bucketMs: int, lo: int, hi: int)
    requires bucketMs > 0 && hi <= lo
    ensures ByNumber(log, user, bucketMs, lo, hi) == EMPTY
  {
    if log != [] {
      ByNumberEmpty(log[..|log| - 1], user, bucketMs, lo, hi);
    }
  }

  // ---------- bucket numbers ----------

  lemma MulStep(k: int, m: int, b: int)
    requires b > 0 && k < m
    ensures k * b + b <= m * b
  {
    assert (m - k - 1) * b >= 0;
    assert (m - k - 1) * b == m * b - k * b - b;
  }

  lemma StartIsProduct(t: int, bucketMs: int)
    requires bucketMs > 0
    ensures BucketStart(t, bucketMs) == (t / bucketMs) * bucketMs
    ensures BucketStart(t, bucketMs) <= t < BucketStart(t, bucketMs) + bucketMs
  {
    assert t == (t / bucketMs) * bucketMs + t % bucketMs;
  }

  /** The number of the first bucket that starts at or after `from`. */
  function FirstNumber(from: int, bucketMs: int): int
    requires bucketMs > 0
  {
    (from + bucketMs - 1) / bucketMs
  }

  lemma NumberAtMost(to: int, k: int, b: int)
    requires b > 0
    ensures k * b <= to <==> k <= to / b
  {
    StartIsProduct(to, b);
    if k > to / b {
      MulStep(to / b, k, b);
    } else if k < to / b {
      MulStep(k, to / b, b);
    }
  }

  lemma NumberAtLeast(from: int, k: int, b: int)
    requires b > 0
    ensures from <= k * b <==> FirstNumber(from, b) <= k
  {
    NumberAtMost(from + b - 1, k, b);
    NumberAtMost(from + b - 1, k + 1, b);
    assert (k + 1) * b == k * b + b;
  }

  /** Choosing buckets by start time is choosing them by number. */
  lemma {:induction false} TotalByNumber(log: seq<Event>, user: Node, bucketMs: int, from: int, to: int)
    requires bucketMs > 0
    ensures Total(log, user, bucketMs, from, to + 1)
         == ByNumber(log, user, bucketMs, FirstNumber(from, bucketMs), to / bucketMs + 1)
  {
    if log != [] {
      TotalByNumber(log[..|log| - 1], user, bucketMs, from, to);
      var t := log[|log| - 1].tsMs;
      StartIsProduct(t, bucketMs);
      NumberAtLeast(from, t / bucketMs, bucketMs);
      NumberAtMost(to, t / bucketMs, bucketMs);
    }
  }

  /** With sixty buckets to the window, a read covers exactly sixty bucket numbers. */
  lemma SixtyBuckets(bucketMs: int, tsMs: int)
    requires bucketMs > 0
    ensures tsMs / bucketMs - FirstNumber(tsMs - BUCKETS_PER_WINDOW * bucketMs + 1, bucketMs) + 1 == BUCKETS_PER_WINDOW
  {
    var b, q, from := bucketMs, tsMs / bucketMs, tsMs - BUCKETS_PER_WINDOW * bucketMs + 1;
    StartIsProduct(tsMs, b);
    NumberAtLeast(from, q - 59, b);
    NumberAtLeast(from, q - 60, b);
    assert (q - 59) * b == q * b - 59 * b && (q - 60) * b == q * b - 60 * b;
  }

  // ---------- how far the bucketed count is from the exact one ----------

  /** The bucketed read is never below the exact count over the window less its oldest bucket. */
  lemma {:induction false} CountAtLeast(log: seq<Event>, user: Node, windowMs: int, bucketMs: int, tsMs: int)
    requires bucketMs > 0
    ensures Exact(log, user, tsMs - windowMs + bucketMs, tsMs)
         <= Total(log, user, bucketMs, tsMs - windowMs + 1, tsMs + 1).count
  {
    if log != [] {
      CountAtLeast(log[..|log| - 1], user, windowMs, bucketMs, tsMs);
      StartIsProduct(log[|log| - 1].tsMs, bucketMs);
    }
  }

  /** The user's events later than the read that share its bucket, unless that bucket starts before the window. */
  function Late(log: seq<Event>, user: Node, windowMs: int, bucketMs: int, tsMs: int): nat
    requires bucketMs > 0
  {
    if BucketStart(tsMs, bucketMs) <= tsMs - windowMs then 0
    else Exact(log, user, tsMs + 1, BucketStart(tsMs, bucketMs) + bucketMs - 1)
  }

  /** The user's events in the window (ts - W, ts] whose bucket starts before it. */
  function Missed(log: seq<Event>, user: Node, windowMs: int, bucketMs: int, tsMs: int): nat
    requires bucketMs > 0
  {
    if log == [] then
      0
    else
      var e := log[|log| - 1];
      Missed(log[..|log| - 1], user, windowMs, bucketMs, tsMs)
      + if e.user == user && tsMs - windowMs < e.tsMs <= tsMs && BucketStart(e.tsMs, bucketMs) <= tsMs - windowMs then 1 else 0
  }

  /** One time: counted by bucket and exactly, it is late, missed, both or neither. */
  lemma OneEvent(t: int, windowMs: int, bucketMs: int, tsMs: int)
    requires bucketMs > 0
    ensures tsMs < t ==> (BucketStart(t, bucketMs) < tsMs + 1 <==> t <= BucketStart(tsMs, bucketMs) + bucketMs - 1)
    ensures tsMs < t && BucketStart(t, bucketMs) < tsMs + 1 ==> BucketStart(t, bucketMs) == BucketStart(tsMs, bucketMs)
    ensures t <= tsMs - windowMs ==> BucketStart(t, bucketMs) <= tsMs - windowMs
    ensures t <= tsMs ==> BucketStart(t, bucketMs) < tsMs + 1
  {
    StartIsProduct(t, bucketMs);
    StartIsProduct(tsMs, bucketMs);
    if t / bucketMs > tsMs / bucketMs {
      MulStep(tsMs / bucketMs, t / bucketMs, bucketMs);
    } else if t / bucketMs < tsMs / bucketMs {
      MulStep(t / bucketMs, tsMs / bucketMs, bucketMs);
    }
  }

  /** The bucketed and the exact count differ by exactly the late and the missed events. */
  lemma {:induction false} CountsDiffer(log: seq<Event>, user: Node, windowMs: int, bucketMs: int, tsMs: int)
    requires bucketMs > 0
    ensures Total(log, user, bucketMs, tsMs - windowMs + 1, tsMs + 1).count + Missed(log, user, windowMs, bucketMs, tsMs)
         == Exact(log, user, tsMs - windowMs + 1, tsMs) + Late(log, user, windowMs, bucketMs, tsMs)
  {
    if log != [] {
      CountsDiffer(log[..|log| - 1], user, windowMs, bucketMs, tsMs);
      OneEvent(log[|log| - 1].tsMs, windowMs, bucketMs, tsMs);
      hide BucketStart;
    }
  }

  /** So the bucketed read is not above the exact count exactly if no more events are late than are missed. */
  lemma CountAtMostIff(log: seq<Event>, user: Node, windowMs: int, bucketMs: int, tsMs: int)
    requires bucketMs > 0
    ensures Total(log, user, bucketMs, tsMs - windowMs + 1, tsMs + 1).count <= Exact(log, user, tsMs - windowMs + 1, tsMs)
            <==> Late(log, user, windowMs, bucketMs, tsMs) <= Missed(log, user, windowMs, bucketMs, tsMs)
  {
    hide Total, Exact, Late, Missed;
    CountsDiffer(log, user, windowMs, bucketMs, tsMs);
  }

  lemma {:induction false} NoneBetween(log: seq<Event>, user: Node, lo: int, hi: int)
    requires forall e :: e in log && e.user == user ==> e.tsMs < lo || hi < e.tsMs
    ensures Exact(log, user, lo, hi) == 0
  {
    if log != [] {
      assert log[|log| - 1] in log;
      NoneBetween(log[..|log| - 1], user, lo, hi);
    }
  }

  /** In particular if no recorded event of the user is later than the read within the bucket of the read. */
  lemma CountAtMost(log: seq<Event>, user: Node, windowMs: int, bucketMs: int, tsMs: int)
    requires bucketMs > 0
    requires forall e :: e in log && e.user == user ==> e.tsMs <= tsMs || BucketStart(tsMs, bucketMs) + bucketMs <= e.tsMs
    ensures Total(log, user, bucketMs, tsMs - windowMs + 1, tsMs + 1).count
         <= Exact(log, user, tsMs - windowMs + 1, tsMs)
  {
    hide Total, Exact, Missed;
    NoneBetween(log, user, tsMs + 1, BucketStart(tsMs, bucketMs) + bucketMs - 1);
    CountsDiffer(log, user, windowMs, bucketMs, tsMs);
  }

  /** An event later than the read can share its bucket and be counted: the bound above needs its condition. */
  lemma LaterEventIsCounted()
    ensures Total([Event(1, 5.0, 1900)], 1, 1000, 1500 - 60_000 + 1, 1500 + 1).count == 1
    ensures Exact([Event(1, 5.0, 1900)], 1, 1500 - 60_000 + 1, 1500) == 0
  {
  }

  lemma MulMonotone(x: int, y: int, b: int)
    requires b > 0 && x <= y
    ensures x * b <= y * b
  {
    if x < y {
      MulStep(x, y, b);
    }
  }

  lemma MulAssociates(x: int, y: int, z: int)
    ensures x * (y * z) == (x * y) * z
  {
  }

  /** A bucket of `k` finer ones starts no later than the finer one it is made of. */
  lemma CoarserStartsEarlier(t: int, fine: int, k: int, coarse: int)
    requires fine > 0 && k > 0 && coarse == k * fine && coarse > 0
    ensures t - coarse < BucketStart(t, coarse) <= BucketStart(t, fine) <= t
  {
    StartIsProduct(t, coarse);
    StartIsProduct(t, fine);
    var q := t / coarse;
    MulAssociates(q, k, fine);
    NumberAtMost(t, q * k, fine);
    MulMonotone(q * k, t / fine, fine);
  }

  /** The three windows nest whatever the order of events: whatever counts in a minute counts in five and in an hour. */
  lemma {:induction false} WindowsNest(log: seq<Event>, user: Node, tsMs: int)
    ensures Total(log, user, 1_000, tsMs - 60_000 + 1, tsMs + 1).count
         <= Total(log, user, 5_000, tsMs - 300_000 + 1, tsMs + 1).count
         <= Total(log, user, 60_000, tsMs - 3_600_000 + 1, tsMs + 1).count
  {
    if log != [] {
      WindowsNest(log[..|log| - 1], user, tsMs);
      CoarserStartsEarlier(log[|log| - 1].tsMs, 1_000, 5, 5_000);
      CoarserStartsEarlier(log[|log| - 1].tsMs, 5_000, 12, 60_000);
      hide BucketStart;
    }
  }

  /** An event just recorded at the time of the read counts against itself. */
  lemma CurrentEventCounts(log: seq<Event>, user: Node, amount: real, windowMs: int, bucketMs: int, tsMs: int)
    requires 0 < bucketMs <= windowMs
    ensures Total(log + [Event(user, amount, tsMs)], user, bucketMs, tsMs - windowMs + 1, tsMs + 1).count >= 1
  {
    StartIsProduct(tsMs, bucketMs);
    TotalSnoc(log, Event(user, amount, tsMs), user, bucketMs, tsMs - windowMs + 1, tsMs + 1);
  }

  // ---------- the store ----------

  type Buckets = map<(Node, int), WindowAggregate>

  function BucketAt(store: Buckets, user: Node, start: int): WindowAggregate {
    if (user, start) in store then store[(user, start)] else EMPTY
  }

  function StartOf(k: int, bucketMs: int): int {
    k * bucketMs
  }

  /** The bucket stored under number `k`'s start holds the fold of that bucket's events. */
  ghost predicate HoldsAt(store: Buckets, log: seq<Event>, bucketMs: int, user: Node, k: int)
    requires bucketMs > 0
  {
    BucketAt(store, user, StartOf(k, bucketMs)) == ByNumber(log, user, bucketMs, k, k + 1)
  }

  ghost predicate Holds(store: Buckets, log: seq<Event>, bucketMs: int)
    requires bucketMs > 0
  {
    forall user, k {:trigger HoldsAt(store, log, bucketMs, user, k)} :: HoldsAt(store, log, bucketMs, user, k)
  }

  class VelocityWindows {
    const windowMs: int
    const bucketMs: int
    var store: Buckets
    ghost var log: seq<Event>

    ghost predicate Valid()
      reads this
    {
      bucketMs == windowMs / BUCKETS_PER_WINDOW && bucketMs > 0 && Holds(store, log, bucketMs)
    }

    constructor (windowMs: int)
      requires windowMs >= BUCKETS_PER_WINDOW
      ensures Valid() && this.windowMs == windowMs && log == []
    {
      this.windowMs := windowMs;
      this.bucketMs := windowMs / BUCKETS_PER_WINDOW;
      store, log := map[], [];
    }

    /** Adds the event to its bucket. */
    method Record(user: Node, amount: real, tsMs: int)
      requires Valid()
      modifies this
      ensures Valid() && log == old(log) + [Event(user, amount, tsMs)]
    {
      var start := BucketStart(tsMs, bucketMs);
      StartIsProduct(tsMs, bucketMs);
      var current := BucketAt(store, user, start);
      RecordHolds(store, log, bucketMs, Event(user, amount, tsMs));
      store := store[(user, start) := current.Plus(amount)];
      log := log + [Event(user, amount, tsMs)];
    }

    /** The stored buckets of a user that start from `from` to `to`, both included, in time order. */
    method Fetch(user: Node, from: int, to: int) returns (values: seq<WindowAggregate>)
      requires Valid()
      ensures Merged(values) == Total(log, user, bucketMs, from, to + 1)
    {
      hide Holds, ByNumber, Total, StartOf, FirstNumber, Merged;
      NothingMerged();
      values := [];
      var first, last := FirstNumber(from, bucketMs), to / bucketMs;
      var k := first;
      ByNumberEmpty(log, user, bucketMs, first, first);
      while k <= last
        invariant first <= k && if first <= last then k <= last + 1 else k == first
        invariant Merged(values) == ByNumber(log, user, bucketMs, first, k)
      {
        NextBucket(store, log, user, bucketMs, first, k);
        var start := StartOf(k, bucketMs);
        if (user, start) in store {
          MergedSnoc(values, store[(user, start)]);
          values := values + [store[(user, start)]];
        }
        k := k + 1;
      }
      TotalByNumber(log, user, bucketMs, from, to);
      if first > last {
        ByNumberEmpty(log, user, bucketMs, first, last + 1);
      }
    }

    /** Sums every bucket that starts in (ts - window, ts]. */
    method Aggregate(user: Node, tsMs: int) returns (total: WindowAggregate)
      requires Valid()
      ensures total == Total(log, user, bucketMs, tsMs - windowMs + 1, tsMs + 1)
      ensures var amounts := AmountsIn(log, user, bucketMs, tsMs - windowMs + 1, tsMs + 1);
              total.count == |amounts| && total.sum == Welford.Sum(amounts)
    {
      TotalIs(log, user, bucketMs, tsMs - windowMs + 1, tsMs + 1);
      hide Total, AmountsIn, Welford.Sum;
      var values := Fetch(user, tsMs - windowMs + 1, tsMs);
      total := EMPTY;
      for i := 0 to |values|
        invariant total == Merged(values[..i])
      {
        assert values[..i + 1][..i] == values[..i];
        total := total.Merge(values[i]);
      }
      assert values[..|values|] == values;
    }
  }

  function Merged(values: seq<WindowAggregate>): WindowAggregate {
    if values == [] then EMPTY else Merged(values[..|values| - 1]).Merge(values[|values| - 1])
  }

  lemma NothingMerged()
    ensures Merged([]) == EMPTY
  {
  }

  lemma MergedSnoc(values: seq<WindowAggregate>, v: WindowAggregate)
    ensures Merged(values + [v]) == Merged(values).Merge(v)
  {
    assert (values + [v])[..|values|] == values;
  }

  lemma ByNumberSnoc(log: seq<Event>, e: Event, user: Node, bucketMs: int, k: int)
    requires bucketMs > 0
    ensures ByNumber(log + [e], user, bucketMs, k, k + 1)
         == if e.user == user && e.tsMs / bucketMs == k then ByNumber(log, user, bucketMs, k, k + 1).Plus(e.amount)
            else ByNumber(log, user, bucketMs, k, k + 1)
  {
    assert (log + [e])[..|log|] == log;
  }

  lemma RecordHolds(store: Buckets, log: seq<Event>, bucketMs: int, e: Event)
    requires bucketMs > 0 && Holds(store, log, bucketMs)
    ensures var start := BucketStart(e.tsMs, bucketMs);
            Holds(store[(e.user, start) := BucketAt(store, e.user, start).Plus(e.amount)], log + [e], bucketMs)
  {
    hide ByNumber;
    var start, n := BucketStart(e.tsMs, bucketMs), e.tsMs / bucketMs;
    var store' := store[(e.user, start) := BucketAt(store, e.user, start).Plus(e.amount)];
    StartIsProduct(e.tsMs, bucketMs);
    forall user, k {:trigger HoldsAt(store', log + [e], bucketMs, user, k)} ensures HoldsAt(store', log + [e], bucketMs, user, k) {
      ByNumberSnoc(log, e, user, bucketMs, k);
      assert HoldsAt(store, log, bucketMs, user, k);
      if k < n {
        MulStep(k, n, bucketMs);
      } else if n < k {
        MulStep(n, k, bucketMs);
      }
    }
  }

  /** One step of the fetch: bucket number `k` is all that is between `k` and `k + 1`. */
  lemma NextBucket(store: Buckets, log: seq<Event>, user: Node, bucketMs: int, first: int, k: int)
    requires bucketMs > 0 && first <= k && Holds(store, log, bucketMs)
    ensures ByNumber(log, user, bucketMs, first, k + 1)
         == ByNumber(log, user, bucketMs, first, k).Merge(BucketAt(store, user, StartOf(k, bucketMs)))
  {
    hide ByNumber;
    assert HoldsAt(store, log, bucketMs, user, k);
    ByNumberSplit(log, user, bucketMs, first, k, k + 1);
  }
}

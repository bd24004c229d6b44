/**
 The cache of verified answers: least recently used out first, and entries too old to use. Beside its items the class
 keeps, for the contracts only, the last answer ever put under each key and the keys touched so far, in order.
 */
module AnswerCaches {
  import opened Collections

  datatype Entry<V> = Entry(at: real, value: V)

  /** The keys touched after the last touch of `k`. */
  function Since<K>(trace: seq<K>, k: K): set<K> {
    if trace == [] || trace[|trace| - 1] == k then {}
    else Since(trace[..|trace| - 1], k) + {trace[|trace| - 1]}
  }

  lemma SinceSnoc<K>(trace: seq<K>, last: K, k: K)
    ensures Since(trace + [last], k) == if last == k then {} else Since(trace, k) + {last}
  {
    assert (trace + [last])[..|trace|] == trace;
  }

  /** Of two keys that were touched, exactly one was touched after the last touch of the other. */
  lemma {:induction false} RecencyIsStrict<K>(trace: seq<K>, a: K, b: K)
    requires a in trace && b in trace && a != b
    ensures a in Since(trace, b) <==> b !in Since(trace, a)
  {
    var front, last := trace[..|trace| - 1], trace[|trace| - 1];
    assert trace == front + [last];
    if last != a && last != b {
      RecencyIsStrict(front, a, b);
    } else if last == a {
      NotSinceItself(front, a, b);
    } else {
      NotSinceItself(front, b, a);
    }
  }

  lemma {:induction false} NotSinceItself<K>(trace: seq<K>, a: K, b: K)
    ensures a !in Since(trace, a)
  {
    if trace != [] && trace[|trace| - 1] != a {
      NotSinceItself(trace[..|trace| - 1], a, b);
    }
  }

  /** The order is recency: each key was touched after every key before it. */
  ghost predicate ByRecency<K>(order: seq<K>, trace: seq<K>) {
    && (forall i :: 0 <= i < |order| ==> order[i] in trace)
    && forall i, j :: 0 <= i < j < |order| ==> order[j] in Since(trace, order[i])
  }

  function Without<K(==)>(order: seq<K>, k: K): seq<K> {
    if order == [] then []
    else Without(order[..|order| - 1], k) + if order[|order| - 1] == k then [] else [order[|order| - 1]]
  }

  lemma {:induction false} WithoutIs<K>(order: seq<K>, k: K)
    ensures Elements(Without(order, k)) == Elements(order) - {k}
  {
    if order != [] {
      var front, last := order[..|order| - 1], order[|order| - 1];
      WithoutIs(front, k);
      assert order == front + [last];
      ElementsSnoc(front, last);
      if last != k {
        ElementsSnoc(Without(front, k), last);
      } else {
        assert Without(order, k) == Without(front, k);
      }
    }
  }

  lemma {:induction false} WithoutKeepsRecency<K>(order: seq<K>, k: K, trace: seq<K>)
    requires ByRecency(order, trace)
    ensures ByRecency(Without(order, k), trace)
  {
    if order != [] {
      var front, last := order[..|order| - 1], order[|order| - 1];
      WithoutKeepsRecency(front, k, trace);
      WithoutIs(front, k);
      var rest := Without(front, k);
      forall i | 0 <= i < |rest| ensures last in Since(trace, rest[i]) {
        assert rest[i] in Elements(rest) && rest[i] in Elements(front);
      }
    }
  }

  /** Touching a key moves it to the end of the order. */
  lemma TouchKeepsRecency<K>(order: seq<K>, k: K, trace: seq<K>)
    requires ByRecency(order, trace)
    ensures ByRecency(Without(order, k) + [k], trace + [k])
  {
    WithoutKeepsRecency(order, k, trace);
    WithoutIs(order, k);
    var rest := Without(order, k);
    forall i | 0 <= i < |rest| ensures rest[i] != k && rest[i] in trace {
      assert rest[i] in Elements(rest);
    }
    forall x | x in rest ensures Since(trace + [k], x) == Since(trace, x) + {k} {
      assert x in Elements(rest);
      SinceSnoc(trace, k, x);
    }
  }

  lemma {:induction false} RecencyHasNoDuplicates<K>(order: seq<K>, trace: seq<K>)
    requires ByRecency(order, trace)
    ensures NoDuplicates(order)
  {
    forall i, j | 0 <= i < j < |order| ensures order[i] != order[j] {
      NotSinceItself(trace, order[i], order[j]);
    }
  }

  /** An entry put at some time is gone only if it is too old, or `size` other keys were touched since its own last touch. */
  ghost predicate GoneFairly<K, V>(entry: Entry<V>, k: K, trace: seq<K>, ttl: real, size: nat, clock: real) {
    clock - entry.at > ttl || |Since(trace, k)| >= size
  }

  ghost predicate GoneFairlyAt<K, V>(items: map<K, Entry<V>>, stored: map<K, Entry<V>>, trace: seq<K>, ttl: real,
                                     size: nat, clock: real, k: K)
  {
    k in stored && k !in items ==> GoneFairly(stored[k], k, trace, ttl, size, clock)
  }

  /** The items are a part of all that was stored, and whatever is missing is gone fairly. */
  ghost predicate Refines<K(!new), V>(items: map<K, Entry<V>>, stored: map<K, Entry<V>>, trace: seq<K>, ttl: real, size: nat,
                                clock: real)
  {
    && (forall k :: k in items ==> k in stored && items[k] == stored[k])
    && forall k {:trigger GoneFairlyAt(items, stored, trace, ttl, size, clock, k)} ::
         GoneFairlyAt(items, stored, trace, ttl, size, clock, k)
  }

  /** Time passing, and another key being touched, only make it fairer that an entry is gone. */
  lemma StillGoneFairly<K, V>(entry: Entry<V>, k: K, trace: seq<K>, touched: K, ttl: real, size: nat, clock: real, now: real)
    requires GoneFairly(entry, k, trace, ttl, size, clock) && clock <= now
    ensures GoneFairly(entry, k, trace, ttl, size, now)
    ensures touched != k ==> GoneFairly(entry, k, trace + [touched], ttl, size, now)
  {
    SinceSnoc(trace, touched, k);
    SubsetSize(Since(trace, k), Since(trace, k) + {touched});
  }

  lemma DropExpired<K(!new), V>(items: map<K, Entry<V>>, stored: map<K, Entry<V>>, trace: seq<K>, ttl: real, size: nat,
                                clock: real, now: real, k: K)
    requires Refines(items, stored, trace, ttl, size, clock) && clock <= now
    requires k in items ==> now - items[k].at > ttl
    ensures Refines(items - {k}, stored, trace, ttl, size, now)
  {
    hide GoneFairly;
    forall x {:trigger GoneFairlyAt(items - {k}, stored, trace, ttl, size, now, x)}
      ensures GoneFairlyAt(items - {k}, stored, trace, ttl, size, now, x)
    {
      assert GoneFairlyAt(items, stored, trace, ttl, size, clock, x);
      if x in stored && x !in items {
        StillGoneFairly(stored[x], x, trace, x, ttl, size, clock, now);
      } else if x == k && x in items {
        TooOldIsFair(stored[x], x, trace, ttl, size, now);
      }
    }
  }

  lemma TooOldIsFair<K, V>(entry: Entry<V>, k: K, trace: seq<K>, ttl: real, size: nat, now: real)
    requires now - entry.at > ttl
    ensures GoneFairly(entry, k, trace, ttl, size, now)
  {
  }

  /** Touching `k` with the entry it now has: a hit keeps its entry, a put gives it a new one. */
  lemma Touch<K(!new), V>(items: map<K, Entry<V>>, stored: map<K, Entry<V>>, trace: seq<K>, ttl: real, size: nat,
                          clock: real, now: real, k: K, entry: Entry<V>)
    requires Refines(items, stored, trace, ttl, size, clock) && clock <= now
    ensures Refines(items[k := entry], stored[k := entry], trace + [k], ttl, size, now)
  {
    hide GoneFairly;
    var items1, stored1 := items[k := entry], stored[k := entry];
    forall x {:trigger GoneFairlyAt(items1, stored1, trace + [k], ttl, size, now, x)}
      ensures GoneFairlyAt(items1, stored1, trace + [k], ttl, size, now, x)
    {
      assert GoneFairlyAt(items, stored, trace, ttl, size, clock, x);
      if x in stored && x !in items && x != k {
        StillGoneFairly(stored[x], x, trace, k, ttl, size, clock, now);
      }
    }
  }

  /** With more than `size` keys in order of recency, `size` others were touched since the first of them was. */
  lemma FirstIsStale<K>(order: seq<K>, trace: seq<K>, size: nat)
    requires ByRecency(order, trace) && |order| > size
    ensures |Since(trace, order[0])| >= size
  {
    var rest := order[1..];
    RecencyHasNoDuplicates(order, trace);
    DistinctCount(rest);
    forall x | x in Elements(rest) ensures x in Since(trace, order[0]) {
      var i :| 0 <= i < |rest| && rest[i] == x;
      assert order[i + 1] == x;
    }
    SubsetSize(Elements(rest), Since(trace, order[0]));
  }

  lemma EvictFirst<K(!new), V>(items: map<K, Entry<V>>, stored: map<K, Entry<V>>, order: seq<K>, trace: seq<K>, ttl: real,
                               size: nat, clock: real)
    requires Refines(items, stored, trace, ttl, size, clock) && ByRecency(order, trace)
    requires Elements(order) == items.Keys && |order| > size
    ensures Refines(items - {order[0]}, stored, trace, ttl, size, clock)
    ensures ByRecency(order[1..], trace) && Elements(order[1..]) == items.Keys - {order[0]}
  {
    FirstIsStale(order, trace, size);
    RestOfOrder(order, trace);
    hide Since, ByRecency, Elements;
    var k := order[0];
    forall x {:trigger GoneFairlyAt(items - {k}, stored, trace, ttl, size, clock, x)}
      ensures GoneFairlyAt(items - {k}, stored, trace, ttl, size, clock, x)
    {
      assert GoneFairlyAt(items, stored, trace, ttl, size, clock, x);
    }
  }

  lemma RestOfOrder<K>(order: seq<K>, trace: seq<K>)
    requires ByRecency(order, trace) && order != []
    ensures ByRecency(order[1..], trace) && Elements(order[1..]) == Elements(order) - {order[0]}
  {
    hide Since;
    RecencyHasNoDuplicates(order, trace);
    var k, rest := order[0], order[1..];
    assert order == [k] + rest;
    forall x | x in rest ensures x != k && x in order {
      var i :| 0 <= i < |rest| && rest[i] == x;
      assert order[i + 1] == x;
    }
  }

  lemma SizeOfItems<K, V>(items: map<K, Entry<V>>, order: seq<K>, trace: seq<K>)
    requires Elements(order) == items.Keys && ByRecency(order, trace)
    ensures |items| == |order|
  {
    RecencyHasNoDuplicates(order, trace);
    DistinctCount(order);
    assert |items| == |items.Keys|;
  }

  class AnswerCache<K(==,!new), V> {
    const ttl: real
    const size: nat
    var items: map<K, Entry<V>>
    var order: seq<K>
    ghost var stored: map<K, Entry<V>>
    ghost var trace: seq<K>
    ghost var clock: real

    ghost predicate Valid()
      reads this
    {
      && Elements(order) == items.Keys && ByRecency(order, trace) && |items| <= size
      && Refines(items, stored, trace, ttl, size, clock)
    }

    constructor (ttl: real, size: nat)
      ensures Valid() && this.ttl == ttl && this.size == size
      ensures items == map[] && stored == map[] && trace == [] && clock == 0.0
    {
      this.ttl, this.size := ttl, size;
      items, order, stored, trace, clock := map[], [], map[], [], 0.0;
    }

    /**
     A hit is the last answer put under the key and not too old. A miss means that nothing was ever put, that the last
     one is too old, or that `size` other keys were touched since the key was last touched.
     */
    method Get(key: K, now: real) returns (r: Option<V>)
      requires Valid() && clock <= now
      modifies this
      ensures Valid() && clock == now && stored == old(stored)
      ensures r.Some? ==> key in stored && r.value == stored[key].value && now - stored[key].at <= ttl
      ensures r.None? && ttl > 0.0 && key in stored ==> GoneFairly(stored[key], key, trace, ttl, size, now)
      ensures trace == old(trace) + if r.Some? then [key] else []
      ensures ttl > 0.0 ==> (key in items <==> r.Some?)
    {
      hide Refines, ByRecency, Since, GoneFairly, Elements, Without;
      TimePasses(items, stored, trace, ttl, size, clock, now, key);
      r := None;
      if ttl > 0.0 && key in items {
        var hit := items[key];
        if now - hit.at > ttl {
          TooOldIsFair(hit, key, trace, ttl, size, now);
          DropExpired(items, stored, trace, ttl, size, clock, now, key);
          WithoutKeepsRecency(order, key, trace);
          WithoutIs(order, key);
          items, order := items - {key}, Without(order, key);
        } else {
          Touch(items, stored, trace, ttl, size, clock, now, key, hit);
          TouchKeepsRecency(order, key, trace);
          MovedToEnd(order, key);
          assert items[key := hit] == items && stored[key := hit] == stored;
          order, trace := Without(order, key) + [key], trace + [key];
          r := Some(hit.value);
        }
      }
      clock := now;
    }

    /** Stores a non-empty answer under the key as the most recent, and makes room if there are too many. */
    method Put(key: K, value: V, answered: bool, now: real)
      requires Valid() && clock <= now
      modifies this
      ensures Valid() && clock == now
      ensures ttl <= 0.0 || !answered ==> items == old(items) && order == old(order) && stored == old(stored) && trace == old(trace)
      ensures ttl > 0.0 && answered ==> stored == old(stored)[key := Entry(now, value)] && trace == old(trace) + [key]
      ensures ttl > 0.0 && answered && size > 0 ==> key in items
    {
      hide Refines, ByRecency, Since, GoneFairly, Elements, Without;
      TimePasses(items, stored, trace, ttl, size, clock, now, key);
      clock := now;
      if ttl <= 0.0 || !answered {
        return;
      }
      Touch(items, stored, trace, ttl, size, clock, now, key, Entry(now, value));
      TouchKeepsRecency(order, key, trace);
      MovedToEnd(order, key);
      items, stored := items[key := Entry(now, value)], stored[key := Entry(now, value)];
      order, trace := Without(order, key) + [key], trace + [key];
      MakeRoom(key);
    }

    /** Takes the least recently touched entries out until no more than `size` are left. */
    method MakeRoom(ghost latest: K)
      requires Elements(order) == items.Keys && ByRecency(order, trace) && Refines(items, stored, trace, ttl, size, clock)
      requires order != [] && order[|order| - 1] == latest
      modifies this`items, this`order
      ensures Valid() && (size > 0 ==> latest in items)
    {
      hide Refines, ByRecency, Since;
      SizeOfItems(items, order, trace);
      while |items| > size
        invariant Elements(order) == items.Keys && ByRecency(order, trace) && |items| == |order|
        invariant Refines(items, stored, trace, ttl, size, clock)
        invariant order != [] ==> order[|order| - 1] == latest
        invariant size > 0 ==> order != []
      {
        EvictFirst(items, stored, order, trace, ttl, size, clock);
        items, order := items - {order[0]}, order[1..];
        SizeOfItems(items, order, trace);
      }
      if size > 0 {
        assert latest in Elements(order);
      }
    }
  }

  lemma TimePasses<K(!new), V>(items: map<K, Entry<V>>, stored: map<K, Entry<V>>, trace: seq<K>, ttl: real, size: nat,
                               clock: real, now: real, key: K)
    requires Refines(items, stored, trace, ttl, size, clock) && clock <= now
    ensures Refines(items, stored, trace, ttl, size, now)
    ensures key in items ==> key in stored && items[key] == stored[key]
    ensures key in stored && key !in items ==> GoneFairly(stored[key], key, trace, ttl, size, now)
  {
    hide GoneFairly;
    forall x {:trigger GoneFairlyAt(items, stored, trace, ttl, size, now, x)}
      ensures GoneFairlyAt(items, stored, trace, ttl, size, now, x)
    {
      assert GoneFairlyAt(items, stored, trace, ttl, size, clock, x);
      if x in stored && x !in items {
        StillGoneFairly(stored[x], x, trace, x, ttl, size, clock, now);
      }
    }
    assert GoneFairlyAt(items, stored, trace, ttl, size, now, key);
  }

  lemma MovedToEnd<K>(order: seq<K>, k: K)
    ensures Elements(Without(order, k) + [k]) == Elements(order) + {k}
  {
    WithoutIs(order, k);
    ElementsSnoc(Without(order, k), k);
  }
}

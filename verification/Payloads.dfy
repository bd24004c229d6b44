/** Tool results as trees, and the numbers a claim may cite from one. */
module Payloads {
  import opened Collections

  /** A text comes with the quantities extracted from it. */
  datatype Payload =
    | Null
    | Bool(b: bool)
    | Number(value: real)
    | Text(text: string, numbers: seq<real>)
    | List(items: seq<Payload>)
    | Object(entries: seq<Entry>)

  datatype Entry = Entry(key: Payload, value: Payload)

  predicate Hashable(p: Payload) {
    !p.List? && !p.Object?
  }

  /** What two items of one list have in common when they count as one; `true` equals 1 and `false` equals 0. */
  function HashKey(p: Payload): Payload {
    match p
    case Bool(b) => Number(if b then 1.0 else 0.0)
    case Text(t, _) => Text(t, [])
    case _ => p
  }

  function HashKeys(items: seq<Payload>): set<Payload> {
    set item | item in items :: HashKey(item)
  }

  /** Two items of a list count as one if they are equal, are texts that read the same, or are a truth value and its number. */
  predicate CountAsOne(a: Payload, b: Payload) {
    || a == b
    || (a.Text? && b.Text? && a.text == b.text)
    || (a.Bool? && b.Number? && b.value == (if a.b then 1.0 else 0.0))
    || (b.Bool? && a.Number? && a.value == (if b.b then 1.0 else 0.0))
  }

  lemma HashKeyIff(a: Payload, b: Payload)
    ensures HashKey(a) == HashKey(b) <==> CountAsOne(a, b)
  {
  }

  /** The items no two of which count as one, that every item counts as one with: as many as there are keys. */
  ghost predicate Represent(chosen: seq<Payload>, items: seq<Payload>) {
    && (forall i :: 0 <= i < |chosen| ==> chosen[i] in items)
    && (forall i, j :: 0 <= i < j < |chosen| ==> !CountAsOne(chosen[i], chosen[j]))
    && (forall item :: item in items ==> Covered(item, chosen))
  }

  ghost predicate Covered(item: Payload, chosen: seq<Payload>) {
    exists i :: 0 <= i < |chosen| && CountAsOne(item, chosen[i])
  }

  lemma {:induction false} KeysAreDistinct(items: seq<Payload>) returns (chosen: seq<Payload>)
    ensures Represent(chosen, items) && |chosen| == |HashKeys(items)|
  {
    hide Represent, HashKey;
    chosen := [];
    if items == [] {
      assert HashKeys(items) == {};
      NothingRepresented();
    } else {
      var front, last := items[..|items| - 1], items[|items| - 1];
      chosen := KeysAreDistinct(front);
      assert items == front + [last];
      KeysSnoc(front, last);
      if HashKey(last) in HashKeys(front) {
        OldKey(chosen, front, last);
        assert HashKeys(items) == HashKeys(front);
      } else {
        NewKey(chosen, front, last);
        chosen := chosen + [last];
      }
    }
  }

  lemma NothingRepresented()
    ensures Represent([], [])
  {
  }

  lemma OldKey(chosen: seq<Payload>, front: seq<Payload>, last: Payload)
    requires Represent(chosen, front) && HashKey(last) in HashKeys(front)
    ensures Represent(chosen, front + [last])
  {
    var item := OwnerOfKey(front, HashKey(last));
    AlsoCovered(chosen, last, item);
    hide CountAsOne, HashKey, HashKeys, Covered;
    var items := front + [last];
    forall i | 0 <= i < |chosen| ensures chosen[i] in items {
      assert chosen[i] in front;
    }
  }

  lemma OwnerOfKey(items: seq<Payload>, k: Payload) returns (item: Payload)
    requires k in HashKeys(items)
    ensures item in items && HashKey(item) == k
  {
    hide HashKey;
    item :| item in items && HashKey(item) == k;
  }

  lemma AlsoCovered(chosen: seq<Payload>, a: Payload, b: Payload)
    requires HashKey(a) == HashKey(b)
    ensures Covered(b, chosen) ==> Covered(a, chosen)
  {
    hide CountAsOne, HashKey;
    if Covered(b, chosen) {
      var i :| 0 <= i < |chosen| && CountAsOne(b, chosen[i]);
      SameKeys(a, b, chosen[i]);
    }
  }

  lemma NewKey(chosen: seq<Payload>, front: seq<Payload>, last: Payload)
    requires Represent(chosen, front) && HashKey(last) !in HashKeys(front)
    ensures Represent(chosen + [last], front + [last])
  {
    hide CountAsOne, HashKey, HashKeys, Covered;
    var more, items := chosen + [last], front + [last];
    forall i | 0 <= i < |more| ensures more[i] in items {
    }
    forall i | 0 <= i < |chosen| ensures !CountAsOne(more[i], last) {
      KeyIsNew(front, last, chosen[i]);
    }
    forall item | item in items ensures Covered(item, more) {
      if item in front {
        StaysCovered(item, chosen, last);
      } else {
        CoversItself(chosen, last);
      }
    }
  }

  lemma KeyIsNew(front: seq<Payload>, last: Payload, item: Payload)
    requires HashKey(last) !in HashKeys(front) && item in front
    ensures !CountAsOne(item, last)
  {
    HashKeyIff(item, last);
    hide HashKey, CountAsOne;
  }

  lemma StaysCovered(item: Payload, chosen: seq<Payload>, last: Payload)
    requires Covered(item, chosen)
    ensures Covered(item, chosen + [last])
  {
    hide CountAsOne;
    var i :| 0 <= i < |chosen| && CountAsOne(item, chosen[i]);
    assert (chosen + [last])[i] == chosen[i];
  }

  lemma CoversItself(chosen: seq<Payload>, last: Payload)
    ensures Covered(last, chosen + [last])
  {
    assert CountAsOne(last, (chosen + [last])[|chosen|]);
  }

  lemma KeysSnoc(front: seq<Payload>, last: Payload)
    ensures HashKeys(front + [last]) == HashKeys(front) + {HashKey(last)}
  {
    hide HashKey;
    forall k ensures k in HashKeys(front + [last]) <==> k in HashKeys(front) + {HashKey(last)} {
      if k in HashKeys(front) {
        var item :| item in front && HashKey(item) == k;
        assert item in front + [last];
      }
      assert last in front + [last];
    }
  }

  lemma SameKeys(a: Payload, b: Payload, c: Payload)
    requires HashKey(a) == HashKey(b) && CountAsOne(b, c)
    ensures CountAsOne(a, c)
  {
    HashKeyIff(b, c);
    HashKeyIff(a, c);
  }

  /** The numbers a node carries itself: a list has its size, and the count of distinct items if all are hashable. */
  function Own(p: Payload): set<real> {
    match p
    case Number(v) => {v}
    case Text(_, numbers) => Elements(numbers)
    case List(items) =>
      {|items| as real} + if forall item :: item in items ==> Hashable(item) then {|HashKeys(items)| as real} else {}
    case _ => {}
  }

  /** Every list carries its size; one that holds a list or an object carries nothing else itself. */
  lemma ListCarries(items: seq<Payload>)
    ensures |items| as real in Own(List(items))
    ensures (exists i :: 0 <= i < |items| && (items[i].List? || items[i].Object?)) ==> Own(List(items)) == {|items| as real}
    ensures (forall i :: 0 <= i < |items| ==> !items[i].List? && !items[i].Object?) ==>
              Own(List(items)) == {|items| as real, |HashKeys(items)| as real}
  {
    if i :| 0 <= i < |items| && (items[i].List? || items[i].Object?) {
      assert items[i] in items && !Hashable(items[i]);
    }
  }

  function Flatten(p: Payload): set<real> {
    match p
    case List(items) => Own(p) + FlattenItems(items)
    case Object(entries) => FlattenEntries(entries)
    case _ => Own(p)
  }

  function FlattenItems(items: seq<Payload>): set<real> {
    if items == [] then {} else Flatten(items[0]) + FlattenItems(items[1..])
  }

  function FlattenEntries(entries: seq<Entry>): set<real> {
    if entries == [] then {} else FlattenEntry(entries[0]) + FlattenEntries(entries[1..])
  }

  function FlattenEntry(e: Entry): set<real> {
    Flatten(e.key) + Flatten(e.value)
  }

  // ---------- the reference: some node of the tree carries it ----------

  predicate Occurs(q: Payload, p: Payload) {
    q == p || match p
              case List(items) => exists i :: 0 <= i < |items| && Occurs(q, items[i])
              case Object(entries) =>
                exists i :: 0 <= i < |entries| && (Occurs(q, entries[i].key) || Occurs(q, entries[i].value))
              case _ => false
  }

  ghost predicate Carries(p: Payload, n: real) {
    exists q :: Occurs(q, p) && n in Own(q)
  }

  lemma {:induction false} ItemsCarry(items: seq<Payload>, n: real)
    ensures n in FlattenItems(items) <==> exists i :: 0 <= i < |items| && n in Flatten(items[i])
  {
    if items != [] {
      ItemsCarry(items[1..], n);
      if i :| 0 <= i < |items| && n in Flatten(items[i]) {
        if i > 0 {
          assert items[1..][i - 1] == items[i];
        }
      }
    }
  }

  lemma {:induction false} EntriesCarry(entries: seq<Entry>, n: real)
    ensures n in FlattenEntries(entries) <==>
            exists i :: 0 <= i < |entries| && (n in Flatten(entries[i].key) || n in Flatten(entries[i].value))
  {
    if entries != [] {
      EntriesCarry(entries[1..], n);
      if i :| 0 <= i < |entries| && (n in Flatten(entries[i].key) || n in Flatten(entries[i].value)) {
        if i > 0 {
          assert entries[1..][i - 1] == entries[i];
        }
      }
    }
  }

  /** A number is collected exactly if some node of the payload carries it. */
  lemma {:induction false} FlattenIsReachable(p: Payload, n: real)
    ensures n in Flatten(p) <==> Carries(p, n)
    decreases p
  {
    assert Occurs(p, p);
    match p
    case List(items) =>
      ItemsCarry(items, n);
      forall i | 0 <= i < |items| ensures n in Flatten(items[i]) <==> Carries(items[i], n) {
        FlattenIsReachable(items[i], n);
      }
      forall i, q | 0 <= i < |items| && Occurs(q, items[i]) && n in Own(q) ensures Carries(p, n) {
        assert Occurs(q, p);
      }
    case Object(entries) =>
      EntriesCarry(entries, n);
      forall i | 0 <= i < |entries|
        ensures n in Flatten(entries[i].key) <==> Carries(entries[i].key, n)
        ensures n in Flatten(entries[i].value) <==> Carries(entries[i].value, n)
      {
        FlattenIsReachable(entries[i].key, n);
        FlattenIsReachable(entries[i].value, n);
      }
      forall i, q | 0 <= i < |entries| && (Occurs(q, entries[i].key) || Occurs(q, entries[i].value)) && n in Own(q)
        ensures Carries(p, n)
      {
        assert Occurs(q, p);
      }
    case _ =>
  }

  class Collector {
    var found: set<real>

    constructor ()
      ensures found == {}
    {
      found := {};
    }

    /** Adds every number reachable from the node. */
    method Walk(node: Payload)
      modifies this
      ensures found == old(found) + Flatten(node)
      decreases node
    {
      match node
      case Null =>
      case Bool(_) =>
      case Number(v) => found := found + {v};
      case Text(_, numbers) => found := found + Elements(numbers);
      case Object(entries) =>
        for i := 0 to |entries|
          invariant found == old(found) + FlattenEntries(entries[..i])
        {
          Walk(entries[i].key);
          Walk(entries[i].value);
          EntriesSnoc(entries[..i], entries[i]);
          assert entries[..i + 1] == entries[..i] + [entries[i]];
        }
        assert entries[..|entries|] == entries;
      case List(items) =>
        found := found + {|items| as real};
        if forall item :: item in items ==> Hashable(item) {
          found := found + {|HashKeys(items)| as real};
        }
        for i := 0 to |items|
          invariant found == old(found) + (Own(node) + FlattenItems(items[..i]))
        {
          Walk(items[i]);
          ItemsSnoc(items[..i], items[i]);
          assert items[..i + 1] == items[..i] + [items[i]];
        }
        assert items[..|items|] == items;
    }
  }

  lemma {:induction false} ItemsSnoc(items: seq<Payload>, item: Payload)
    ensures FlattenItems(items + [item]) == FlattenItems(items) + Flatten(item)
  {
    if items != [] {
      ItemsSnoc(items[1..], item);
      assert (items + [item])[1..] == items[1..] + [item];
    }
  }

  lemma {:induction false} EntriesSnoc(entries: seq<Entry>, e: Entry)
    ensures FlattenEntries(entries + [e]) == FlattenEntries(entries) + (Flatten(e.key) + Flatten(e.value))
  {
    if entries != [] {
      EntriesSnoc(entries[1..], e);
      assert (entries + [e])[1..] == entries[1..] + [e];
    }
  }

  method FlattenNumbers(payload: Payload) returns (found: set<real>)
    ensures found == Flatten(payload)
  {
    var collector := new Collector();
    collector.Walk(payload);
    found := collector.found;
  }
}

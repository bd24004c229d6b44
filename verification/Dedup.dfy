/** The store of ids seen, with the time each was recorded. */
module SeenStores {
  type Seen<K> = map<K, int>

  function Evicted<K>(store: Seen<K>, cutoff: int): Seen<K> {
    map x | x in store && store[x] >= cutoff :: store[x]
  }

  /** Collects the entries older than `cutoff` and deletes them one by one. */
  method DeleteExpired<K(==)>(before: Seen<K>, cutoff: int) returns (store: Seen<K>)
    ensures store == Evicted(before, cutoff)
  {
    store := before;
    var expired := set x | x in before && before[x] < cutoff;
    while expired != {}
      invariant forall x :: x in expired ==> x in store
      invariant forall x :: x in store <==> x in before && (before[x] < cutoff ==> x in expired)
      invariant forall x :: x in store ==> store[x] == before[x]
    {
      var x :| x in expired;
      store := store - {x};
      expired := expired - {x};
    }
  }
}

/** The deduplication stage over a stream of deliveries and evictions, and exactly when it lets nothing through twice. */
module Dedup {
  import opened Accounts
  import opened Collections
  import opened SeenStores

  type TxnId = int

  datatype Transaction = Transaction(id: Option<TxnId>, user: Node, counterparty: Option<Node>, amount: real,
                                     lat: real, lon: real, merchantCategory: int)

  /** What the stage sees: a delivery with its record time, or the punctuator's stream time. */
  datatype Input = Deliver(txn: Transaction, tsMs: int) | Punctuate(streamTimeMs: int)

  predicate Fresh(store: Seen<TxnId>, input: Input) {
    input.Deliver? && input.txn.id.Some? && input.txn.id.value !in store
  }

  function Step(ttlMs: int, store: Seen<TxnId>, input: Input): Seen<TxnId> {
    match input
    case Punctuate(t) => Evicted(store, t - ttlMs)
    case Deliver(txn, ts) => if Fresh(store, input) then store[txn.id.value := ts] else store
  }

  function StoreAfter(ttlMs: int, inputs: seq<Input>): Seen<TxnId> {
    if inputs == [] then map[] else Step(ttlMs, StoreAfter(ttlMs, inputs[..|inputs| - 1]), inputs[|inputs| - 1])
  }

  /** The deliveries the stage forwards, in order. */
  function Forwarded(ttlMs: int, inputs: seq<Input>): seq<Input> {
    if inputs == [] then
      []
    else
      var front, last := inputs[..|inputs| - 1], inputs[|inputs| - 1];
      Forwarded(ttlMs, front) + if Fresh(StoreAfter(ttlMs, front), last) then [last] else []
  }

  // ---------- the reference: first occurrences ----------

  predicate Carries(input: Input, x: TxnId) {
    input.Deliver? && input.txn.id == Some(x)
  }

  /** Where `x` was first delivered. */
  function FirstOf(inputs: seq<Input>, x: TxnId): Option<nat> {
    if inputs == [] then
      None
    else
      var earlier := FirstOf(inputs[..|inputs| - 1], x);
      if earlier.Some? then earlier
      else if Carries(inputs[|inputs| - 1], x) then Some(|inputs| - 1) else None
  }

  /** The deliveries that carry an id not delivered before. */
  function Firsts(inputs: seq<Input>): seq<Input> {
    if inputs == [] then
      []
    else
      var front, last := inputs[..|inputs| - 1], inputs[|inputs| - 1];
      Firsts(front) + if last.Deliver? && last.txn.id.Some? && FirstOf(front, last.txn.id.value).None? then [last] else []
  }

  lemma {:induction false} FirstOfIsFirst(inputs: seq<Input>, x: TxnId)
    ensures match FirstOf(inputs, x)
            case Some(f) => f < |inputs| && Carries(inputs[f], x) && forall i :: 0 <= i < f ==> !Carries(inputs[i], x)
            case None => forall i :: 0 <= i < |inputs| ==> !Carries(inputs[i], x)
  {
    if inputs != [] {
      FirstOfIsFirst(inputs[..|inputs| - 1], x);
    }
  }

  /** The input is the earliest delivery of its id. */
  ghost predicate IsFirst(inputs: seq<Input>, input: Input) {
    input.Deliver? && input.txn.id.Some? &&
    var f := FirstOf(inputs, input.txn.id.value);
    f.Some? && f.value < |inputs| && inputs[f.value] == input
  }

  predicate IsNew(front: seq<Input>, last: Input) {
    last.Deliver? && last.txn.id.Some? && FirstOf(front, last.txn.id.value).None?
  }

  lemma FirstsSnoc(front: seq<Input>, last: Input)
    ensures Firsts(front + [last]) == Firsts(front) + if IsNew(front, last) then [last] else []
  {
    assert (front + [last])[..|front|] == front;
  }

  lemma IsFirstSnoc(front: seq<Input>, last: Input, input: Input)
    ensures IsFirst(front + [last], input) <==> IsFirst(front, input) || (IsNew(front, last) && input == last)
  {
    assert (front + [last])[..|front|] == front;
    if input.Deliver? && input.txn.id.Some? {
      FirstOfIsFirst(front, input.txn.id.value);
    }
  }

  /** The first occurrences are the earliest delivery of each id delivered. */
  lemma {:induction false} FirstsAreEarliest(inputs: seq<Input>)
    ensures forall input :: input in Firsts(inputs) <==> IsFirst(inputs, input)
  {
    if inputs != [] {
      hide Firsts, FirstOf, IsFirst, IsNew;
      var front, last := inputs[..|inputs| - 1], inputs[|inputs| - 1];
      assert inputs == front + [last];
      FirstsAreEarliest(front);
      FirstsSnoc(front, last);
      forall input ensures IsFirst(inputs, input) <==> IsFirst(front, input) || (IsNew(front, last) && input == last) {
        IsFirstSnoc(front, last, input);
      }
    }
  }

  predicate DifferentIds(a: Input, b: Input) {
    a.Deliver? && b.Deliver? && a.txn.id != b.txn.id
  }

  lemma NewIdIsDifferent(front: seq<Input>, last: Input, input: Input)
    requires IsNew(front, last) && IsFirst(front, input)
    ensures DifferentIds(input, last)
  {
  }

  /** No two of them carry the same id. */
  lemma {:induction false} FirstsAreDistinct(inputs: seq<Input>)
    ensures forall i, j :: 0 <= i < j < |Firsts(inputs)| ==> DifferentIds(Firsts(inputs)[i], Firsts(inputs)[j])
  {
    if inputs != [] {
      hide Firsts, FirstOf, IsFirst, IsNew, DifferentIds;
      var front, last := inputs[..|inputs| - 1], inputs[|inputs| - 1];
      assert inputs == front + [last];
      FirstsAreDistinct(front);
      FirstsSnoc(front, last);
      FirstsAreEarliest(front);
      if IsNew(front, last) {
        forall i | 0 <= i < |Firsts(front)| ensures DifferentIds(Firsts(front)[i], last) {
          assert Firsts(front)[i] in Firsts(front);
          NewIdIsDifferent(front, last, Firsts(front)[i]);
        }
      }
    }
  }

  /** Some punctuation after position `f` had a cutoff past the time recorded there. */
  ghost predicate EvictedSince(ttlMs: int, inputs: seq<Input>, f: nat) {
    f < |inputs| && inputs[f].Deliver? &&
    exists e :: f < e < |inputs| && inputs[e].Punctuate? && inputs[f].tsMs < inputs[e].streamTimeMs - ttlMs
  }

  /** Delivery `i` repeats an id, and the entry of its first delivery had not been evicted by then. */
  ghost predicate PromptAt(ttlMs: int, inputs: seq<Input>, i: nat) {
    i < |inputs| && (inputs[i].Deliver? && inputs[i].txn.id.Some? ==>
      var first := FirstOf(inputs[..i], inputs[i].txn.id.value);
      first.Some? ==> !EvictedSince(ttlMs, inputs[..i], first.value))
  }

  /** Every redelivery arrives before the entry of its first delivery is evicted. */
  ghost predicate Prompt(ttlMs: int, inputs: seq<Input>) {
    forall i {:trigger PromptAt(ttlMs, inputs, i)} :: 0 <= i < |inputs| ==> PromptAt(ttlMs, inputs, i)
  }

  lemma PromptPrefix(ttlMs: int, inputs: seq<Input>, n: nat)
    requires Prompt(ttlMs, inputs) && n <= |inputs|
    ensures Prompt(ttlMs, inputs[..n])
  {
    var front := inputs[..n];
    forall i {:trigger PromptAt(ttlMs, front, i)} | 0 <= i < n ensures PromptAt(ttlMs, front, i) {
      assert PromptAt(ttlMs, inputs, i);
      assert front[..i] == inputs[..i];
    }
  }

  lemma EvictedSinceSnoc(ttlMs: int, inputs: seq<Input>, last: Input, f: nat)
    requires f < |inputs| && inputs[f].Deliver?
    ensures EvictedSince(ttlMs, inputs + [last], f) <==>
            EvictedSince(ttlMs, inputs, f) || (last.Punctuate? && inputs[f].tsMs < last.streamTimeMs - ttlMs)
  {
    var all := inputs + [last];
    if EvictedSince(ttlMs, inputs, f) {
      var e :| f < e < |inputs| && inputs[e].Punctuate? && inputs[f].tsMs < inputs[e].streamTimeMs - ttlMs;
      assert all[e] == inputs[e];
    }
    if last.Punctuate? && inputs[f].tsMs < last.streamTimeMs - ttlMs {
      assert all[|inputs|] == last;
    }
  }

  /** The store remembers `x` with the time of its first delivery, unless that entry was evicted. */
  ghost predicate Remembers(ttlMs: int, inputs: seq<Input>, x: TxnId) {
    var store, first := StoreAfter(ttlMs, inputs), FirstOf(inputs, x);
    && (x in store <==> first.Some? && !EvictedSince(ttlMs, inputs, first.value))
    && (x in store ==> first.value < |inputs| && inputs[first.value].Deliver? && store[x] == inputs[first.value].tsMs)
  }

  lemma {:induction false} PromptRemembers(ttlMs: int, inputs: seq<Input>, x: TxnId)
    requires Prompt(ttlMs, inputs)
    ensures Remembers(ttlMs, inputs, x)
  {
    if inputs != [] {
      var front, last := inputs[..|inputs| - 1], inputs[|inputs| - 1];
      PromptPrefix(ttlMs, inputs, |inputs| - 1);
      PromptRemembers(ttlMs, front, x);
      assert PromptAt(ttlMs, inputs, |inputs| - 1);
      RemembersStep(ttlMs, front, last, x);
      assert front + [last] == inputs;
    }
  }

  lemma RemembersStep(ttlMs: int, front: seq<Input>, last: Input, x: TxnId)
    requires Remembers(ttlMs, front, x)
    requires last.Deliver? && last.txn.id == Some(x) && FirstOf(front, x).Some? ==>
               !EvictedSince(ttlMs, front, FirstOf(front, x).value)
    ensures Remembers(ttlMs, front + [last], x)
  {
    var all := front + [last];
    assert all[..|front|] == front;
    FirstOfIsFirst(front, x);
    var first := FirstOf(front, x);
    if first.Some? {
      EvictedSinceSnoc(ttlMs, front, last, first.value);
    } else if Carries(last, x) {
      assert FirstOf(all, x) == Some(|front|);
      assert !EvictedSince(ttlMs, all, |front|);
    }
  }

  /** The next delivery of a prompt stream is forwarded exactly if its id is new. */
  lemma NextIsFirst(ttlMs: int, front: seq<Input>, last: Input)
    requires Prompt(ttlMs, front)
    requires last.Deliver? && last.txn.id.Some?
    ensures Fresh(StoreAfter(ttlMs, front), last) <==>
            FirstOf(front, last.txn.id.value).None? || !PromptAt(ttlMs, front + [last], |front|)
  {
    PromptRemembers(ttlMs, front, last.txn.id.value);
    assert (front + [last])[..|front|] == front;
  }

  lemma OneMore(ttlMs: int, front: seq<Input>, last: Input)
    ensures Firsts(front + [last]) == Firsts(front) + if IsNew(front, last) then [last] else []
    ensures Forwarded(ttlMs, front + [last])
         == Forwarded(ttlMs, front) + if Fresh(StoreAfter(ttlMs, front), last) then [last] else []
  {
    FirstsSnoc(front, last);
    assert (front + [last])[..|front|] == front;
  }

  /** A new id is always forwarded, and a repeated one, on a stream prompt so far, only after its eviction. */
  lemma NextInput(ttlMs: int, front: seq<Input>, last: Input)
    ensures IsNew(front, last) ==> Fresh(StoreAfter(ttlMs, front), last)
    ensures Prompt(ttlMs, front) ==>
              (PromptAt(ttlMs, front + [last], |front|) <==> (Fresh(StoreAfter(ttlMs, front), last) ==> IsNew(front, last)))
  {
    hide PromptAt, Prompt, StoreAfter, FirstOf;
    if last.Deliver? && last.txn.id.Some? {
      FirstIsForwarded(ttlMs, front, last.txn.id.value);
      if Prompt(ttlMs, front) {
        NextIsFirst(ttlMs, front, last);
      }
    }
    if !last.Deliver? || last.txn.id.None? || IsNew(front, last) {
      NewIsPrompt(ttlMs, front, last);
    }
  }

  lemma NewIsPrompt(ttlMs: int, front: seq<Input>, last: Input)
    requires last.Deliver? && last.txn.id.Some? ==> IsNew(front, last)
    ensures PromptAt(ttlMs, front + [last], |front|)
  {
    assert (front + [last])[..|front|] == front;
  }

  lemma {:induction false} LatecomersAreForwarded(ttlMs: int, inputs: seq<Input>)
    ensures Prompt(ttlMs, inputs) ==> Forwarded(ttlMs, inputs) == Firsts(inputs)
    ensures !Prompt(ttlMs, inputs) ==> |Forwarded(ttlMs, inputs)| > |Firsts(inputs)|
  {
    if inputs != [] {
      hide Prompt, PromptAt, StoreAfter, FirstOf, Forwarded, Firsts, Fresh, IsNew;
      var front, last := inputs[..|inputs| - 1], inputs[|inputs| - 1];
      assert inputs == front + [last];
      LatecomersAreForwarded(ttlMs, front);
      PromptSnoc(ttlMs, front, last);
      NextInput(ttlMs, front, last);
      OneMore(ttlMs, front, last);
    }
  }

  /**
   The stage forwards exactly the first occurrence of each id if and only if every redelivery arrives before the
   entry of the first delivery is evicted.
   */
  lemma ForwardsFirstsIff(ttlMs: int, inputs: seq<Input>)
    ensures Forwarded(ttlMs, inputs) == Firsts(inputs) <==> Prompt(ttlMs, inputs)
  {
    LatecomersAreForwarded(ttlMs, inputs);
  }

  lemma PromptSnoc(ttlMs: int, front: seq<Input>, last: Input)
    ensures Prompt(ttlMs, front + [last]) <==> Prompt(ttlMs, front) && PromptAt(ttlMs, front + [last], |front|)
  {
    var all := front + [last];
    assert all[..|front|] == front;
    if Prompt(ttlMs, all) {
      PromptPrefix(ttlMs, all, |front|);
      assert PromptAt(ttlMs, all, |front|);
    }
    if Prompt(ttlMs, front) && PromptAt(ttlMs, all, |front|) {
      forall i {:trigger PromptAt(ttlMs, all, i)} | 0 <= i < |all| ensures PromptAt(ttlMs, all, i) {
        if i < |front| {
          assert PromptAt(ttlMs, front, i);
          assert all[..i] == front[..i];
        }
      }
    }
  }

  /** Whatever the timing, an id never delivered before is not in the store. */
  lemma {:induction false} FirstIsForwarded(ttlMs: int, inputs: seq<Input>, x: TxnId)
    ensures x in StoreAfter(ttlMs, inputs) ==> FirstOf(inputs, x).Some?
  {
    if inputs != [] {
      FirstIsForwarded(ttlMs, inputs[..|inputs| - 1], x);
    }
  }

  class DedupProcessor {
    var store: Seen<TxnId>
    const ttlMs: int
    ghost var inputs: seq<Input>

    ghost predicate Valid()
      reads this
    {
      store == StoreAfter(ttlMs, inputs)
    }

    constructor (ttlMs: int)
      ensures Valid() && this.ttlMs == ttlMs && inputs == []
    {
      this.ttlMs, store, inputs := ttlMs, map[], [];
    }

    /** Forwards a delivery whose id is not in the store, and remembers it; a delivery without an id is dropped. */
    method Process(txn: Transaction, tsMs: int) returns (forwarded: bool)
      requires Valid()
      modifies this
      ensures Valid() && inputs == old(inputs) + [Deliver(txn, tsMs)]
      ensures Forwarded(ttlMs, inputs) == Forwarded(ttlMs, old(inputs)) + if forwarded then [Deliver(txn, tsMs)] else []
    {
      inputs := inputs + [Deliver(txn, tsMs)];
      assert inputs[..|inputs| - 1] == old(inputs);
      if txn.id.None? {
        return false;
      }
      if txn.id.value in store {
        return false;
      }
      store := store[txn.id.value := tsMs];
      forwarded := true;
    }

    /** The punctuator: collects the entries older than the TTL and deletes them. */
    method Evict(streamTimeMs: int)
      requires Valid()
      modifies this
      ensures Valid() && inputs == old(inputs) + [Punctuate(streamTimeMs)]
      ensures Forwarded(ttlMs, inputs) == Forwarded(ttlMs, old(inputs))
    {
      inputs := inputs + [Punctuate(streamTimeMs)];
      assert inputs[..|inputs| - 1] == old(inputs);
      store := DeleteExpired(store, streamTimeMs - ttlMs);
    }
  }
}

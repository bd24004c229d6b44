/**
 Asking the analyst: one question about one case, answered sentence by sentence. What the model and the tools answer
 is arbitrary.
 */
module Ask {
  import opened Collections
  import opened Payloads
  import opened Publication
  import opened Verify

  type Tool = int

  datatype Sentence = Sentence(text: string, claim: seq<Quantity>, refs: seq<nat>)

  datatype Draft = Draft(sentences: seq<Sentence>, needs: seq<Tool>, providerError: bool)

  datatype Result = Result(payload: Payload, error: Option<string>)

  /** The answers from outside: what the n-th tool call returns, and what the model drafts on its n-th call. */
  datatype World = World(results: seq<Result>, drafts: seq<Draft>) {
    /** There are enough answers for all the calls one question can make. */
    predicate Enough(maxTools: int) {
      |results| >= maxTools && |drafts| >= 3
    }
  }

  datatype Removed = Removed(text: string, reason: Violation)

  datatype Answer = NotFound | Unavailable(reason: string)
                  | Answered(answer: seq<Sentence>, removed: seq<Removed>, evidence: seq<Shown>, passed: bool,
                             attempts: nat, violations: seq<Violation>)

  const NOT_FOUND := "not found"

  function FindingOf(s: Sentence): Finding {
    Finding(s.claim, s.refs)
  }

  function FindingsOf(sentences: seq<Sentence>): seq<Finding> {
    if sentences == [] then []
    else FindingsOf(sentences[..|sentences| - 1]) + [FindingOf(sentences[|sentences| - 1])]
  }

  lemma {:induction false} FindingsAt(sentences: seq<Sentence>, i: nat)
    ensures |FindingsOf(sentences)| == |sentences|
    ensures i < |sentences| ==> FindingsOf(sentences)[i] == FindingOf(sentences[i])
  {
    if sentences != [] {
      FindingsAt(sentences[..|sentences| - 1], i);
    }
  }

  // ---------- the reference: which sentences of a draft are shown ----------

  ghost function Shows(sentences: seq<Sentence>, evidence: seq<Evidence>): seq<Sentence> {
    if sentences == [] then []
    else
      var front, last := sentences[..|sentences| - 1], sentences[|sentences| - 1];
      Shows(front, evidence) + if Supported(FindingOf(last), evidence) then [last] else []
  }

  ghost function Hides(sentences: seq<Sentence>, evidence: seq<Evidence>): seq<string> {
    if sentences == [] then []
    else
      var front, last := sentences[..|sentences| - 1], sentences[|sentences| - 1];
      Hides(front, evidence) + if Supported(FindingOf(last), evidence) then [] else [last.text]
  }

  function Texts(removed: seq<Removed>): seq<string> {
    if removed == [] then [] else Texts(removed[..|removed| - 1]) + [removed[|removed| - 1].text]
  }

  /** Every sentence of a draft is either shown, and then supported, or removed. */
  lemma {:induction false} ShownOrRemoved(sentences: seq<Sentence>, evidence: seq<Evidence>)
    ensures |Shows(sentences, evidence)| + |Hides(sentences, evidence)| == |sentences|
    ensures forall s :: s in Shows(sentences, evidence) <==> s in sentences && Supported(FindingOf(s), evidence)
    ensures forall t :: t in Hides(sentences, evidence) <==>
                        exists k :: 0 <= k < |sentences| && sentences[k].text == t && !Supported(FindingOf(sentences[k]), evidence)
  {
    hide Supported;
    if sentences != [] {
      var front, last := sentences[..|sentences| - 1], sentences[|sentences| - 1];
      ShownOrRemoved(front, evidence);
      assert sentences == front + [last];
    }
  }

  ghost predicate Within<T>(a: seq<T>, b: seq<T>) {
    forall t :: t in a ==> t in b
  }

  /** Every removed sentence comes with one of the violations. */
  predicate Reasoned(removed: seq<Removed>, violations: seq<Violation>) {
    forall k :: 0 <= k < |removed| ==> removed[k].reason in violations
  }

  /** The first violation that points at sentence `i`. */
  function FirstReason(violations: seq<Violation>, i: nat): Option<Violation> {
    if violations == [] then None
    else
      var earlier, last := FirstReason(violations[..|violations| - 1], i), violations[|violations| - 1];
      if earlier.Some? then earlier else if !last.NoReport? && last.index == i then Some(last) else None
  }

  /** Violation number `m` points at sentence `i`, and no earlier one does. */
  ghost predicate FirstAgainst(violations: seq<Violation>, i: nat, m: nat) {
    && m < |violations| && !violations[m].NoReport? && violations[m].index == i
    && forall l :: 0 <= l < m ==> violations[l].NoReport? || violations[l].index != i
  }

  /** Every removed sentence is one of the draft, with the first violation against it as its reason. */
  ghost predicate GivesFirstReasons(removed: seq<Removed>, sentences: seq<Sentence>, violations: seq<Violation>) {
    forall k :: 0 <= k < |removed| ==> GivesFirstReason(removed[k], sentences, violations)
  }

  ghost predicate GivesFirstReason(r: Removed, sentences: seq<Sentence>, violations: seq<Violation>) {
    exists i: nat, m: nat {:trigger FirstAgainst(violations, i, m)} ::
      FirstAgainst(violations, i, m) && i < |sentences| && r == Removed(sentences[i].text, violations[m])
  }

  lemma {:induction false} FirstReasonIff(violations: seq<Violation>, i: nat) returns (m: nat)
    ensures FirstReason(violations, i).Some? <==> Flagged(violations, i)
    ensures FirstReason(violations, i).Some? ==> FirstReason(violations, i).value in violations
    ensures FirstReason(violations, i).Some? ==> FirstAgainst(violations, i, m) && violations[m] == FirstReason(violations, i).value
    ensures FirstReason(violations, i).None? ==>
              forall l :: 0 <= l < |violations| ==> violations[l].NoReport? || violations[l].index != i
  {
    m := 0;
    if violations != [] {
      var front := violations[..|violations| - 1];
      m := FirstReasonIff(front, i);
      if FirstReason(front, i).None? {
        m := |front|;
      }
      if k :| 0 <= k < |front| && !front[k].NoReport? && front[k].index == i {
        assert violations[k] == front[k];
      }
    }
  }

  lemma NothingSplit(evidence: seq<Evidence>)
    ensures Shows([], evidence) == [] && Hides([], evidence) == [] && Texts([]) == []
  {
  }

  lemma SplitSnoc(sentences: seq<Sentence>, i: nat, evidence: seq<Evidence>)
    requires i < |sentences|
    ensures var supported := Supported(FindingOf(sentences[i]), evidence);
            && Shows(sentences[..i + 1], evidence)
               == (if supported then Shows(sentences[..i], evidence) + [sentences[i]] else Shows(sentences[..i], evidence))
            && Hides(sentences[..i + 1], evidence)
               == (if supported then Hides(sentences[..i], evidence) else Hides(sentences[..i], evidence) + [sentences[i].text])
  {
    hide Supported;
    assert sentences[..i + 1][..i] == sentences[..i];
  }

  lemma TextsSnoc(removed: seq<Removed>, r: Removed)
    ensures Texts(removed + [r]) == Texts(removed) + [r.text]
  {
    assert (removed + [r])[..|removed|] == removed;
  }

  lemma GivesIt(sentences: seq<Sentence>, violations: seq<Violation>, i: nat, m: nat)
    requires FirstAgainst(violations, i, m) && i < |sentences|
    ensures m < |violations| && GivesFirstReason(Removed(sentences[i].text, violations[m]), sentences, violations)
  {
  }

  /** Splits a draft into the sentences that are supported and the others, each with the first reason against it. */
  method Check(sentences: seq<Sentence>, evidence: seq<Evidence>)
    returns (answer: seq<Sentence>, removed: seq<Removed>, violations: seq<Violation>)
    ensures answer == Shows(sentences, evidence) && Texts(removed) == Hides(sentences, evidence)
    ensures violations == Violations(FindingsOf(sentences), evidence)
    ensures Reasoned(removed, violations) && GivesFirstReasons(removed, sentences, violations)
  {
    hide Supported, Violations, Flagged, GivesFirstReason, FirstAgainst, FirstReason, Shows, Hides, Texts, FindingsOf;
    NothingSplit(evidence);
    violations := VerifyClaims(FindingsOf(sentences), evidence);
    answer, removed := [], [];
    for i := 0 to |sentences|
      invariant answer == Shows(sentences[..i], evidence) && Texts(removed) == Hides(sentences[..i], evidence)
      invariant forall k :: 0 <= k < |removed| ==> removed[k].reason in violations
      invariant GivesFirstReasons(removed, sentences, violations)
    {
      assert sentences[..i + 1][..i] == sentences[..i];
      SplitSnoc(sentences, i, evidence);
      FindingsAt(sentences, i);
      FlaggedIff(FindingsOf(sentences), evidence, i);
      var reason := FirstReason(violations, i);
      ghost var m := FirstReasonIff(violations, i);
      if reason.None? {
        answer := answer + [sentences[i]];
      } else {
        GivesIt(sentences, violations, i, m);
        TextsSnoc(removed, Removed(sentences[i].text, reason.value));
        removed := removed + [Removed(sentences[i].text, reason.value)];
      }
    }
    assert sentences[..|sentences|] == sentences;
  }

  /** The model is asked a second time at once only if its first draft asks for evidence and says nothing. */
  function FirstAttempts(world: World): nat
    requires |world.drafts| >= 3
  {
    if AsksFirst(world) then 2 else 1
  }

  /** Nothing of the draft can be shown, and the provider did answer. */
  ghost predicate NeedsRewrite(d: Draft, evidence: seq<Evidence>) {
    Shows(d.sentences, evidence) == [] && !d.providerError
  }

  class Conversation {
    const world: World
    var evidence: seq<Evidence>
    var budget: int
    var attempts: nat
    var violations: seq<Violation>
    /** The number of tools fetched so far. */
    var calls: nat
    ghost const initial: seq<Evidence>
    ghost const allowed: int

    ghost predicate Valid()
      reads this
    {
      && world.Enough(allowed) && initial <= evidence && |evidence| == |initial| + calls
      && calls + budget == allowed && (calls > 0 ==> budget >= 0)
      && FetchedOnce(evidence, |initial|) && Fetched(world, evidence, |initial|, calls)
    }

    constructor (world: World, initial: seq<Evidence>, maxTools: int)
      requires world.Enough(maxTools)
      ensures Valid() && this.world == world && this.initial == initial && allowed == maxTools
      ensures evidence == initial && attempts == 0 && violations == [] && calls == 0
    {
      this.world, this.initial, allowed := world, initial, maxTools;
      evidence, budget, attempts, violations, calls := initial, maxTools, 0, [], 0;
    }

    /** Runs the named tools while the budget lasts, leaving out those the evidence already has a result of. */
    method Fetch(names: seq<Tool>)
      requires Valid()
      modifies this`evidence, this`budget, this`calls
      ensures Valid() && Obtains(names, old(evidence), evidence, budget)
    {
      hide FetchedFor;
      ghost var asked: seq<nat> := [];
      NothingAsked(names, evidence, budget);
      for i := 0 to |names|
        invariant Valid() && old(evidence) <= evidence
        invariant FetchedFor(names, i, old(evidence), evidence, asked, budget)
      {
        if budget > 0 && !(exists k :: 0 <= k < |evidence| && evidence[k].tool == names[i] && evidence[k].Ok()) {
          budget := budget - 1;
          var result := world.results[calls];
          var e := Evidence(names[i], result.payload, result.error);
          OneMoreAsked(names, i, old(evidence), evidence, asked, budget + 1, e);
          asked := asked + [i];
          evidence := evidence + [e];
          calls := calls + 1;
          assert evidence[|evidence| - 1].tool == names[i];
        } else {
          OneMoreSkipped(names, i, old(evidence), evidence, asked, budget);
        }
      }
    }

    method NextDraft() returns (d: Draft)
      requires attempts < |world.drafts|
      modifies this`attempts
      ensures attempts == old(attempts) + 1 && d == world.drafts[old(attempts)]
    {
      d := world.drafts[attempts];
      attempts := attempts + 1;
    }

    /**
     The first draft, and a second one where the first only asked for more evidence: the routed tools are run before the
     first, the tools that one asked for before the second.
     */
    method FirstDraft(routed: seq<Tool>) returns (d: Draft, ghost first: seq<Evidence>)
      requires Valid() && attempts == 0
      modifies this`evidence, this`budget, this`calls, this`attempts
      ensures Valid() && attempts == FirstAttempts(world) && d == world.drafts[attempts - 1]
      ensures Obtains(routed, old(evidence), first, allowed - (|first| - |initial|))
      ensures if attempts == 1 then evidence == first else Obtains(world.drafts[0].needs, first, evidence, budget)
    {
      hide FetchedOnce, Fetched, Obtains;
      Fetch(routed);
      first := evidence;
      d := NextDraft();
      if d.needs != [] && d.sentences == [] {
        Fetch(d.needs);
        d := NextDraft();
      }
    }

    /**
     Answers one question. What is shown is exactly the supported part of the last draft, and it is supported by the
     evidence as published; every other sentence of that draft is listed as removed, with a reason. The evidence is
     `first` when the first draft is made.
     */
    method Respond(routed: seq<Tool>) returns (r: Answer, ghost first: seq<Evidence>)
      requires Valid() && attempts == 0 && violations == []
      modifies this
      ensures Valid() && initial <= evidence && calls <= Max(0, allowed)
      ensures Obtains(routed, old(evidence), first, allowed - (|first| - |initial|))
      ensures if FirstAttempts(world) == 1 then evidence == first else Obtains(world.drafts[0].needs, first, evidence, budget)
      ensures attempts == FirstAttempts(world) + if NeedsRewrite(world.drafts[FirstAttempts(world) - 1], evidence) then 1 else 0
      ensures r.Answered? && r.violations == Violations(FindingsOf(world.drafts[FirstAttempts(world) - 1].sentences), evidence)
                + if attempts == FirstAttempts(world) then [] else Violations(FindingsOf(world.drafts[attempts - 1].sentences), evidence)
      ensures r.Answered? && r.evidence == ShowAll(evidence) && r.attempts == attempts && 0 < attempts <= |world.drafts|
      ensures r.answer == Shows(world.drafts[attempts - 1].sentences, evidence) && (r.passed <==> r.answer != [])
      ensures forall k :: 0 <= k < |r.answer| ==> Supported(Finding(r.answer[k].claim, r.answer[k].refs), RereadAll(r.evidence))
      ensures Within(Hides(world.drafts[attempts - 1].sentences, evidence), Texts(r.removed))
      ensures Within(Texts(r.removed), Hides(world.drafts[attempts - 1].sentences, evidence) +
                                       if attempts >= 2 then Hides(world.drafts[attempts - 2].sentences, evidence) else [])
      ensures Reasoned(r.removed, r.violations)
    {
      hide Supported, ShowAll, RereadAll, Shows, Hides, Texts, FetchedOnce, Fetched, Violations, Within, Reasoned, FindingsOf,
           Obtains;
      var d;
      d, first := FirstDraft(routed);
      var answer, removed, found := Check(d.sentences, evidence);
      ghost var earlier := if attempts >= 2 then Hides(world.drafts[attempts - 2].sentences, evidence) else [];
      SelfWithin(Texts(removed), earlier);
      violations := violations + found;
      assert violations == found;
      if answer == [] && !d.providerError {
        d := NextDraft();
        var again;
        answer, again, found := Check(d.sentences, evidence);
        removed := Merge(removed, again, violations, found);
        violations := violations + found;
      }
      AnswerStillSupported(d.sentences, evidence);
      r := Answered(answer, removed, ShowAll(evidence), answer != [], attempts, violations);
    }
  }

  lemma SelfWithin<T>(a: seq<T>, more: seq<T>)
    ensures Within(a, a) && Within(a, a + more)
  {
  }

  /** The removed sentences among `again`, in order, whose text is not among those already removed. */
  function Unlisted(again: seq<Removed>, removed: seq<Removed>): seq<Removed> {
    if again == [] then []
    else
      var last := again[|again| - 1];
      Unlisted(again[..|again| - 1], removed) + if last.text !in Texts(removed) then [last] else []
  }

  lemma {:induction false} UnlistedIs(again: seq<Removed>, removed: seq<Removed>, r: Removed)
    ensures r in Unlisted(again, removed) <==> r in again && r.text !in Texts(removed)
  {
    hide Texts;
    if again != [] {
      UnlistedIs(again[..|again| - 1], removed, r);
      assert again == again[..|again| - 1] + [again[|again| - 1]];
    }
  }

  lemma {:induction false} TextsIs(removed: seq<Removed>, t: string) returns (k: nat)
    ensures t in Texts(removed) ==> k < |removed| && removed[k].text == t
    ensures forall r :: r in removed ==> r.text in Texts(removed)
  {
    k := 0;
    if removed != [] {
      var last := removed[|removed| - 1];
      k := TextsIs(removed[..|removed| - 1], t);
      assert removed == removed[..|removed| - 1] + [last];
      if t == last.text {
        k := |removed| - 1;
      }
    }
  }

  /** Both lists of texts are within the merged one, and nothing else is. */
  lemma MergedTexts(removed: seq<Removed>, again: seq<Removed>)
    ensures var merged := removed + Unlisted(again, removed);
            && Within(Texts(again), Texts(merged)) && Within(Texts(merged), Texts(again) + Texts(removed))
  {
    hide Texts, Unlisted;
    var merged := removed + Unlisted(again, removed);
    forall t | t in Texts(again) ensures t in Texts(merged) {
      var k := TextsIs(again, t);
      UnlistedIs(again, removed, again[k]);
      var j := TextsIs(removed, t);
      var m := TextsIs(merged, t);
    }
    forall t | t in Texts(merged) ensures t in Texts(again) + Texts(removed) {
      var k := TextsIs(merged, t);
      UnlistedIs(again, removed, merged[k]);
      var i := TextsIs(again, t);
      var j := TextsIs(removed, t);
    }
  }

  lemma MergedReasons(removed: seq<Removed>, again: seq<Removed>, v1: seq<Violation>, v2: seq<Violation>)
    requires Reasoned(removed, v1) && Reasoned(again, v2)
    ensures Reasoned(removed + Unlisted(again, removed), v1 + v2)
  {
    hide Texts, Unlisted;
    var merged := removed + Unlisted(again, removed);
    forall k | 0 <= k < |merged| ensures merged[k].reason in v1 + v2 {
      UnlistedIs(again, removed, merged[k]);
    }
  }

  /** Adds the sentences removed from the rewrite whose text was not removed before. */
  method Merge(removed: seq<Removed>, again: seq<Removed>, ghost v1: seq<Violation>, ghost v2: seq<Violation>)
    returns (merged: seq<Removed>)
    requires Reasoned(removed, v1) && Reasoned(again, v2)
    ensures merged == removed + Unlisted(again, removed)
    ensures Within(Texts(again), Texts(merged)) && Within(Texts(merged), Texts(again) + Texts(removed))
    ensures Reasoned(merged, v1 + v2)
  {
    hide Texts, Within, Reasoned;
    merged := removed;
    for i := 0 to |again|
      invariant merged == removed + Unlisted(again[..i], removed)
    {
      assert again[..i + 1][..i] == again[..i];
      if again[i].text !in Texts(removed) {
        merged := merged + [again[i]];
      }
    }
    assert again[..|again|] == again;
    MergedTexts(removed, again);
    MergedReasons(removed, again, v1, v2);
  }

  lemma AnswerStillSupported(sentences: seq<Sentence>, evidence: seq<Evidence>)
    ensures var shown := Shows(sentences, evidence);
            forall k :: 0 <= k < |shown| ==> Supported(FindingOf(shown[k]), RereadAll(ShowAll(evidence)))
  {
    hide Supported, RereadAll, ShowAll;
    ShownOrRemoved(sentences, evidence);
    var shown := Shows(sentences, evidence);
    forall k | 0 <= k < |shown| ensures Supported(FindingOf(shown[k]), RereadAll(ShowAll(evidence))) {
      assert shown[k] in shown;
      PublishedStillSupports(FindingOf(shown[k]), evidence);
    }
  }

  /**
   Loads the case and answers; a case that cannot be loaded is an error, told apart by its message. Every routed tool has
   a result when the first draft is made, `first` being the evidence then, and every tool that draft asked for when a
   second one is made at once, unless the budget was spent; no other tool is run.
   */
  method AskCase(world: World, caseError: Option<string>, initial: seq<Evidence>, routed: seq<Tool>, maxTools: int)
    returns (r: Answer, ghost first: seq<Evidence>, ghost evidence: seq<Evidence>)
    requires world.Enough(maxTools)
    ensures caseError.None? <==> r.Answered?
    ensures r.NotFound? <==> caseError == Some("not found")
    ensures r.Unavailable? ==> r.reason == if caseError == Some("") then "unknown error" else caseError.value
    ensures r.Answered? ==> initial <= evidence && r.evidence == ShowAll(evidence) && 0 < r.attempts <= 3
                            && r.answer == Shows(world.drafts[r.attempts - 1].sentences, evidence)
    ensures r.Answered? ==> (r.passed <==> r.answer != [])
    ensures r.Answered? ==> forall k :: 0 <= k < |r.answer| ==>
                                          Supported(Finding(r.answer[k].claim, r.answer[k].refs), RereadAll(r.evidence))
    ensures r.Answered? ==> Gathered(world, routed, initial, first, evidence, maxTools)
    ensures r.Answered? && AsksFirst(world) ==> r.attempts >= 2
  {
    hide Supported, RereadAll, ShowAll, Shows, Hides, Obtains, Fetched, FetchedOnce, Gathered, Within, Texts, Reasoned, Violations,
         FindingsOf, FindingOf;
    first, evidence := initial, initial;
    if caseError.Some? {
      r := if caseError.value == NOT_FOUND then NotFound
           else Unavailable(if caseError.value == "" then "unknown error" else caseError.value);
      return;
    }
    var conversation := new Conversation(world, initial, maxTools);
    r, first := conversation.Respond(routed);
    evidence := conversation.evidence;
    GatheredIs(world, routed, initial, first, evidence, maxTools);
  }

  /** The first draft says nothing and asks for evidence. */
  predicate AsksFirst(world: World)
    requires |world.drafts| >= 3
  {
    world.drafts[0].needs != [] && world.drafts[0].sentences == []
  }

  ghost predicate AllServed(names: seq<Tool>, before: nat, evidence: seq<Evidence>, budget: int) {
    forall i :: 0 <= i < |names| ==> Served(names[i], before, evidence, budget)
  }

  /**
   The evidence behind an answer: the routed tools were run for the first draft, the tools it asked for, if it asked
   first, for the second, and no other; each is served by the evidence then and at the end, and what was added is what the
   tools returned.
   */
  ghost predicate Gathered(world: World, routed: seq<Tool>, initial: seq<Evidence>, first: seq<Evidence>,
                           evidence: seq<Evidence>, maxTools: int)
    requires world.Enough(maxTools)
  {
    var left0, left := maxTools - (|first| - |initial|), maxTools - (|evidence| - |initial|);
    && initial <= first <= evidence && Fetched(world, evidence, |initial|, |evidence| - |initial|)
    && Obtains(routed, initial, first, left0)
    && AllServed(routed, |initial|, first, left0) && AllServed(routed, |initial|, evidence, left)
    && (forall k :: |initial| <= k < |first| ==> first[k].tool in routed)
    && if AsksFirst(world) then
         && Obtains(world.drafts[0].needs, first, evidence, left) && AllServed(world.drafts[0].needs, |first|, evidence, left)
         && (forall k :: |first| <= k < |evidence| ==> evidence[k].tool in world.drafts[0].needs)
       else
         evidence == first
  }

  lemma GatheredIs(world: World, routed: seq<Tool>, initial: seq<Evidence>, first: seq<Evidence>, evidence: seq<Evidence>,
                   maxTools: int)
    requires world.Enough(maxTools) && |evidence| >= |initial|
    requires Fetched(world, evidence, |initial|, |evidence| - |initial|)
    requires Obtains(routed, initial, first, maxTools - (|first| - |initial|))
    requires if AsksFirst(world) then Obtains(world.drafts[0].needs, first, evidence, maxTools - (|evidence| - |initial|))
             else evidence == first
    ensures Gathered(world, routed, initial, first, evidence, maxTools)
  {
    hide Obtains, Served, Fetched;
    ObtainsServes(routed, initial, first, maxTools - (|first| - |initial|));
    if AsksFirst(world) {
      ObtainsServes(world.drafts[0].needs, first, evidence, maxTools - (|evidence| - |initial|));
      StayServed(routed, |initial|, first, evidence, maxTools - (|first| - |initial|));
    }
  }

  /** What was fetched is what the tools returned, in the order of the calls. */
  ghost predicate Fetched(world: World, evidence: seq<Evidence>, initial: nat, calls: nat) {
    && initial + calls <= |evidence| && calls <= |world.results|
    && forall c :: 0 <= c < calls ==>
         evidence[initial + c].payload == world.results[c].payload && evidence[initial + c].error == world.results[c].error
  }

  /** The tool was asked for now, or its result was there, unless the budget is spent. */
  ghost predicate Served(name: Tool, before: nat, evidence: seq<Evidence>, budget: int) {
    budget <= 0 || exists k :: 0 <= k < |evidence| && evidence[k].tool == name && (evidence[k].Ok() || before <= k)
  }

  /**
   Of the first `n` names just those numbered `asked` were run, in order, and their results follow the evidence there was.
   Every other name was left out because a result without an error was there, or because the budget was spent.
   */
  ghost predicate FetchedFor(names: seq<Tool>, n: nat, before: seq<Evidence>, after: seq<Evidence>, asked: seq<nat>, budget: int) {
    && n <= |names| && before <= after && |after| == |before| + |asked|
    && (forall j :: 0 <= j < |asked| ==> asked[j] < n && after[|before| + j].tool == names[asked[j]])
    && (forall j, l :: 0 <= j < l < |asked| ==> asked[j] < asked[l])
    && forall i :: 0 <= i < n && i !in asked ==> LeftOut(names[i], i, before, after, asked, budget)
  }

  ghost predicate LeftOut(name: Tool, i: nat, before: seq<Evidence>, after: seq<Evidence>, asked: seq<nat>, budget: int) {
    || (exists k :: 0 <= k < |after| && after[k].tool == name && after[k].Ok()
                    && (k < |before| || (k - |before| < |asked| && asked[k - |before|] < i)))
    || (budget <= 0 && forall j :: 0 <= j < |asked| ==> asked[j] < i)
  }

  /** The named tools were run as just described. */
  ghost predicate Obtains(names: seq<Tool>, before: seq<Evidence>, after: seq<Evidence>, budget: int) {
    exists asked {:trigger FetchedFor(names, |names|, before, after, asked, budget)} ::
      FetchedFor(names, |names|, before, after, asked, budget)
  }

  lemma NothingAsked(names: seq<Tool>, evidence: seq<Evidence>, budget: int)
    ensures FetchedFor(names, 0, evidence, evidence, [], budget)
  {
  }

  lemma OneMoreAsked(names: seq<Tool>, n: nat, before: seq<Evidence>, after: seq<Evidence>, asked: seq<nat>, budget: int,
                     e: Evidence)
    requires FetchedFor(names, n, before, after, asked, budget) && n < |names| && budget > 0 && e.tool == names[n]
    ensures FetchedFor(names, n + 1, before, after + [e], asked + [n], budget - 1)
  {
    var after', asked' := after + [e], asked + [n];
    forall i | 0 <= i < n + 1 && i !in asked' ensures LeftOut(names[i], i, before, after', asked', budget - 1) {
      assert asked'[|asked|] == n;
      assert i !in asked;
      assert LeftOut(names[i], i, before, after, asked, budget);
      var k :| 0 <= k < |after| && after[k].tool == names[i] && after[k].Ok()
               && (k < |before| || (k - |before| < |asked| && asked[k - |before|] < i));
      assert after'[k] == after[k];
    }
  }

  lemma OneMoreSkipped(names: seq<Tool>, n: nat, before: seq<Evidence>, after: seq<Evidence>, asked: seq<nat>, budget: int)
    requires FetchedFor(names, n, before, after, asked, budget) && n < |names|
    requires budget <= 0 || exists k :: 0 <= k < |after| && after[k].tool == names[n] && after[k].Ok()
    ensures FetchedFor(names, n + 1, before, after, asked, budget)
  {
    assert LeftOut(names[n], n, before, after, asked, budget);
  }

  /** So every named tool has a result, new or without an error, unless the budget is spent; and no other tool was run. */
  lemma ObtainsServes(names: seq<Tool>, before: seq<Evidence>, after: seq<Evidence>, budget: int)
    requires Obtains(names, before, after, budget)
    ensures before <= after
    ensures forall i :: 0 <= i < |names| ==> Served(names[i], |before|, after, budget)
    ensures forall k :: |before| <= k < |after| ==> after[k].tool in names
  {
    var asked :| FetchedFor(names, |names|, before, after, asked, budget);
    forall i | 0 <= i < |names| ensures Served(names[i], |before|, after, budget) {
      if i in asked {
        var j :| 0 <= j < |asked| && asked[j] == i;
        assert after[|before| + j].tool == names[i];
      } else {
        assert LeftOut(names[i], i, before, after, asked, budget);
      }
    }
    forall k | |before| <= k < |after| ensures after[k].tool in names {
      assert after[|before| + (k - |before|)].tool == names[asked[k - |before|]];
    }
  }

  lemma StayServed(names: seq<Tool>, before: nat, first: seq<Evidence>, evidence: seq<Evidence>, budget: int)
    requires first <= evidence && forall i :: 0 <= i < |names| ==> Served(names[i], before, first, budget)
    ensures forall i :: 0 <= i < |names| ==> Served(names[i], before, evidence, budget - (|evidence| - |first|))
  {
    forall i | 0 <= i < |names| ensures Served(names[i], before, evidence, budget - (|evidence| - |first|)) {
      assert Served(names[i], before, first, budget);
      if k :| 0 <= k < |first| && first[k].tool == names[i] && (first[k].Ok() || before <= k) {
        assert evidence[k] == first[k];
      }
    }
  }

  /** No tool was fetched that already had a result without an error. */
  ghost predicate FetchedOnce(evidence: seq<Evidence>, initial: nat) {
    forall i, j :: 0 <= i < j < |evidence| && initial <= j && evidence[i].tool == evidence[j].tool ==> !evidence[i].Ok()
  }
}

/**
 The investigation graph: triage, then rounds of investigate, similar cases, draft and verify, then finalize. What the
 model and the tools answer is arbitrary; the theorems hold for every sequence of answers.
 */
module Investigation {
  import opened Collections
  import opened Payloads
  import opened Publication
  import opened Verify

  datatype Settings = Settings(maxToolCalls: int, maxVerifyAttempts: int)

  datatype FraudType = RING | VELOCITY | GEO | MIXED | UNCERTAIN
  datatype RecommendedAction = CONFIRM_BLOCK | RELEASE | ESCALATE

  datatype Report = Report(summary: string, fraudType: FraudType, confidence: real, findings: seq<Finding>,
                           action: RecommendedAction)

  datatype Message = Prompt | BudgetExhausted | ModelReply | ToolReply(shown: Shown)

  datatype State = State(messages: seq<Message>, evidence: seq<Evidence>, report: Option<Report>,
                         violations: seq<Violation>, allViolations: seq<Violation>, toolCallsUsed: int,
                         verifyAttempts: nat)

  const START := State([], [], None, [], [], 0, 0)

  datatype Outcome = Returned(payload: Payload, error: Option<string>) | BadArguments(reason: string)

  /** A tool the model asked for: whether there is such a tool, and what calling it did. */
  datatype ToolCall = ToolCall(tool: int, callable: bool, outcome: Outcome)

  /** What the outside answers during one visit: a lookup, the model's tool requests if it could be reached, a draft. */
  datatype Turn = Turn(lookup: Evidence, requests: Option<seq<ToolCall>>, draft: Option<Report>)

  datatype Node = Triage | Investigate | SimilarCases | DraftReport | VerifyReport | Finalize | End

  datatype Attached = Attached(report: Report, evidence: seq<Shown>, passed: bool, attempts: nat,
                               violations: seq<Violation>, toolCallsUsed: int)

  // ---------- the nodes ----------

  function ResultOf(call: ToolCall): Evidence {
    if !call.callable then Evidence(call.tool, Null, Some("no such tool"))
    else match call.outcome
         case Returned(payload, error) => Evidence(call.tool, payload, error)
         case BadArguments(reason) => Evidence(call.tool, Null, Some("bad arguments: " + reason))
  }

  function Results(calls: seq<ToolCall>): seq<Evidence> {
    if calls == [] then [] else Results(calls[..|calls| - 1]) + [ResultOf(calls[|calls| - 1])]
  }

  /** What the model is told: each result under its position in the list of all evidence. */
  function Replies(before: nat, calls: seq<ToolCall>): seq<Message> {
    if calls == [] then []
    else
      Replies(before, calls[..|calls| - 1]) + [ToolReply(Show(before + |calls| - 1, ResultOf(calls[|calls| - 1])))]
  }

  function TriageStep(s: State, turn: Turn): State {
    s.(messages := s.messages + [Prompt, Prompt], evidence := s.evidence + [turn.lookup], toolCallsUsed := 0,
       verifyAttempts := 0)
  }

  function InvestigateStep(settings: Settings, s: State, turn: Turn): State {
    var remaining := settings.maxToolCalls - s.toolCallsUsed;
    if remaining <= 0 then
      s.(messages := s.messages + [BudgetExhausted])
    else if turn.requests.None? then
      s.(toolCallsUsed := settings.maxToolCalls)
    else
      var calls := if |turn.requests.value| <= remaining then turn.requests.value else turn.requests.value[..remaining];
      s.(messages := s.messages + [ModelReply] + Replies(|s.evidence|, calls),
         evidence := s.evidence + Results(calls), toolCallsUsed := s.toolCallsUsed + |calls|)
  }

  function AfterInvestigate(settings: Settings, s: State): Node {
    if s.toolCallsUsed >= settings.maxToolCalls then SimilarCases
    else if s.messages != [] && s.messages[|s.messages| - 1].ToolReply? then Investigate
    else SimilarCases
  }

  function SimilarStep(s: State, turn: Turn): State {
    s.(evidence := s.evidence + [turn.lookup])
  }

  function DraftStep(s: State, turn: Turn): State {
    s.(report := turn.draft)
  }

  function VerifyStep(s: State): State {
    var violations := if s.report.None? then [NoReport] else Violations(s.report.value.findings, s.evidence);
    s.(violations := violations, allViolations := s.allViolations + violations, verifyAttempts := s.verifyAttempts + 1)
  }

  function AfterVerify(settings: Settings, s: State): Node {
    if s.violations == [] then Finalize
    else if s.verifyAttempts < settings.maxVerifyAttempts then Investigate
    else Finalize
  }

  /** The findings no violation points at, in order. */
  function Kept(findings: seq<Finding>, violations: seq<Violation>): seq<Finding> {
    if findings == [] then []
    else
      var i := |findings| - 1;
      Kept(findings[..i], violations) + if Flagged(violations, i) then [] else [findings[i]]
  }

  /** Each violation once, at its first occurrence. */
  function Distinct(violations: seq<Violation>): seq<Violation> {
    if violations == [] then []
    else
      var front, last := violations[..|violations| - 1], violations[|violations| - 1];
      Distinct(front) + if last in front then [] else [last]
  }

  function FinalReport(s: State): Report {
    if s.violations != [] || s.report.None? then
      var kept := if s.report.None? then [] else Kept(s.report.value.findings, s.violations);
      var summary := if s.report.Some? && s.report.value.summary != "" then s.report.value.summary
                     else "The agent could not produce a report whose claims are all supported.";
      Report(summary, UNCERTAIN, 0.0, kept, ESCALATE)
    else
      s.report.value
  }

  function FinalizeStep(s: State): Attached {
    Attached(FinalReport(s), ShowAll(s.evidence), s.violations == [], s.verifyAttempts, Distinct(s.allViolations),
             s.toolCallsUsed)
  }

  // ---------- runs ----------

  /** A run so far; the counts of visits, tool calls and drafts are kept for the theorems only. */
  datatype Run = Run(node: Node, state: State, attached: Option<Attached>, visits: nat, tools: nat, drafts: nat)

  function Step(settings: Settings, run: Run, turn: Turn): Run {
    var s := run.state;
    match run.node
    case Triage => run.(node := Investigate, state := TriageStep(s, turn), visits := run.visits + 1)
    case Investigate =>
      var s1 := InvestigateStep(settings, s, turn);
      run.(node := AfterInvestigate(settings, s1), state := s1, visits := run.visits + 1,
           tools := run.tools + ToolsRun(settings, s, turn))
    case SimilarCases => run.(node := DraftReport, state := SimilarStep(s, turn), visits := run.visits + 1)
    case DraftReport =>
      run.(node := VerifyReport, state := DraftStep(s, turn), visits := run.visits + 1, drafts := run.drafts + 1)
    case VerifyReport =>
      var s1 := VerifyStep(s);
      run.(node := AfterVerify(settings, s1), state := s1, visits := run.visits + 1)
    case Finalize => run.(node := End, attached := Some(FinalizeStep(s)), visits := run.visits + 1)
    case End => run
  }

  /** The number of tools one visit of investigate runs. */
  function ToolsRun(settings: Settings, s: State, turn: Turn): nat {
    var remaining := settings.maxToolCalls - s.toolCallsUsed;
    if remaining <= 0 || turn.requests.None? then 0 else Min(remaining, |turn.requests.value|)
  }

  function After(settings: Settings, turns: seq<Turn>): Run {
    if turns == [] then Run(Triage, START, None, 0, 0, 0)
    else Step(settings, After(settings, turns[..|turns| - 1]), turns[|turns| - 1])
  }

  // ---------- how long a run can be ----------

  function Attempts(settings: Settings): nat {
    Max(1, settings.maxVerifyAttempts)
  }

  function VisitBound(settings: Settings): nat {
    2 + Max(0, settings.maxToolCalls - 1) + 4 * Attempts(settings)
  }

  /** An upper bound on the visits still to come: attempts left first, then tool budget left, then the node. */
  function Potential(settings: Settings, run: Run): int {
    var left, loops := Attempts(settings) - run.state.verifyAttempts, Max(0, settings.maxToolCalls - 1 - run.state.toolCallsUsed);
    match run.node
    case Triage => VisitBound(settings)
    case Investigate => 4 * left + loops + 1
    case SimilarCases => 4 * left + loops
    case DraftReport => 4 * left + loops - 1
    case VerifyReport => 4 * left + loops - 2
    case Finalize => 1
    case End => 0
  }

  ghost predicate WithinBudget(settings: Settings, run: Run) {
    var s := run.state;
    && run.visits + Potential(settings, run) <= VisitBound(settings)
    && run.tools <= s.toolCallsUsed <= Max(0, settings.maxToolCalls)
    && run.drafts == s.verifyAttempts + (if run.node.VerifyReport? then 1 else 0)
    && s.verifyAttempts <= Attempts(settings)
    && (run.attached.Some? <==> run.node.End?)
    && (run.node.Triage? ==> run == Run(Triage, START, None, 0, 0, 0))
    && (!run.node.Finalize? && !run.node.End? ==> s.verifyAttempts < Attempts(settings))
  }

  lemma StepWithinBudget(settings: Settings, run: Run, turn: Turn)
    requires WithinBudget(settings, run)
    ensures WithinBudget(settings, Step(settings, run, turn))
  {
    hide Replies, Results, Violations, FinalizeStep;
    if run.node.Investigate? {
      InvestigateEndsInReply(settings, run.state, turn);
    }
  }

  /** A visit of investigate leaves a tool reply last only if it ran a tool or did nothing but fail. */
  lemma InvestigateEndsInReply(settings: Settings, s: State, turn: Turn)
    ensures var s1 := InvestigateStep(settings, s, turn);
            && s1.toolCallsUsed >= s.toolCallsUsed + ToolsRun(settings, s, turn)
            && (s.toolCallsUsed <= Max(0, settings.maxToolCalls) ==> s1.toolCallsUsed <= Max(0, settings.maxToolCalls))
            && (AfterInvestigate(settings, s1) == Investigate ==>
                  s.toolCallsUsed < s1.toolCallsUsed < settings.maxToolCalls)
  {
  }

  /** A run starts with no evidence, no draft and nothing spent. */
  lemma StartsEmpty(settings: Settings)
    ensures After(settings, []).node.Triage? && After(settings, []).attached.None?
    ensures After(settings, []).state == State([], [], None, [], [], 0, 0)
  {
  }

  lemma StartsWithinBudget(settings: Settings)
    ensures WithinBudget(settings, Run(Triage, START, None, 0, 0, 0))
  {
  }

  lemma {:induction false} RunsWithinBudget(settings: Settings, turns: seq<Turn>)
    ensures WithinBudget(settings, After(settings, turns))
    ensures After(settings, turns).visits <= |turns|
    ensures !After(settings, turns).node.End? ==> After(settings, turns).visits == |turns|
  {
    hide WithinBudget;
    if turns == [] {
      StartsWithinBudget(settings);
    } else {
      RunsWithinBudget(settings, turns[..|turns| - 1]);
      StepWithinBudget(settings, After(settings, turns[..|turns| - 1]), turns[|turns| - 1]);
    }
  }

  /**
   Every run ends within the bound, whatever the model and the tools answer, having run no more tools than the budget
   allows and drafted no more than once per attempt.
   */
  lemma EveryRunEnds(settings: Settings, turns: seq<Turn>)
    ensures var run := After(settings, turns);
            && run.visits <= VisitBound(settings)
            && (|turns| >= VisitBound(settings) ==> run.node.End? && run.attached.Some?)
            && run.tools <= Max(0, settings.maxToolCalls)
            && run.drafts <= Attempts(settings)
  {
    hide After;
    RunsWithinBudget(settings, turns);
  }

  function Repeated(turn: Turn, n: nat): seq<Turn> {
    if n == 0 then [] else Repeated(turn, n - 1) + [turn]
  }

  /** The run is as long as it can be: no visit so far was saved. */
  ghost predicate Slowest(settings: Settings, run: Run) {
    var s := run.state;
    && run.visits + Potential(settings, run) == VisitBound(settings)
    && s.toolCallsUsed >= 0
    && (run.node.SimilarCases? || run.node.DraftReport? || run.node.VerifyReport? ==> s.toolCallsUsed >= settings.maxToolCalls - 1)
    && (run.node.VerifyReport? ==> s.report.None?)
    && (run.node.End? || run.node.Finalize? ==> s.verifyAttempts == Attempts(settings))
  }

  lemma SlowestStep(settings: Settings, run: Run, turn: Turn)
    requires WithinBudget(settings, run) && Slowest(settings, run)
    requires turn.requests.Some? && |turn.requests.value| == 1 && turn.draft.None?
    ensures Slowest(settings, Step(settings, run, turn))
  {
    hide Results, FinalizeStep, Show, ResultOf, Violations;
    if run.node.Investigate? {
      assert turn.requests.value[..0] == [];
      assert |Replies(|run.state.evidence|, turn.requests.value)| == 1;
    }
  }

  lemma {:induction false} RepeatedLength(turn: Turn, n: nat)
    ensures |Repeated(turn, n)| == n
  {
    if n > 0 {
      RepeatedLength(turn, n - 1);
    }
  }

  lemma AfterOneMore(settings: Settings, turns: seq<Turn>, turn: Turn)
    ensures After(settings, turns + [turn]) == Step(settings, After(settings, turns), turn)
  {
    hide Step;
    assert (turns + [turn])[..|turns|] == turns;
  }

  lemma {:induction false} StaysSlowest(settings: Settings, turn: Turn, n: nat)
    requires turn.requests.Some? && |turn.requests.value| == 1 && turn.draft.None?
    ensures Slowest(settings, After(settings, Repeated(turn, n)))
  {
    hide WithinBudget, Slowest, Step, After;
    if n == 0 {
      StartsSlowest(settings);
    } else {
      var before := Repeated(turn, n - 1);
      StaysSlowest(settings, turn, n - 1);
      RunsWithinBudget(settings, before);
      SlowestStep(settings, After(settings, before), turn);
      AfterOneMore(settings, before, turn);
    }
  }

  lemma StartsSlowest(settings: Settings)
    ensures Slowest(settings, After(settings, []))
  {
  }

  /** The bound is exact: a model that asks for one tool a turn and never drafts takes all of it. */
  lemma BoundIsReached(settings: Settings, turn: Turn)
    requires turn.requests.Some? && |turn.requests.value| == 1 && turn.draft.None?
    ensures var run := After(settings, Repeated(turn, VisitBound(settings)));
            run.node.End? && run.visits == VisitBound(settings)
  {
    hide After;
    RepeatedLength(turn, VisitBound(settings));
    StaysSlowest(settings, turn, VisitBound(settings));
    RunsWithinBudget(settings, Repeated(turn, VisitBound(settings)));
  }

  /** So a limit on the number of visits is never exceeded, on any run, exactly if it is at least the bound. */
  lemma LimitHoldsIff(settings: Settings, limit: nat)
    ensures (forall turns :: After(settings, turns).visits <= limit) <==> VisitBound(settings) <= limit
  {
    hide After, VisitBound;
    forall turns ensures After(settings, turns).visits <= VisitBound(settings) {
      EveryRunEnds(settings, turns);
    }
    var turn := Turn(Evidence(0, Null, None), Some([ToolCall(0, false, BadArguments(""))]), None);
    BoundIsReached(settings, turn);
  }

  // ---------- what is attached ----------

  /** The model was told a result under its own position in the evidence. */
  predicate ToldRight(evidence: seq<Evidence>, m: Message) {
    m.ToolReply? ==> m.shown.index < |evidence| && m.shown == Show(m.shown.index, evidence[m.shown.index])
  }

  /** The violations are those of the report as it stands, against all the evidence there is. */
  ghost predicate Checked(s: State) {
    s.violations == if s.report.None? then [NoReport] else Violations(s.report.value.findings, s.evidence)
  }

  ghost predicate Sound(run: Run) {
    && (forall k :: 0 <= k < |run.state.messages| ==> ToldRight(run.state.evidence, run.state.messages[k]))
    && (run.node.Finalize? || run.node.End? ==> Checked(run.state))
    && (run.attached.Some? ==> run.node.End? && run.attached.value == FinalizeStep(run.state))
  }

  lemma {:induction false} RepliesAreRight(evidence: seq<Evidence>, calls: seq<ToolCall>)
    ensures |Results(calls)| == |calls|
    ensures forall k :: 0 <= k < |Replies(|evidence|, calls)| ==>
              ToldRight(evidence + Results(calls), Replies(|evidence|, calls)[k])
  {
    if calls != [] {
      hide Show, ResultOf;
      var front, last := calls[..|calls| - 1], ResultOf(calls[|calls| - 1]);
      RepliesAreRight(evidence, front);
      assert evidence + Results(calls) == (evidence + Results(front)) + [last];
      forall k | 0 <= k < |Replies(|evidence|, front)| ensures ToldRight(evidence + Results(calls), Replies(|evidence|, front)[k]) {
        StaysTold(evidence + Results(front), [last], Replies(|evidence|, front)[k]);
      }
    }
  }

  lemma StaysTold(evidence: seq<Evidence>, more: seq<Evidence>, m: Message)
    requires ToldRight(evidence, m)
    ensures ToldRight(evidence + more, m)
  {
  }

  /** What a step appends to the evidence. */
  function Gathered(settings: Settings, run: Run, turn: Turn): seq<Evidence> {
    match run.node
    case Triage => [turn.lookup]
    case SimilarCases => [turn.lookup]
    case Investigate => Results(CallsRun(settings, run.state, turn))
    case _ => []
  }

  function CallsRun(settings: Settings, s: State, turn: Turn): seq<ToolCall> {
    var remaining := settings.maxToolCalls - s.toolCallsUsed;
    if remaining <= 0 || turn.requests.None? then []
    else if |turn.requests.value| <= remaining then turn.requests.value
    else turn.requests.value[..remaining]
  }

  lemma StepGathers(settings: Settings, run: Run, turn: Turn)
    ensures Step(settings, run, turn).state.evidence == run.state.evidence + Gathered(settings, run, turn)
  {
    hide Show, Replies, Violations, FinalizeStep;
  }

  lemma StepIsSound(settings: Settings, run: Run, turn: Turn)
    requires Sound(run) && (run.attached.Some? <==> run.node.End?)
    ensures Sound(Step(settings, run, turn))
  {
    hide Show, Replies, Results, Violations, FinalizeStep, ToldRight;
    StepGathers(settings, run, turn);
    var next := Step(settings, run, turn);
    forall k | 0 <= k < |run.state.messages| ensures ToldRight(next.state.evidence, run.state.messages[k]) {
      StaysTold(run.state.evidence, Gathered(settings, run, turn), run.state.messages[k]);
    }
    OthersTellNothing(next.state.evidence);
    if run.node.Investigate? {
      RepliesAreRight(run.state.evidence, CallsRun(settings, run.state, turn));
    }
  }

  lemma OthersTellNothing(evidence: seq<Evidence>)
    ensures ToldRight(evidence, Prompt) && ToldRight(evidence, BudgetExhausted) && ToldRight(evidence, ModelReply)
  {
  }

  lemma {:induction false} RunsAreSound(settings: Settings, turns: seq<Turn>)
    ensures Sound(After(settings, turns))
  {
    if turns != [] {
      hide Sound, WithinBudget, Step;
      var before := After(settings, turns[..|turns| - 1]);
      RunsAreSound(settings, turns[..|turns| - 1]);
      AttachedAtEnd(settings, turns[..|turns| - 1]);
      StepIsSound(settings, before, turns[|turns| - 1]);
    }
  }

  lemma AttachedAtEnd(settings: Settings, turns: seq<Turn>)
    ensures After(settings, turns).attached.Some? <==> After(settings, turns).node.End?
  {
    hide After;
    RunsWithinBudget(settings, turns);
  }

  /** The evidence at any moment of a run is a prefix of the evidence at any later one. */
  lemma {:induction false} EvidenceOnlyGrows(settings: Settings, turns: seq<Turn>, i: nat)
    requires i <= |turns|
    ensures After(settings, turns[..i]).state.evidence <= After(settings, turns).state.evidence
  {
    if i == |turns| {
      assert turns[..i] == turns;
    } else {
      hide Step;
      var front := turns[..|turns| - 1];
      EvidenceOnlyGrows(settings, front, i);
      assert front[..i] == turns[..i];
      StepGathers(settings, After(settings, front), turns[|turns| - 1]);
    }
  }

  /** So a finding that is supported at some moment of a run is still supported at its end. */
  lemma AcceptedStaysAccepted(settings: Settings, turns: seq<Turn>, i: nat, f: Finding)
    requires i <= |turns| && Supported(f, After(settings, turns[..i]).state.evidence)
    ensures Supported(f, After(settings, turns).state.evidence)
  {
    hide After, Supported;
    EvidenceOnlyGrows(settings, turns, i);
    var early, late := After(settings, turns[..i]).state.evidence, After(settings, turns).state.evidence;
    StaysSupported(f, early, late[|early|..]);
    assert early + late[|early|..] == late;
  }

  /** Whatever the model was told under an index, at any moment, is what is published under that index. */
  lemma ToldIsPublished(settings: Settings, turns: seq<Turn>, i: nat, k: nat)
    requires i <= |turns| && After(settings, turns).attached.Some?
    requires var s := After(settings, turns[..i]).state; k < |s.messages| && s.messages[k].ToolReply?
    ensures var told, published := After(settings, turns[..i]).state.messages[k].shown, After(settings, turns).attached.value.evidence;
            told.index < |published| && published[told.index] == told
  {
    hide After, Show, Checked, FinalReport;
    RunsAreSound(settings, turns[..i]);
    RunsAreSound(settings, turns);
    EvidenceOnlyGrows(settings, turns, i);
    var s := After(settings, turns[..i]).state;
    assert ToldRight(s.evidence, s.messages[k]);
    ShowAllAt(After(settings, turns).state.evidence, s.messages[k].shown.index);
  }

  // ---------- the guarantee ----------

  lemma {:induction false} KeptIsSupportedOnly(findings: seq<Finding>, evidence: seq<Evidence>, violations: seq<Violation>)
    requires forall i: nat :: i < |findings| ==> (Flagged(violations, i) <==> !Supported(findings[i], evidence))
    ensures Kept(findings, violations) == SupportedOnly(findings, evidence)
  {
    hide Supported, Flagged;
    if findings != [] {
      KeptIsSupportedOnly(findings[..|findings| - 1], evidence, violations);
    }
  }

  /** Finalizing a checked state: what was drafted if all of it is supported, else only what is. */
  lemma FinalReportIs(s: State)
    requires Checked(s)
    ensures var draft, final := s.report, FinalReport(s);
            && (s.violations == [] <==> draft.Some? && forall i :: 0 <= i < |draft.value.findings| ==>
                                                         Supported(draft.value.findings[i], s.evidence))
            && (s.violations == [] ==> final == draft.value)
            && (draft.Some? && draft.value.summary != "" ==> final.summary == draft.value.summary)
            && (s.violations != [] ==> final.fraudType == UNCERTAIN && final.confidence == 0.0 && final.action == ESCALATE)
            && final.findings == if draft.None? then [] else SupportedOnly(draft.value.findings, s.evidence)
  {
    hide Supported, Violations;
    if s.report.Some? {
      var findings := s.report.value.findings;
      PassesIff(findings, s.evidence);
      forall i: nat | i < |findings| ensures Flagged(s.violations, i) <==> !Supported(findings[i], s.evidence) {
        FlaggedIff(findings, s.evidence, i);
      }
      KeptIsSupportedOnly(findings, s.evidence, s.violations);
      SupportedOnlyIs(findings, s.evidence);
    }
  }

  /**
   On every run, each finding of the attached report is supported by the evidence published with it. The report is
   the last draft if all of that draft is supported, and otherwise an escalation with the supported findings of it.
   */
  lemma AttachedIsSupported(settings: Settings, turns: seq<Turn>)
    requires After(settings, turns).attached.Some?
    ensures var s, a := After(settings, turns).state, After(settings, turns).attached.value;
            && (forall i :: 0 <= i < |a.report.findings| ==> Supported(a.report.findings[i], RereadAll(a.evidence)))
            && (a.passed <==> s.report.Some? && forall i :: 0 <= i < |s.report.value.findings| ==>
                                                  Supported(s.report.value.findings[i], s.evidence))
            && (a.passed ==> a.report == s.report.value)
            && (!a.passed ==> a.report.fraudType == UNCERTAIN && a.report.confidence == 0.0 && a.report.action == ESCALATE)
            && a.report.findings == (if s.report.None? then [] else SupportedOnly(s.report.value.findings, s.evidence))
            && |a.evidence| == |s.evidence|
  {
    hide After, Supported, FinalReport, Checked, RereadAll, ToldRight;
    RunsAreSound(settings, turns);
    var s, a := After(settings, turns).state, After(settings, turns).attached.value;
    FinalReportIs(s);
    if s.report.Some? {
      SupportedOnlyIs(s.report.value.findings, s.evidence);
    }
    if s.evidence != [] {
      ShowAllAt(s.evidence, 0);
    }
    forall i | 0 <= i < |a.report.findings| ensures Supported(a.report.findings[i], RereadAll(a.evidence)) {
      assert a.report.findings[i] in a.report.findings;
      PublishedStillSupports(a.report.findings[i], s.evidence);
    }
  }

  /** The verification history lists every violation of every attempt, each once. */
  lemma {:induction false} DistinctIs(violations: seq<Violation>)
    ensures NoDuplicates(Distinct(violations))
    ensures forall v :: v in Distinct(violations) <==> v in violations
  {
    if violations != [] {
      DistinctIs(violations[..|violations| - 1]);
      assert violations == violations[..|violations| - 1] + [violations[|violations| - 1]];
    }
  }

  // ---------- what the evidence keeps of the tools' answers ----------

  /** The entry is what the tool returned, payload and error; a call that could not be made is an entry that failed. */
  predicate Answers(e: Evidence, call: ToolCall) {
    && e.tool == call.tool
    && if call.callable && call.outcome.Returned? then
         e.payload == call.outcome.payload && e.error == call.outcome.error
       else
         !e.Ok() && e.payload == Null
  }

  /** The model was shown the entry under its index: its payload, or the error if there is a message. */
  predicate Tells(m: Message, index: nat, e: Evidence) {
    && m.ToolReply? && m.shown.index == index && m.shown.tool == e.tool
    && if e.error.None? || e.error.value == "" then m.shown.PayloadShown? && m.shown.payload == e.payload
       else m.shown.ErrorShown? && m.shown.error == e.error.value
  }

  ghost predicate AnswerAll(gathered: seq<Evidence>, calls: seq<ToolCall>) {
    |gathered| == |calls| && forall k :: 0 <= k < |calls| ==> Answers(gathered[k], calls[k])
  }

  ghost predicate TellAll(replies: seq<Message>, before: nat, gathered: seq<Evidence>) {
    |replies| == |gathered| && forall k :: 0 <= k < |gathered| ==> Tells(replies[k], before + k, gathered[k])
  }

  lemma {:induction false} ResultsAnswer(before: nat, calls: seq<ToolCall>)
    ensures AnswerAll(Results(calls), calls) && TellAll(Replies(before, calls), before, Results(calls))
  {
    if calls != [] {
      hide Show, ResultOf;
      var front, last := calls[..|calls| - 1], calls[|calls| - 1];
      ResultsAnswer(before, front);
      ResultAnswers(before + |front|, last);
    }
  }

  lemma ResultAnswers(index: nat, call: ToolCall)
    ensures Answers(ResultOf(call), call) && Tells(ToolReply(Show(index, ResultOf(call))), index, ResultOf(call))
  {
  }

  /**
   What one step of a run adds: a lookup as it came back, or the answers of the tools asked for, as many of them as the
   budget allows, each told to the model under its index.
   */
  ghost predicate Gathers(settings: Settings, run: Run, turn: Turn, next: Run) {
    match run.node
    case Triage => next.state.evidence == run.state.evidence + [turn.lookup]
    case SimilarCases => next.state.evidence == run.state.evidence + [turn.lookup]
    case Investigate =>
      && run.state.evidence <= next.state.evidence
      && next.tools - run.tools == |next.state.evidence| - |run.state.evidence|
      && AnswerAll(next.state.evidence[|run.state.evidence|..], CallsRun(settings, run.state, turn))
      && (CallsRun(settings, run.state, turn) != [] ==>
            exists told {:trigger TellAll(told, |run.state.evidence|, next.state.evidence[|run.state.evidence|..])} ::
              && TellAll(told, |run.state.evidence|, next.state.evidence[|run.state.evidence|..])
              && next.state.messages == run.state.messages + [ModelReply] + told)
    case _ => next.state.evidence == run.state.evidence
  }

  /** Every step of every run gathers just that. */
  lemma StepGathersAnswers(settings: Settings, run: Run, turn: Turn)
    ensures Gathers(settings, run, turn, Step(settings, run, turn))
  {
    hide Show, Replies, Violations, FinalizeStep, AnswerAll, TellAll;
    StepGathers(settings, run, turn);
    if run.node.Investigate? {
      var calls, next := CallsRun(settings, run.state, turn), Step(settings, run, turn);
      ResultsAnswer(|run.state.evidence|, calls);
      RepliesAreRight(run.state.evidence, calls);
      hide Results;
      assert next.state.evidence[|run.state.evidence|..] == Results(calls);
      if calls != [] {
        var told := Replies(|run.state.evidence|, calls);
        assert TellAll(told, |run.state.evidence|, next.state.evidence[|run.state.evidence|..]);
        assert next.state.messages == run.state.messages + [ModelReply] + told;
      }
    }
  }

  /** The tool answered with an error, was asked for wrongly, or does not exist. */
  predicate Fails(call: ToolCall) {
    !call.callable || !call.outcome.Returned? || call.outcome.error.Some?
  }

  lemma FailedEntry(settings: Settings, run: Run, turn: Turn, next: Run, k: nat)
    requires Gathers(settings, run, turn, next) && run.node.Investigate?
    requires k < |CallsRun(settings, run.state, turn)| && Fails(CallsRun(settings, run.state, turn)[k])
    ensures |run.state.evidence| + k < |next.state.evidence| && !next.state.evidence[|run.state.evidence| + k].Ok()
  {
    hide CallsRun, TellAll;
    assert Answers(next.state.evidence[|run.state.evidence|..][k], CallsRun(settings, run.state, turn)[k]);
  }

  /** A finding that cites the result of a tool that failed, at whatever step of the run, is never attached. */
  lemma FailedIsNotAttached(settings: Settings, turns: seq<Turn>, i: nat, k: nat, f: Finding)
    requires i < |turns| && After(settings, turns).attached.Some?
    requires var before := After(settings, turns[..i]);
             && before.node.Investigate? && k < |CallsRun(settings, before.state, turns[i])|
             && Fails(CallsRun(settings, before.state, turns[i])[k])
             && |before.state.evidence| + k in f.refs
    ensures f !in After(settings, turns).attached.value.report.findings
  {
    hide After, Supported, FinalReport, RereadAll, Step, CallsRun, Gathers, Fails;
    var before := After(settings, turns[..i]);
    assert turns[..i + 1] == turns[..i] + [turns[i]];
    AfterOneMore(settings, turns[..i], turns[i]);
    StepGathersAnswers(settings, before, turns[i]);
    FailedEntry(settings, before, turns[i], Step(settings, before, turns[i]), k);
    EvidenceOnlyGrows(settings, turns, i + 1);
    FailureIsNotAttached(settings, turns, |before.state.evidence| + k, f);
  }

  lemma FailureIsNotAttached(settings: Settings, turns: seq<Turn>, index: nat, f: Finding)
    requires After(settings, turns).attached.Some? && index in f.refs
    requires index < |After(settings, turns).state.evidence| && !After(settings, turns).state.evidence[index].Ok()
    ensures f !in After(settings, turns).attached.value.report.findings
  {
    hide After, Supported, FinalReport, RereadAll;
    var s := After(settings, turns).state;
    AttachedIsSupported(settings, turns);
    if s.report.Some? && f in SupportedOnly(s.report.value.findings, s.evidence) {
      SupportedOnlyIs(s.report.value.findings, s.evidence);
      CitesSuccess(f, s.evidence, index);
    }
  }

  lemma CitesSuccess(f: Finding, evidence: seq<Evidence>, index: nat)
    requires Supported(f, evidence) && index in f.refs
    ensures index < |evidence| && evidence[index].Ok()
  {
    var k :| 0 <= k < |f.refs| && f.refs[k] == index;
  }

  // ---------- how a draft is judged ----------

  /** The draft is there and each of its findings is supported by the evidence so far. */
  ghost predicate GoodDraft(draft: Option<Report>, evidence: seq<Evidence>) {
    draft.Some? && forall i :: 0 <= i < |draft.value.findings| ==> Supported(draft.value.findings[i], evidence)
  }

  /**
   From a draft to its consequence: a good one is attached as it is, two steps on; any other is investigated again while
   attempts are left, and escalated after the last.
   */
  lemma DraftIsJudged(settings: Settings, run: Run, draft: Turn, check: Turn, final: Turn)
    requires run.node.DraftReport? && run.attached.None?
    ensures var drafted := Step(settings, run, draft);
            var checked := Step(settings, drafted, check);
            var ended := Step(settings, checked, final);
            && drafted.state.report == draft.draft && checked.state.evidence == run.state.evidence
            && checked.state.verifyAttempts == run.state.verifyAttempts + 1
            && (GoodDraft(draft.draft, run.state.evidence) ==>
                  ended.node.End? && ended.attached.Some? && ended.attached.value.passed
                  && ended.attached.value.report == draft.draft.value)
            && (!GoodDraft(draft.draft, run.state.evidence) && checked.state.verifyAttempts < settings.maxVerifyAttempts ==>
                  checked.node.Investigate?)
            && (!GoodDraft(draft.draft, run.state.evidence) && checked.state.verifyAttempts >= settings.maxVerifyAttempts ==>
                  ended.node.End? && ended.attached.Some? && !ended.attached.value.passed)
  {
    hide Supported, Violations, ShowAll, Distinct, Kept;
    if draft.draft.Some? {
      PassesIff(draft.draft.value.findings, run.state.evidence);
    }
  }

  ghost predicate SpentIfRefused(settings: Settings, run: Run) {
    && (run.node.Finalize? || run.node.End? ==>
          run.state.violations == [] || run.state.verifyAttempts >= settings.maxVerifyAttempts)
    && (run.attached.Some? ==>
          run.node.End? && run.attached.value.passed == (run.state.violations == [])
          && run.attached.value.attempts == run.state.verifyAttempts
          && run.attached.value.toolCallsUsed == run.state.toolCallsUsed)
  }

  lemma StepSpends(settings: Settings, run: Run, turn: Turn)
    requires SpentIfRefused(settings, run)
    ensures SpentIfRefused(settings, Step(settings, run, turn))
  {
    hide Violations, FinalReport, ShowAll, Distinct, Replies, Results;
  }

  /** A run is escalated only after as many drafts as it may make. */
  lemma {:induction false} EscalatedIsSpent(settings: Settings, turns: seq<Turn>)
    ensures SpentIfRefused(settings, After(settings, turns))
  {
    if turns != [] {
      hide SpentIfRefused, Step;
      EscalatedIsSpent(settings, turns[..|turns| - 1]);
      StepSpends(settings, After(settings, turns[..|turns| - 1]), turns[|turns| - 1]);
    }
  }

  // ---------- the loops ----------

  /** Runs the requested tools within the budget, collecting the results and what the model is told of each. */
  method RunTools(s: State, calls: seq<ToolCall>) returns (gathered: seq<Evidence>, replies: seq<Message>)
    ensures gathered == Results(calls) && replies == Replies(|s.evidence|, calls)
    ensures AnswerAll(gathered, calls) && TellAll(replies, |s.evidence|, gathered)
  {
    hide Show, ResultOf, AnswerAll, TellAll;
    ResultsAnswer(|s.evidence|, calls);
    gathered, replies := [], [];
    for k := 0 to |calls|
      invariant gathered == Results(calls[..k]) && |gathered| == k && replies == Replies(|s.evidence|, calls[..k])
    {
      assert calls[..k + 1][..k] == calls[..k];
      gathered := gathered + [ResultOf(calls[k])];
      var index := |s.evidence| + |gathered| - 1;
      replies := replies + [ToolReply(Show(index, ResultOf(calls[k])))];
    }
    assert calls[..|calls|] == calls;
  }

  method InvestigateNode(settings: Settings, s: State, turn: Turn) returns (next: State)
    ensures next == InvestigateStep(settings, s, turn)
  {
    hide Replies, Results;
    var remaining := settings.maxToolCalls - s.toolCallsUsed;
    if remaining <= 0 {
      return s.(messages := s.messages + [BudgetExhausted]);
    }
    if turn.requests.None? {
      return s.(toolCallsUsed := settings.maxToolCalls);
    }
    var calls := turn.requests.value;
    if |calls| > remaining {
      calls := calls[..remaining];
    }
    var gathered, replies := RunTools(s, calls);
    next := s.(messages := s.messages + [ModelReply] + replies, evidence := s.evidence + gathered,
              toolCallsUsed := s.toolCallsUsed + |calls|);
  }

  method FinalizeNode(s: State) returns (attached: Attached)
    ensures attached == FinalizeStep(s)
  {
    hide FinalReport, ShowAll;
    var history: seq<Violation> := [];
    for k := 0 to |s.allViolations|
      invariant history == Distinct(s.allViolations[..k])
    {
      assert s.allViolations[..k + 1][..k] == s.allViolations[..k];
      DistinctIs(s.allViolations[..k]);
      if s.allViolations[k] !in history {
        history := history + [s.allViolations[k]];
      }
    }
    assert s.allViolations[..|s.allViolations|] == s.allViolations;
    attached := Attached(FinalReport(s), ShowAll(s.evidence), s.violations == [], s.verifyAttempts, history, s.toolCallsUsed);
  }

  /** Checks the draft against all the evidence there is; no draft is a violation of its own. */
  method VerifyNode(s: State) returns (next: State)
    ensures next == VerifyStep(s)
    ensures next.violations == [] <==> s.report.Some? && forall i :: 0 <= i < |s.report.value.findings| ==>
                                                          Supported(s.report.value.findings[i], s.evidence)
  {
    hide Supported, Violations;
    var violations := [NoReport];
    if s.report.Some? {
      violations := VerifyClaims(s.report.value.findings, s.evidence);
    }
    next := s.(violations := violations, allViolations := s.allViolations + violations, verifyAttempts := s.verifyAttempts + 1);
  }

  method Visit(settings: Settings, run: Run, turn: Turn) returns (next: Run)
    ensures next == Step(settings, run, turn)
  {
    hide InvestigateStep, VerifyStep, FinalizeStep;
    var s := run.state;
    next := run.(visits := run.visits + 1);
    match run.node
    case Triage => next := next.(node := Investigate, state := TriageStep(s, turn));
    case Investigate =>
      s := InvestigateNode(settings, s, turn);
      next := next.(node := AfterInvestigate(settings, s), state := s, tools := run.tools + ToolsRun(settings, run.state, turn));
    case SimilarCases => next := next.(node := DraftReport, state := SimilarStep(s, turn));
    case DraftReport => next := next.(node := VerifyReport, state := DraftStep(s, turn), drafts := run.drafts + 1);
    case VerifyReport =>
      s := VerifyNode(s);
      next := next.(node := AfterVerify(settings, s), state := s);
    case Finalize =>
      var attached := FinalizeNode(s);
      next := next.(node := End, attached := Some(attached));
    case End => next := run;
  }

  /** Each finding of the report is supported by the evidence attached with it. */
  ghost predicate Guarded(a: Attached) {
    forall i :: 0 <= i < |a.report.findings| ==> Supported(a.report.findings[i], RereadAll(a.evidence))
  }

  lemma AttachedIsGuarded(settings: Settings, turns: seq<Turn>)
    requires After(settings, turns).attached.Some?
    ensures Guarded(After(settings, turns).attached.value)
  {
    hide After, Supported, RereadAll;
    AttachedIsSupported(settings, turns);
  }

  /** Step `i` of the run gathered what came back in turn `i`. */
  ghost predicate GathersAt(settings: Settings, turns: seq<Turn>, i: nat) {
    i < |turns| && Gathers(settings, After(settings, turns[..i]), turns[i], After(settings, turns[..i + 1]))
  }

  lemma EveryStepGathers(settings: Settings, turns: seq<Turn>, i: nat)
    requires i < |turns|
    ensures GathersAt(settings, turns, i)
  {
    hide After, Step, Gathers;
    assert turns[..i + 1] == turns[..i] + [turns[i]];
    AfterOneMore(settings, turns[..i], turns[i]);
    StepGathersAnswers(settings, After(settings, turns[..i]), turns[i]);
  }

  /** Each finding cites only entries that are there and did not fail. */
  ghost predicate CiteSuccesses(findings: seq<Finding>, evidence: seq<Evidence>) {
    forall f :: f in findings ==> CitesSuccesses(f, evidence)
  }

  predicate CitesSuccesses(f: Finding, evidence: seq<Evidence>) {
    forall k :: 0 <= k < |f.refs| ==> f.refs[k] < |evidence| && evidence[f.refs[k]].Ok()
  }

  lemma AttachedCitesSuccesses(settings: Settings, turns: seq<Turn>)
    requires After(settings, turns).attached.Some?
    ensures CiteSuccesses(After(settings, turns).attached.value.report.findings, After(settings, turns).state.evidence)
  {
    hide After, Supported, RereadAll;
    var s, findings := After(settings, turns).state, After(settings, turns).attached.value.report.findings;
    AttachedIsSupported(settings, turns);
    if s.report.Some? {
      SupportedOnlyIs(s.report.value.findings, s.evidence);
    }
    SupportedCite(findings, s.evidence);
  }

  lemma SupportedCite(findings: seq<Finding>, evidence: seq<Evidence>)
    requires forall f :: f in findings ==> Supported(f, evidence)
    ensures CiteSuccesses(findings, evidence)
  {
    forall f | f in findings ensures CitesSuccesses(f, evidence) {
      assert Supported(f, evidence);
    }
  }

  /**
   Runs the graph on the given answers. With enough of them the run ends with a report attached, each finding of which
   is supported by the evidence attached with it and cites no result of a tool that failed; it is an escalation only
   after the last attempt. The evidence is what the tools and lookups returned, step by step.
   */
  method Execute(settings: Settings, turns: seq<Turn>) returns (final: Run)
    ensures final == After(settings, turns)
    ensures |turns| >= VisitBound(settings) ==> final.node.End? && final.attached.Some?
    ensures final.attached.Some? ==> Guarded(final.attached.value)
    ensures final.attached.Some? ==> CiteSuccesses(final.attached.value.report.findings, final.state.evidence)
    ensures final.attached.Some? ==> final.attached.value.passed || final.attached.value.attempts >= settings.maxVerifyAttempts
    ensures forall i: nat {:trigger GathersAt(settings, turns, i)} :: i < |turns| ==> GathersAt(settings, turns, i)
  {
    hide Step, Supported, VisitBound, GathersAt, CiteSuccesses, Guarded;
    final := Run(Triage, START, None, 0, 0, 0);
    for i := 0 to |turns|
      invariant final == After(settings, turns[..i])
    {
      assert turns[..i + 1][..i] == turns[..i];
      final := Visit(settings, final, turns[i]);
    }
    assert turns[..|turns|] == turns;
    EveryRunEnds(settings, turns);
    EscalatedIsSpent(settings, turns);
    if final.attached.Some? {
      AttachedIsGuarded(settings, turns);
      AttachedCitesSuccesses(settings, turns);
    }
    forall i: nat {:trigger GathersAt(settings, turns, i)} | i < |turns| ensures GathersAt(settings, turns, i) {
      EveryStepGathers(settings, turns, i);
    }
  }
}

/** The claim checker: a claim passes only if every quantity in it comes from the evidence it cites. */
module Verify {
  import opened Collections
  import opened Decimals
  import opened Payloads

  const REL_TOLERANCE := 0.01
  const MIN_CHECKED_VALUE := 3.0
  const SLACK := 0.000000001

  /** A quantity as extracted from a claim; the checker compares magnitudes only. */
  datatype Quantity = Quantity(number: Decimal, negative: bool, percent: bool)

  datatype Finding = Finding(claim: seq<Quantity>, refs: seq<nat>)

  datatype Evidence = Evidence(tool: int, payload: Payload, error: Option<string>) {
    predicate Ok() {
      error.None?
    }
  }

  datatype Violation =
    | NoReport
    | NoRefs(index: nat, claim: seq<Quantity>)
    | BadRef(index: nat, refs: seq<nat>)
    | FailedToolRef(index: nat, refs: seq<nat>)
    | UncitedNumber(index: nat, quantity: Quantity, refs: seq<nat>)

  function Abs(x: real): real {
    if x < 0.0 then -x else x
  }

  function Larger(x: real, y: real): real {
    if x < y then y else x
  }

  /** Rounding toward zero. */
  function Trunc(x: real): int {
    if x < 0.0 then -((-x).Floor) else x.Floor
  }

  predicate Exempt(d: Decimal) {
    d.Value() < MIN_CHECKED_VALUE && d.Value().Floor as real == d.Value()
  }

  /** The quoted number is within half a unit in the last place it is printed with. */
  predicate RoundsTo(d: Decimal, c: real) {
    Places(d).Some? && Abs(d.Value() - c) <= HalfUnit(Places(d).value) + SLACK
  }

  /** The quoted number may stand for `c`: equal, within one percent, rounded, or cut to a whole number. */
  predicate Close(d: Decimal, c: real) {
    var v, places := d.Value(), Places(d);
    || v == c
    || Abs(v - c) <= Larger(Abs(c), Abs(v)) * REL_TOLERANCE
    || RoundsTo(d, c)
    || (places == Some(0) && v == Trunc(c) as real)
  }

  predicate Matched(d: Decimal, candidates: set<real>) {
    exists c :: c in candidates && Close(d, c)
  }

  predicate Accepted(q: Quantity, available: set<real>) {
    Exempt(q.number) || Matched(q.number, available) || (q.percent && Matched(q.number.Percent(), available))
  }

  function Magnitudes(found: set<real>): set<real> {
    set n | n in found :: Abs(n)
  }

  /** Every index is one of the first `count`. */
  predicate Exist(refs: seq<nat>, count: nat) {
    forall k :: 0 <= k < |refs| ==> refs[k] < count
  }

  predicate Succeeded(refs: seq<nat>, evidence: seq<Evidence>)
    requires Exist(refs, |evidence|)
  {
    forall k :: 0 <= k < |refs| ==> evidence[refs[k]].Ok()
  }

  /** The magnitudes of all numbers in the cited payloads. */
  function Available(refs: seq<nat>, evidence: seq<Evidence>): set<real>
    requires Exist(refs, |evidence|)
  {
    if refs == [] then {}
    else Available(refs[..|refs| - 1], evidence) + Magnitudes(Flatten(evidence[refs[|refs| - 1]].payload))
  }

  // ---------- what the checker computes, and what it means for one finding ----------

  function Missing(refs: seq<nat>, count: nat): seq<nat> {
    if refs == [] then []
    else Missing(refs[..|refs| - 1], count) + if refs[|refs| - 1] >= count then [refs[|refs| - 1]] else []
  }

  function Failed(refs: seq<nat>, evidence: seq<Evidence>): seq<nat>
    requires Exist(refs, |evidence|)
  {
    if refs == [] then []
    else Failed(refs[..|refs| - 1], evidence) + if !evidence[refs[|refs| - 1]].Ok() then [refs[|refs| - 1]] else []
  }

  function Uncited(i: nat, claim: seq<Quantity>, refs: seq<nat>, available: set<real>): seq<Violation> {
    if claim == [] then []
    else
      var q := claim[|claim| - 1];
      Uncited(i, claim[..|claim| - 1], refs, available) + if Accepted(q, available) then [] else [UncitedNumber(i, q, refs)]
  }

  lemma {:induction false} MissingIff(refs: seq<nat>, count: nat)
    ensures Missing(refs, count) == [] <==> Exist(refs, count)
  {
    if refs != [] {
      MissingIff(refs[..|refs| - 1], count);
      assert refs == refs[..|refs| - 1] + [refs[|refs| - 1]];
    }
  }

  function OfFinding(i: nat, f: Finding, evidence: seq<Evidence>): seq<Violation> {
    MissingIff(f.refs, |evidence|);
    if f.refs == [] then [NoRefs(i, f.claim)]
    else if Missing(f.refs, |evidence|) != [] then [BadRef(i, Missing(f.refs, |evidence|))]
    else if Failed(f.refs, evidence) != [] then [FailedToolRef(i, Failed(f.refs, evidence))]
    else Uncited(i, f.claim, f.refs, Available(f.refs, evidence))
  }

  function Violations(findings: seq<Finding>, evidence: seq<Evidence>): seq<Violation> {
    if findings == [] then []
    else
      var front, i := findings[..|findings| - 1], |findings| - 1;
      Violations(front, evidence) + OfFinding(i, findings[i], evidence)
  }

  /** Citation number `k` points at a payload that carries `n`. */
  ghost predicate Cited(refs: seq<nat>, evidence: seq<Evidence>, k: nat, n: real) {
    k < |refs| && refs[k] < |evidence| && Carries(evidence[refs[k]].payload, n)
  }

  /** The quantity is near a number of some cited payload, as itself or, written as a percentage, as a ratio. */
  ghost predicate Backed(q: Quantity, refs: seq<nat>, evidence: seq<Evidence>) {
    Exempt(q.number) ||
    exists k, n {:trigger Cited(refs, evidence, k, n)} ::
      Cited(refs, evidence, k, n) && (Close(q.number, Abs(n)) || (q.percent && Close(q.number.Percent(), Abs(n))))
  }

  /** The finding cites something, only results that exist and succeeded, and each of its quantities is backed. */
  ghost predicate Supported(f: Finding, evidence: seq<Evidence>) {
    && f.refs != []
    && Exist(f.refs, |evidence|) && Succeeded(f.refs, evidence)
    && forall q :: q in f.claim ==> Backed(q, f.refs, evidence)
  }

  lemma {:induction false} FailedIff(refs: seq<nat>, evidence: seq<Evidence>)
    requires Exist(refs, |evidence|)
    ensures Failed(refs, evidence) == [] <==> Succeeded(refs, evidence)
  {
    if refs != [] {
      FailedIff(refs[..|refs| - 1], evidence);
      assert refs == refs[..|refs| - 1] + [refs[|refs| - 1]];
    }
  }

  lemma {:induction false} UncitedIff(i: nat, claim: seq<Quantity>, refs: seq<nat>, available: set<real>)
    ensures Uncited(i, claim, refs, available) == [] <==> forall q :: q in claim ==> Accepted(q, available)
    ensures forall v :: v in Uncited(i, claim, refs, available) ==> v.UncitedNumber? && v.index == i
  {
    hide Accepted;
    if claim != [] {
      UncitedIff(i, claim[..|claim| - 1], refs, available);
      assert claim == claim[..|claim| - 1] + [claim[|claim| - 1]];
    }
  }

  lemma {:induction false} AvailableIff(refs: seq<nat>, evidence: seq<Evidence>, c: real)
    requires Exist(refs, |evidence|)
    ensures c in Available(refs, evidence) <==>
            exists k, n {:trigger Cited(refs, evidence, k, n)} :: Cited(refs, evidence, k, n) && c == Abs(n)
  {
    hide Abs, Carries, Flatten;
    if refs != [] {
      var front, last := refs[..|refs| - 1], refs[|refs| - 1];
      AvailableIff(front, evidence, c);
      forall n ensures n in Flatten(evidence[last].payload) <==> Cited(refs, evidence, |refs| - 1, n) {
        FlattenIsReachable(evidence[last].payload, n);
      }
      forall k, n | 0 <= k < |front| ensures Cited(front, evidence, k, n) <==> Cited(refs, evidence, k, n) {
      }
    }
  }

  lemma AcceptedIff(q: Quantity, refs: seq<nat>, evidence: seq<Evidence>)
    requires Exist(refs, |evidence|)
    ensures Accepted(q, Available(refs, evidence)) <==> Backed(q, refs, evidence)
  {
    hide Close, Exempt, Abs, Cited, Available;
    forall c ensures c in Available(refs, evidence) <==>
                     exists k, n {:trigger Cited(refs, evidence, k, n)} :: Cited(refs, evidence, k, n) && c == Abs(n)
    {
      AvailableIff(refs, evidence, c);
    }
  }

  /** The checker finds nothing wrong with a finding exactly if the finding is supported. */
  lemma SupportedIff(i: nat, f: Finding, evidence: seq<Evidence>)
    ensures OfFinding(i, f, evidence) == [] <==> Supported(f, evidence)
    ensures forall v :: v in OfFinding(i, f, evidence) ==> !v.NoReport? && v.index == i
  {
    hide Accepted, Backed, Uncited, Available, Missing, Failed;
    MissingIff(f.refs, |evidence|);
    if f.refs != [] && Missing(f.refs, |evidence|) == [] {
      FailedIff(f.refs, evidence);
      UncitedIff(i, f.claim, f.refs, Available(f.refs, evidence));
      forall q ensures Accepted(q, Available(f.refs, evidence)) <==> Backed(q, f.refs, evidence) {
        AcceptedIff(q, f.refs, evidence);
      }
    }
  }

  // ---------- a list of findings ----------

  /** Some violation points at finding `i`. */
  predicate Flagged(violations: seq<Violation>, i: nat) {
    exists k :: 0 <= k < |violations| && !violations[k].NoReport? && violations[k].index == i
  }

  /** Each finding is judged on its own: it is flagged exactly if it is not supported. */
  lemma {:induction false} FlaggedIff(findings: seq<Finding>, evidence: seq<Evidence>, i: nat)
    ensures Flagged(Violations(findings, evidence), i) <==> i < |findings| && !Supported(findings[i], evidence)
    ensures forall v :: v in Violations(findings, evidence) ==> !v.NoReport? && v.index < |findings|
  {
    hide OfFinding, Supported;
    if findings != [] {
      var front, last := findings[..|findings| - 1], |findings| - 1;
      FlaggedIff(front, evidence, i);
      SupportedIff(last, findings[last], evidence);
      var earlier, own := Violations(front, evidence), OfFinding(last, findings[last], evidence);
      var all := earlier + own;
      assert Violations(findings, evidence) == all;
      if k :| 0 <= k < |earlier| && earlier[k].index == i {
        assert all[k] == earlier[k];
      }
      if i == last && own != [] {
        assert own[0] in own && all[|earlier|] == own[0];
      }
    }
  }

  /** The checker passes a list of findings exactly if each of them is supported. */
  lemma PassesIff(findings: seq<Finding>, evidence: seq<Evidence>)
    ensures Violations(findings, evidence) == [] <==> forall i :: 0 <= i < |findings| ==> Supported(findings[i], evidence)
  {
    hide Violations, Supported;
    var violations := Violations(findings, evidence);
    forall i | 0 <= i < |findings| ensures Flagged(violations, i) <==> !Supported(findings[i], evidence) {
      FlaggedIff(findings, evidence, i);
    }
    if violations != [] {
      assert violations[0] in violations;
      FlaggedIff(findings, evidence, 0);
      assert Flagged(violations, violations[0].index);
    }
  }

  /** Support looks at nothing but the results a finding cites. */
  lemma SupportIsLocal(f: Finding, evidence: seq<Evidence>, other: seq<Evidence>)
    requires Supported(f, evidence)
    requires forall k :: 0 <= k < |f.refs| ==> f.refs[k] < |other| && (f.refs[k] < |evidence| ==> other[f.refs[k]] == evidence[f.refs[k]])
    ensures Supported(f, other)
  {
    hide Close, Exempt, Carries;
    forall q | q in f.claim ensures Backed(q, f.refs, other) {
      assert Backed(q, f.refs, evidence);
      if !Exempt(q.number) {
        var k, n :| Cited(f.refs, evidence, k, n) &&
                    (Close(q.number, Abs(n)) || (q.percent && Close(q.number.Percent(), Abs(n))));
        assert Cited(f.refs, other, k, n);
      }
    }
  }

  /** Evidence that only grows at the end never takes an accepted claim back. */
  lemma StaysSupported(f: Finding, evidence: seq<Evidence>, more: seq<Evidence>)
    requires Supported(f, evidence)
    ensures Supported(f, evidence + more)
  {
    SupportIsLocal(f, evidence, evidence + more);
  }

  // ---------- how far an accepted number can be from the evidence ----------

  /** The two differ by no more than one percent of the larger. */
  predicate OnePercentOff(v: real, c: real) {
    v - c <= 0.01 * v && c - v <= 0.01 * c
  }

  /** Whatever the rounding or cutting, a quoted number is within one percent, or less than one unit, of what it stands for. */
  lemma CloseIsNear(d: Decimal, c: real)
    requires Close(d, c) && c >= 0.0
    ensures OnePercentOff(d.Value(), c) || -1.0 < d.Value() - c < 1.0
    ensures Places(d).Some? && Places(d).value > 0 ==> OnePercentOff(d.Value(), c) || -0.050000001 <= d.Value() - c <= 0.050000001
  {
    ValueIsNonnegative(d);
    if Places(d).Some? {
      FewerPlacesAreWider(0, Places(d).value);
      if Places(d).value > 0 {
        FewerPlacesAreWider(1, Places(d).value);
        assert Pow10(1) == 10 && HalfUnit(1) == 0.05;
      }
    }
  }

  /** The only numbers that need no evidence are 0, 1 and 2. */
  lemma ExemptIff(d: Decimal)
    ensures Exempt(d) <==> d.Value() == 0.0 || d.Value() == 1.0 || d.Value() == 2.0
  {
    hide Decimal.Value;
    ValueIsNonnegative(d);
  }

  lemma ValueIsNonnegative(d: Decimal)
    ensures d.Value() >= 0.0
  {
    hide Pow10;
    var q := Pow10(d.places) as real;
    var v := d.units as real / q;
    assert v * q == d.units as real;
    if v < 0.0 {
      assert v * q < 0.0;
    }
  }

  /**
   A fabricated number is caught: if it is not 0, 1 or 2, and lies one unit and one percent away from every
   number of the payloads the finding cites, the finding is not supported.
   */
  lemma FabricatedIsCaught(f: Finding, evidence: seq<Evidence>, q: Quantity)
    requires q in f.claim && !q.percent && q.number.Value() != 0.0 && q.number.Value() != 1.0 && q.number.Value() != 2.0
    requires forall k: nat, n {:trigger Cited(f.refs, evidence, k, n)} :: Cited(f.refs, evidence, k, n) ==>
               var v, c := q.number.Value(), if n < 0.0 then -n else n;
               (v - c >= 1.0 || c - v >= 1.0) && !OnePercentOff(v, c)
    ensures !Supported(f, evidence)
  {
    ExemptIff(q.number);
    hide Close, Cited, Exempt;
    if Supported(f, evidence) {
      assert Backed(q, f.refs, evidence);
      var k, n :| Cited(f.refs, evidence, k, n) && Close(q.number, Abs(n));
      CloseIsNear(q.number, Abs(n));
    }
  }

  /** Rounding to any number of places is accepted, also where the quoted form then drops trailing zeros. */
  lemma RoundingIsAccepted(d: Decimal, c: real)
    requires Abs(d.Value() - c) <= HalfUnit(d.places) && Places(d).Some?
    ensures Close(d, c)
  {
    hide Decimal.Value;
    StrippedIsEqual(d);
    FewerPlacesAreWider(Stripped(d).places, d.places);
  }

  /** Any number no more than one percent off is accepted, and so the number itself. */
  lemma OnePercentIsAccepted(d: Decimal, c: real)
    requires c >= 0.0 && OnePercentOff(d.Value(), c)
    ensures Close(d, c)
  {
    ValueIsNonnegative(d);
    hide Decimal.Value, RoundsTo;
  }

  /** So is cutting to a whole number. */
  lemma CuttingIsAccepted(units: nat, c: real)
    requires Trunc(c) == units && units < 10_000_000_000_000_000
    ensures Close(Decimal(units, 0), c)
  {
    assert Decimal(units, 0).Value() == units as real;
  }

  // ---------- half a unit in the claim's last place ----------

  /** Within half a unit in the last place the claim writes, trailing zeros included. */
  predicate WithinLastPlace(d: Decimal, c: real) {
    Abs(d.Value() - c) <= HalfUnit(d.places) + SLACK
  }

  predicate HasTrailingZero(d: Decimal) {
    d.places > 0 && d.units % 10 == 0
  }

  /** Dropping trailing zeros widens the room of a number exactly if it ends in a zero, and then ten times or more. */
  lemma RoomIsKeptIff(d: Decimal)
    ensures HalfUnit(Stripped(d).places) == HalfUnit(d.places) <==> !HasTrailingZero(d)
    ensures HasTrailingZero(d) ==> HalfUnit(Stripped(d).places) >= 10.0 * HalfUnit(d.places)
    ensures 0.0 < HalfUnit(d.places) <= HalfUnit(Stripped(d).places)
  {
    StrippedIsEqual(d);
    FewerPlacesAreWider(Stripped(d).places, d.places);
    if HasTrailingZero(d) {
      var e := Decimal(d.units / 10, d.places - 1);
      StrippedIsEqual(e);
      HalfUnitIsStrict(d.places - 1, d.places);
      FewerPlacesAreWider(Stripped(e).places, d.places - 1);
      TenTimes(d.places - 1);
    }
    HalfUnitIsPositive(d.places);
  }

  lemma HalfUnitIsPositive(places: nat)
    ensures HalfUnit(places) > 0.0
  {
    HalfUnitIsStrict(places, places + 1);
    FewerPlacesAreWider(places, places + 1);
    TenTimes(places);
  }

  /** The checker gives no more room than the claim's last place exactly if the claim has no trailing zero to drop. */
  lemma NoMoreRoomIff(d: Decimal)
    ensures (forall c {:trigger RoundsTo(d, c)} :: RoundsTo(d, c) ==> WithinLastPlace(d, c)) <==>
            Places(d).None? || !HasTrailingZero(d)
  {
    hide HalfUnit, Decimal.Value, HasTrailingZero;
    RoomIsKeptIff(d);
    if Places(d).Some? && HasTrailingZero(d) {
      var c := d.Value() + HalfUnit(Stripped(d).places) + SLACK;
      assert RoundsTo(d, c) && !WithinLastPlace(d, c);
    }
  }

  /** And no less exactly if it is printed without an exponent. */
  lemma NoLessRoomIff(d: Decimal)
    ensures (forall c {:trigger WithinLastPlace(d, c)} :: WithinLastPlace(d, c) ==> RoundsTo(d, c)) <==> Places(d).Some?
  {
    hide HalfUnit, Decimal.Value, HasTrailingZero;
    RoomIsKeptIff(d);
    if Places(d).None? {
      assert WithinLastPlace(d, d.Value()) && !RoundsTo(d, d.Value());
    }
  }

  /** So the room is half a unit in the claim's last place exactly if neither happens. */
  lemma RoomIsLastPlaceIff(d: Decimal)
    ensures (forall c {:trigger RoundsTo(d, c)} {:trigger WithinLastPlace(d, c)} :: RoundsTo(d, c) <==> WithinLastPlace(d, c))
            <==> Places(d).Some? && !HasTrailingZero(d)
  {
    hide RoundsTo, WithinLastPlace, HasTrailingZero;
    NoMoreRoomIff(d);
    NoLessRoomIff(d);
  }

  /** A percentage against a ratio: its last place is two further on, and any final zero is dropped, as in "50%". */
  lemma PercentRoomIff(d: Decimal)
    ensures HalfUnit(Stripped(d.Percent()).places) == HalfUnit(d.places + 2) <==> d.units % 10 != 0
    ensures d.units % 10 == 0 ==> HalfUnit(Stripped(d.Percent()).places) >= 10.0 * HalfUnit(d.places + 2)
    ensures (forall c {:trigger RoundsTo(d.Percent(), c)} {:trigger WithinLastPlace(d.Percent(), c)} ::
               RoundsTo(d.Percent(), c) <==> WithinLastPlace(d.Percent(), c))
            <==> Places(d.Percent()).Some? && d.units % 10 != 0
  {
    hide RoundsTo, WithinLastPlace, HalfUnit;
    RoomIsKeptIff(d.Percent());
    RoomIsLastPlaceIff(d.Percent());
  }

  /** "50%" is accepted against a ratio of 0.46, although 46% and 50% are four points apart. */
  lemma RoundPercentIsLoose()
    ensures Close(Decimal(50, 0).Percent(), 0.46) && !Close(Decimal(51, 0).Percent(), 0.47)
  {
    FiftyPercent();
    FiftyOnePercent();
  }

  lemma FiftyPercent()
    ensures Close(Decimal(50, 0).Percent(), 0.46)
  {
    assert Pow10(2) == 100 && Pow10(1) == 10;
    assert Decimal(50, 0).Percent() == Decimal(50, 2) && Decimal(50, 2).Value() == 0.5;
    assert Stripped(Decimal(50, 2)) == Decimal(5, 1);
  }

  lemma FiftyOnePercent()
    ensures !Close(Decimal(51, 0).Percent(), 0.47)
  {
    assert Pow10(2) == 100 && Pow10(1) == 10;
    assert Decimal(51, 0).Percent() == Decimal(51, 2) && Decimal(51, 2).Value() == 0.51;
    assert Stripped(Decimal(51, 2)) == Decimal(51, 2);
  }

  /** "4.0" is accepted against 3.6, by rounding alone: it is not within one percent, nor what 3.6 is cut to. */
  lemma TrailingZeroIsLoose()
    ensures RoundsTo(Decimal(40, 1), 3.6) && !WithinLastPlace(Decimal(40, 1), 3.6) && Trunc(3.6) != 4
  {
    assert Pow10(1) == 10 && Pow10(0) == 1;
    assert Decimal(40, 1).Value() == 4.0;
    assert Stripped(Decimal(40, 1)) == Decimal(4, 0);
  }

  /** "0.005%" is not accepted against a ratio of 0.000053, although that is within half of its last place. */
  lemma TinyPercentIsStrict()
    ensures WithinLastPlace(Decimal(5, 3).Percent(), 0.000053) && !Close(Decimal(5, 3).Percent(), 0.000053)
  {
    assert Decimal(5, 3).Percent() == Decimal(5, 5);
    FiveZeros();
    assert Decimal(5, 5).Value() == 0.00005;
    assert Places(Decimal(5, 5)).None?;
  }

  lemma FiveZeros()
    ensures Pow10(5) == 100_000
  {
    assert Pow10(1) == 10 && Pow10(2) == 100 && Pow10(3) == 1_000 && Pow10(4) == 10_000;
  }

  // ---------- the checker itself ----------

  /** Looks for a candidate the number may stand for, and stops at the first. */
  method Matches(d: Decimal, candidates: set<real>) returns (found: bool)
    ensures found == Matched(d, candidates)
  {
    hide Close;
    found := Any(candidates, c => Close(d, c));
  }

  method Any<T(==)>(candidates: set<T>, p: T -> bool) returns (found: bool)
    ensures found <==> exists c :: c in candidates && p(c)
  {
    var rest := candidates;
    while rest != {}
      invariant rest <= candidates && forall c :: c in candidates && c !in rest ==> !p(c)
    {
      var c :| c in rest;
      if p(c) {
        return true;
      }
      rest := rest - {c};
    }
    found := false;
  }

  /** Every finding in turn: a finding with no, missing or failed citations is reported once, else per uncited number. */
  method VerifyClaims(findings: seq<Finding>, evidence: seq<Evidence>) returns (violations: seq<Violation>)
    ensures violations == Violations(findings, evidence)
    ensures violations == [] <==> forall i :: 0 <= i < |findings| ==> Supported(findings[i], evidence)
  {
    hide Supported, OfFinding;
    violations := [];
    for i := 0 to |findings|
      invariant violations == Violations(findings[..i], evidence)
    {
      var own := VerifyFinding(i, findings[i], evidence);
      violations := violations + own;
      assert findings[..i + 1][..i] == findings[..i];
    }
    assert findings[..|findings|] == findings;
    PassesIff(findings, evidence);
  }

  method VerifyFinding(i: nat, f: Finding, evidence: seq<Evidence>) returns (violations: seq<Violation>)
    ensures violations == OfFinding(i, f, evidence)
  {
    hide Accepted, Flatten;
    if f.refs == [] {
      return [NoRefs(i, f.claim)];
    }
    var bad := [];
    for k := 0 to |f.refs|
      invariant bad == Missing(f.refs[..k], |evidence|)
    {
      assert f.refs[..k + 1][..k] == f.refs[..k];
      if f.refs[k] >= |evidence| {
        bad := bad + [f.refs[k]];
      }
    }
    assert f.refs[..|f.refs|] == f.refs;
    MissingIff(f.refs, |evidence|);
    if bad != [] {
      return [BadRef(i, bad)];
    }
    var failed := [];
    for k := 0 to |f.refs|
      invariant failed == Failed(f.refs[..k], evidence)
    {
      assert f.refs[..k + 1][..k] == f.refs[..k];
      if !evidence[f.refs[k]].Ok() {
        failed := failed + [f.refs[k]];
      }
    }
    if failed != [] {
      return [FailedToolRef(i, failed)];
    }
    var available: set<real> := {};
    for k := 0 to |f.refs|
      invariant available == Available(f.refs[..k], evidence)
    {
      assert f.refs[..k + 1][..k] == f.refs[..k];
      var found := FlattenNumbers(evidence[f.refs[k]].payload);
      available := available + Magnitudes(found);
    }
    violations := CheckQuantities(i, f, available);
  }

  method CheckQuantities(i: nat, f: Finding, available: set<real>) returns (violations: seq<Violation>)
    ensures violations == Uncited(i, f.claim, f.refs, available)
  {
    hide Matched, Exempt;
    violations := [];
    for k := 0 to |f.claim|
      invariant violations == Uncited(i, f.claim[..k], f.refs, available)
    {
      assert f.claim[..k + 1][..k] == f.claim[..k];
      var q := f.claim[k];
      if !Exempt(q.number) {
        var ok := Matches(q.number, available);
        if !ok && q.percent {
          ok := Matches(q.number.Percent(), available);
        }
        if !ok {
          violations := violations + [UncitedNumber(i, q, f.refs)];
        }
      }
    }
    assert f.claim[..|f.claim|] == f.claim;
  }
}

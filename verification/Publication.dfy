/** Evidence as it is shown to the model and published next to the claims that cite it. */
module Publication {
  import opened Collections
  import opened Payloads
  import opened Verify

  /** One result as it is shown to the model and published with the report: its index, and an error or a payload. */
  datatype Shown =
    | ErrorShown(index: nat, tool: int, error: string)
    | PayloadShown(index: nat, tool: int, payload: Payload)

  /** An empty error message counts as no error when a result is shown. */
  function Show(i: nat, e: Evidence): Shown {
    if e.error.Some? && e.error.value != "" then ErrorShown(i, e.tool, e.error.value)
    else PayloadShown(i, e.tool, e.payload)
  }

  function ShowAll(evidence: seq<Evidence>): seq<Shown> {
    if evidence == [] then [] else ShowAll(evidence[..|evidence| - 1]) + [Show(|evidence| - 1, evidence[|evidence| - 1])]
  }

  lemma {:induction false} ShowAllAt(evidence: seq<Evidence>, i: nat)
    requires i < |evidence|
    ensures |ShowAll(evidence)| == |evidence| && ShowAll(evidence)[i] == Show(i, evidence[i])
  {
    hide Show;
    if i < |evidence| - 1 {
      ShowAllAt(evidence[..|evidence| - 1], i);
    } else if i > 0 {
      ShowAllAt(evidence[..|evidence| - 1], 0);
    }
  }

  /** The evidence as a reader of the published report can reconstruct it. */
  function Reread(shown: Shown): Evidence {
    match shown
    case ErrorShown(_, tool, error) => Evidence(tool, Null, Some(error))
    case PayloadShown(_, tool, payload) => Evidence(tool, payload, None)
  }

  function RereadAll(shown: seq<Shown>): seq<Evidence> {
    if shown == [] then [] else RereadAll(shown[..|shown| - 1]) + [Reread(shown[|shown| - 1])]
  }

  lemma {:induction false} RereadAt(shown: seq<Shown>, i: nat)
    requires i < |shown|
    ensures |RereadAll(shown)| == |shown| && RereadAll(shown)[i] == Reread(shown[i])
  {
    hide Reread;
    if i < |shown| - 1 {
      RereadAt(shown[..|shown| - 1], i);
    } else if i > 0 {
      RereadAt(shown[..|shown| - 1], 0);
    }
  }

  /** Publishing loses nothing a supported finding relies on. */
  lemma PublishedStillSupports(f: Finding, evidence: seq<Evidence>)
    requires Supported(f, evidence)
    ensures Supported(f, RereadAll(ShowAll(evidence)))
  {
    var other := RereadAll(ShowAll(evidence));
    forall k | 0 <= k < |f.refs| ensures f.refs[k] < |other| && other[f.refs[k]] == evidence[f.refs[k]] {
      ShowAllAt(evidence, f.refs[k]);
      RereadAt(ShowAll(evidence), f.refs[k]);
    }
    hide Supported;
    SupportIsLocal(f, evidence, other);
  }

  /** The findings the evidence supports, in order. */
  ghost function SupportedOnly(findings: seq<Finding>, evidence: seq<Evidence>): seq<Finding> {
    if findings == [] then []
    else
      var front, last := findings[..|findings| - 1], findings[|findings| - 1];
      SupportedOnly(front, evidence) + if Supported(last, evidence) then [last] else []
  }

  lemma {:induction false} SupportedOnlyIs(findings: seq<Finding>, evidence: seq<Evidence>)
    ensures forall f :: f in SupportedOnly(findings, evidence) <==> f in findings && Supported(f, evidence)
    ensures (forall i :: 0 <= i < |findings| ==> Supported(findings[i], evidence)) ==> SupportedOnly(findings, evidence) == findings
  {
    hide Supported;
    if findings != [] {
      SupportedOnlyIs(findings[..|findings| - 1], evidence);
      assert findings == findings[..|findings| - 1] + [findings[|findings| - 1]];
    }
  }
}

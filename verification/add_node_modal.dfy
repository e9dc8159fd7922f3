/** The add-member dialog: its form, the anchor choices, the submit guard and
    the request for a generated bio. */
module AddNodeModal {
  import opened Prelude
  import opened Records

  /** The form the dialog starts with: empty fields, "parent", not close family. */
  const InitialForm: AddNodeForm := AddNodeForm("", "", "", "", Parent, false)

  /** The label sent to the bio generator when none is typed. */
  const GeneratorFallbackLabel: string := "Family Member"

  /** The submit guard: `name && relatedNodeId`. */
  predicate CanSubmit(f: AddNodeForm) {
    f.name != "" && f.relatedNodeId != ""
  }

  /** The submit button's `disabled`. */
  predicate SubmitDisabled(f: AddNodeForm) {
    f.name == "" || f.relatedNodeId == ""
  }

  /** `handleSubmit`: the form handed to the application (and the dialog closes), or nothing. */
  function Submit(f: AddNodeForm): (r: Option<AddNodeForm>)
    ensures r.Some? <==> !SubmitDisabled(f)
    ensures r.Some? ==> r.value == f && r.value.name != "" && r.value.relatedNodeId != ""
  {
    if f.name != "" && f.relatedNodeId != "" then Some(f) else None
  }

  /** The fresh dialog cannot submit: it has neither a name nor an anchor. */
  lemma InitialFormCannotSubmit()
    ensures Submit(InitialForm).None?
  {
  }

  /** The anchor select's option values: the placeholder '' and then every node id. */
  function AnchorChoices(nodes: seq<Node>): (r: seq<string>)
    ensures |r| == |nodes| + 1 && r[0] == ""
    ensures forall i :: 0 <= i < |nodes| ==> r[i + 1] == nodes[i].id
  {
    [""] + Ids(nodes)
  }

  /** Every choice after the placeholder names an existing node. */
  lemma ChoicesNameNodes(nodes: seq<Node>, k: int)
    requires 1 <= k < |AnchorChoices(nodes)|
    ensures HasNode(nodes, AnchorChoices(nodes)[k])
  {
    assert AnchorChoices(nodes)[k] == Ids(nodes)[k - 1];
  }

  /** `handleGenerateBio`: the name and label sent to the generator, or nothing without a name. */
  function BioRequest(f: AddNodeForm): (r: Option<(string, string)>)
    ensures r.Some? <==> f.name != ""
    ensures r.Some? ==> r.value.0 == f.name && r.value.1 != ""
    ensures r.Some? && f.relationLabel != "" ==> r.value.1 == f.relationLabel
    ensures r.Some? && f.relationLabel == "" ==> r.value.1 == GeneratorFallbackLabel
  {
    if f.name == "" then None else Some((f.name, OrElse(f.relationLabel, GeneratorFallbackLabel)))
  }

  /** The generated bio replaces the bio field and nothing else. */
  function BioArrived(f: AddNodeForm, bio: string): (r: AddNodeForm)
    ensures r.bio == bio && r.(bio := f.bio) == f
  {
    f.(bio := bio)
  }

  /** A generated bio changes neither what a second request would send nor whether the form submits. */
  lemma BioArrivalKeepsRequest(f: AddNodeForm, bio: string)
    ensures BioRequest(BioArrived(f, bio)) == BioRequest(f)
    ensures Submit(BioArrived(f, bio)).Some? <==> Submit(f).Some?
    ensures Submit(BioArrived(f, bio)).Some? ==> Submit(BioArrived(f, bio)).value.bio == bio
  {
  }
}

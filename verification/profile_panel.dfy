/** The side panel showing one person: the copy being edited, the field
    edits, save, cancel, the confirmed removal and the generation caption. */
module ProfilePanel {
  import opened Prelude
  import opened Records
  import Text

  /** `isEditing` and `editedNode`. */
  datatype Panel = Panel(isEditing: bool, edited: Option<Node>)

  /** The fields the edit inputs change. */
  datatype Field = Name | RelationLabel | Age | Occupation | Location | Bio

  /** The effect run when the shown node changes: take a fresh copy, leave edit mode. */
  function NodeChanged(node: Option<Node>): (r: Panel)
    ensures !r.isEditing && r.edited == node
  {
    Panel(false, node)
  }

  function StartEdit(p: Panel): (r: Panel)
    ensures r.isEditing && r.edited == p.edited
  {
    p.(isEditing := true)
  }

  /** The field's current value as the input shows it (`|| ''` for the optional ones). */
  function FieldValue(n: Node, f: Field): string {
    match f
    case Name => n.name
    case RelationLabel => n.relationLabel.GetOr("")
    case Age => n.age.GetOr("")
    case Occupation => n.occupation.GetOr("")
    case Location => n.location.GetOr("")
    case Bio => n.bio
  }

  /** An input's `onChange`: `{ ...editedNode, field: value }`. The inputs exist only in edit mode with a copy. */
  function SetField(p: Panel, f: Field, v: string): (r: Panel)
    requires p.isEditing && p.edited.Some?
    ensures r.isEditing && r.edited.Some?
    ensures FieldValue(r.edited.value, f) == v
    ensures forall g :: g != f ==> FieldValue(r.edited.value, g) == FieldValue(p.edited.value, g)
    ensures var n, m := p.edited.value, r.edited.value;
            m.id == n.id && m.generation == n.generation && m.group == n.group && m.imageUrl == n.imageUrl
            && m.gender == n.gender && m.isCloseFamily == n.isCloseFamily && m.familyIds == n.familyIds
    ensures var n, m := p.edited.value, r.edited.value;
            && (if f == Name then m.name == v else m.name == n.name)
            && (if f == RelationLabel then m.relationLabel == Some(v) else m.relationLabel == n.relationLabel)
            && (if f == Age then m.age == Some(v) else m.age == n.age)
            && (if f == Occupation then m.occupation == Some(v) else m.occupation == n.occupation)
            && (if f == Location then m.location == Some(v) else m.location == n.location)
            && (if f == Bio then m.bio == v else m.bio == n.bio)
  {
    var n := p.edited.value;
    var m := match f
      case Name => n.(name := v)
      case RelationLabel => n.(relationLabel := Some(v))
      case Age => n.(age := Some(v))
      case Occupation => n.(occupation := Some(v))
      case Location => n.(location := Some(v))
      case Bio => n.(bio := v);
    p.(edited := Some(m))
  }

  /** A run of input changes made in edit mode. */
  function ApplyEdits(p: Panel, edits: seq<(Field, string)>): (r: Panel)
    requires p.isEditing && p.edited.Some?
    ensures r.isEditing && r.edited.Some?
    decreases |edits|
  {
    if edits == [] then p else ApplyEdits(SetField(p, edits[0].0, edits[0].1), edits[1..])
  }

  /** No input of the panel changes who the person is or where they sit in the tree. */
  lemma {:induction false} EditsKeepIdentity(p: Panel, edits: seq<(Field, string)>)
    requires p.isEditing && p.edited.Some?
    ensures ApplyEdits(p, edits).edited.value.id == p.edited.value.id
    ensures ApplyEdits(p, edits).edited.value.generation == p.edited.value.generation
    decreases |edits|
  {
    if edits != [] {
      EditsKeepIdentity(SetField(p, edits[0].0, edits[0].1), edits[1..]);
    }
  }

  /** Writing back the name or bio a field already shows changes nothing. */
  lemma SetFieldToShownValue(p: Panel, f: Field)
    requires p.isEditing && p.edited.Some?
    requires f == Name || f == Bio
    ensures SetField(p, f, FieldValue(p.edited.value, f)) == p
  {
  }

  /** Writing back the value an optional field shows keeps a set field as it is, and turns an unset one into `Some("")`. */
  lemma SetOptionalFieldToShownValue(p: Panel, f: Field)
    requires p.isEditing && p.edited.Some?
    requires f != Name && f != Bio
    ensures var n, m := p.edited.value, SetField(p, f, FieldValue(p.edited.value, f)).edited.value;
            && (f == Age ==> m == n.(age := Some(n.age.GetOr(""))))
            && (f == RelationLabel ==> m == n.(relationLabel := Some(n.relationLabel.GetOr(""))))
            && (f == Occupation ==> m == n.(occupation := Some(n.occupation.GetOr(""))))
            && (f == Location ==> m == n.(location := Some(n.location.GetOr(""))))
  {
  }

  /** The generated bio arriving from the assistant (`prev ? { ...prev, bio } : null`). */
  function BioGenerated(p: Panel, bio: string): (r: Panel)
    ensures p.edited.None? ==> r == p
    ensures p.edited.Some? ==> r.edited == Some(p.edited.value.(bio := bio)) && r.isEditing == p.isEditing
  {
    match p.edited
    case None => p
    case Some(n) => p.(edited := Some(n.(bio := bio)))
  }

  /** `handleSave`: hand the copy to the application and leave edit mode. */
  function Save(p: Panel): (r: (Option<Node>, Panel))
    ensures r.0 == p.edited
    ensures p.edited.Some? ==> r.1 == p.(isEditing := false)
    ensures p.edited.None? ==> r.1 == p
  {
    if p.edited.Some? then (p.edited, p.(isEditing := false)) else (None, p)
  }

  /** The cancel button: leave edit mode and discard the copy's changes. */
  function Cancel(node: Node): (r: Panel)
    ensures !r.isEditing && r.edited == Some(node)
  {
    Panel(false, Some(node))
  }

  /** An edit that changes a field is discarded by cancel: the copy afterwards differs from the edited one. */
  lemma CancelDiscardsEdit(node: Node, f: Field, v: string)
    ensures var p := SetField(StartEdit(NodeChanged(Some(node))), f, v);
            v != FieldValue(node, f) ==> p.edited != Cancel(node).edited
  {
  }

  /** `handleDelete`: the shown node's id, only after confirmation (the panel then closes). */
  function Delete(node: Node, confirmed: bool): (r: Option<string>)
    ensures r.Some? <==> confirmed
    ensures r.Some? ==> r.value == node.id
  {
    if confirmed then Some(node.id) else None
  }

  // ---------------------------------------------------------------------------
  // The generation caption
  // ---------------------------------------------------------------------------

  const DescendantSuffix: string := " (Descendant)"
  const AncestorSuffix: string := " (Ancestor)"

  /** The digits between a one-character sign and a suffix of length `k`. */
  function Magnitude(r: string, k: nat): string
    requires |r| >= 1 + k
  {
    r[1..|r| - k]
  }

  /** "Current (0)", "+g (Descendant)" or "g (Ancestor)": the sign, the distance
      in decimal, and which side of the user the generation lies on. */
  function GenerationLabel(g: int): (r: string)
    ensures g == 0 ==> r == "Current (0)"
    ensures g > 0 ==> |r| > 1 + |DescendantSuffix| && r[0] == '+' && r[|r| - |DescendantSuffix|..] == DescendantSuffix
                      && Text.AllDigits(Magnitude(r, |DescendantSuffix|))
                      && Text.DigitsValue(Magnitude(r, |DescendantSuffix|)) == g
                      && Magnitude(r, |DescendantSuffix|)[0] != '0'
    ensures g < 0 ==> |r| > 1 + |AncestorSuffix| && r[0] == '-' && r[|r| - |AncestorSuffix|..] == AncestorSuffix
                      && Text.AllDigits(Magnitude(r, |AncestorSuffix|))
                      && Text.DigitsValue(Magnitude(r, |AncestorSuffix|)) == -g
                      && Magnitude(r, |AncestorSuffix|)[0] != '0'
  {
    if g == 0 then "Current (0)"
    else if g > 0 then
      var digits := Text.IntToString(g);
      var r := "+" + digits + DescendantSuffix;
      assert Magnitude(r, |DescendantSuffix|) == digits;
      Text.NatToStringRoundTrip(g);
      r
    else
      var digits := Text.IntToString(g);
      var r := digits + AncestorSuffix;
      assert Magnitude(r, |AncestorSuffix|) == Text.NatToString(-g);
      Text.NatToStringRoundTrip(-g);
      r
  }

  /** Different generations get different captions. */
  lemma GenerationLabelInjective(a: int, b: int)
    requires GenerationLabel(a) == GenerationLabel(b)
    ensures a == b
  {
  }
}

/** The "My Profile" page: a form seeded from the user's own node, whose
    submit merges the seven form fields over that node. */
module MyProfile {
  import opened Prelude
  import opened Records

  /** The seven form fields, all plain strings as the inputs hold them. */
  datatype ProfileForm = ProfileForm(
    name: string,
    age: string,
    gender: string,
    location: string,
    occupation: string,
    bio: string,
    relationLabel: string)

  datatype Page = Page(form: ProfileForm, isSaved: bool)

  /** The label used when the node has none. */
  const DefaultLabel: string := "Self"

  /** The form as first shown: missing optional fields as '', a missing label as "Self". */
  function InitialForm(user: Node): (r: ProfileForm)
    ensures r.name == user.name && r.bio == user.bio
    ensures user.age.Some? ==> r.age == user.age.value
    ensures user.age.None? ==> r.age == ""
    ensures r.gender == (if user.gender.Some? then user.gender.value else "")
    ensures r.location == (if user.location.Some? then user.location.value else "")
    ensures r.occupation == (if user.occupation.Some? then user.occupation.value else "")
    ensures TruthyOpt(user.relationLabel) ==> r.relationLabel == user.relationLabel.value
    ensures !TruthyOpt(user.relationLabel) ==> r.relationLabel == DefaultLabel
    ensures r.relationLabel != ""
  {
    ProfileForm(user.name, user.age.GetOr(""), user.gender.GetOr(""), user.location.GetOr(""),
                user.occupation.GetOr(""), user.bio, OptOrElse(user.relationLabel, DefaultLabel))
  }

  function InitialPage(user: Node): Page {
    Page(InitialForm(user), false)
  }

  /** The fields the page's inputs change (the label has no input). */
  datatype Field = Name | Occupation | Age | Gender | Location | Bio

  /** The value an input shows. */
  function FieldOf(form: ProfileForm, f: Field): string {
    match f
    case Name => form.name
    case Occupation => form.occupation
    case Age => form.age
    case Gender => form.gender
    case Location => form.location
    case Bio => form.bio
  }

  /** An input's `onChange`: `{ ...formData, field: value }`. */
  function SetField(p: Page, f: Field, v: string): (r: Page)
    ensures r.isSaved == p.isSaved && r.form.relationLabel == p.form.relationLabel
    ensures FieldOf(r.form, f) == v
    ensures forall g :: g != f ==> FieldOf(r.form, g) == FieldOf(p.form, g)
  {
    var form := p.form;
    p.(form := match f
      case Name => form.(name := v)
      case Occupation => form.(occupation := v)
      case Age => form.(age := v)
      case Gender => form.(gender := v)
      case Location => form.(location := v)
      case Bio => form.(bio := v))
  }

  /** `{ ...userNode, ...formData }`: the seven form fields override the node's. */
  function Merge(user: Node, form: ProfileForm): (r: Node)
    ensures r.name == form.name && r.bio == form.bio
    ensures r.age == Some(form.age) && r.gender == Some(form.gender) && r.location == Some(form.location)
    ensures r.occupation == Some(form.occupation) && r.relationLabel == Some(form.relationLabel)
    ensures r.id == user.id && r.generation == user.generation && r.group == user.group
    ensures r.imageUrl == user.imageUrl && r.isCloseFamily == user.isCloseFamily && r.familyIds == user.familyIds
  {
    user.(name := form.name, age := Some(form.age), gender := Some(form.gender),
          location := Some(form.location), occupation := Some(form.occupation),
          bio := form.bio, relationLabel := Some(form.relationLabel))
  }

  /** `handleSubmit`: the merged node for the application, and the "saved" notice. */
  function Submit(p: Page, user: Node): (r: (Node, Page))
    ensures r.0 == Merge(user, p.form)
    ensures r.1.isSaved && r.1.form == p.form
  {
    (Merge(user, p.form), p.(isSaved := true))
  }

  /** Submitting the untouched form returns the node itself when all its details are filled in. */
  lemma UneditedSubmitRoundTrip(user: Node)
    requires user.age.Some? && user.gender.Some? && user.location.Some? && user.occupation.Some?
    requires TruthyOpt(user.relationLabel)
    ensures Submit(InitialPage(user), user).0 == user
  {
  }

  /** Otherwise the untouched form only fills the gaps: missing details become '', a missing or empty label "Self". */
  lemma UneditedSubmitFillsGaps(user: Node)
    ensures var n := Submit(InitialPage(user), user).0;
            && n.name == user.name && n.bio == user.bio
            && n.age == Some(user.age.GetOr("")) && n.gender == Some(user.gender.GetOr(""))
            && n.location == Some(user.location.GetOr("")) && n.occupation == Some(user.occupation.GetOr(""))
            && n.relationLabel == Some(if TruthyOpt(user.relationLabel) then user.relationLabel.value else DefaultLabel)
  {
  }

  /** The label a submit stores is never empty: the page has no input to clear it. */
  lemma LabelNeverCleared(user: Node, edits: seq<(Field, string)>)
    ensures Submit(ApplyEdits(InitialPage(user), edits), user).0.relationLabel.value != ""
  {
    EditsKeepLabel(InitialPage(user), edits);
  }

  /** A run of input changes. */
  function ApplyEdits(p: Page, edits: seq<(Field, string)>): Page
    decreases |edits|
  {
    if edits == [] then p else ApplyEdits(SetField(p, edits[0].0, edits[0].1), edits[1..])
  }

  lemma {:induction false} EditsKeepLabel(p: Page, edits: seq<(Field, string)>)
    ensures ApplyEdits(p, edits).form.relationLabel == p.form.relationLabel
    decreases |edits|
  {
    if edits != [] {
      EditsKeepLabel(SetField(p, edits[0].0, edits[0].1), edits[1..]);
    }
  }
}

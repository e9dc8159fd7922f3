/** The timeline page: the add-memory form, its tag picker and privacy
    choice, the submit that produces a photo, and the newest-first listing. */
module TimelinePage {
  import opened Prelude
  import opened Records
  import opened Selection
  import Sorting

  /** The form's partial photo. The url (read from the chosen file) and the
      description are only read through their truthiness, so an unset one is
      the empty string; the date input is `None` when cleared. */
  datatype PhotoForm = PhotoForm(
    url: string,
    date: Option<int>,
    description: string,
    tags: Option<seq<string>>,
    privacy: Option<Privacy>)

  datatype Page = Page(modalOpen: bool, form: PhotoForm)

  /** The form the page starts with and returns to after a save. */
  function FreshForm(today: int): PhotoForm {
    PhotoForm("", Some(today), "", Some([]), Some(Everyone))
  }

  function InitialPage(today: int): Page {
    Page(false, FreshForm(today))
  }

  /** The tag list the picker works on (`prev.taggedNodeIds || []`). */
  function Tags(f: PhotoForm): seq<string> {
    f.tags.GetOr([])
  }

  /** `toggleTag`. */
  function ToggleTag(p: Page, id: string): (r: Page)
    ensures id in Tags(r.form) <==> id !in Tags(p.form)
    ensures Tags(r.form) == Toggle(Tags(p.form), id)
    ensures forall y :: y != id ==> (y in Tags(r.form) <==> y in Tags(p.form))
    ensures r.(form := r.form.(tags := p.form.tags)) == p
  {
    var r := p.(form := p.form.(tags := Some(Toggle(Tags(p.form), id))));
    forall y | y != id
      ensures y in Tags(r.form) <==> y in Tags(p.form)
    {
      ToggleOthers(Tags(p.form), id, y);
    }
    r
  }

  /** Tagging never lists a person twice. */
  lemma ToggleTagKeepsTagsDistinct(p: Page, id: string)
    requires NoDup(Tags(p.form))
    ensures NoDup(Tags(ToggleTag(p, id).form))
  {
    ToggleKeepsNoDup(Tags(p.form), id);
  }

  /** The save button is disabled while the url or the description is missing. */
  predicate SaveDisabled(f: PhotoForm) {
    f.url == "" || f.description == ""
  }

  /** The submit guard: `url && date && description`. */
  predicate CanSubmit(f: PhotoForm) {
    f.url != "" && f.date.Some? && f.description != ""
  }

  /** `handleSubmit`; `newId` and `today` stand for the clock. */
  function Submit(p: Page, newId: string, today: int): (r: (Option<Photo>, Page))
    ensures r.0.Some? <==> CanSubmit(p.form)
    ensures r.0.None? ==> r.1 == p
    ensures r.0.Some? ==> r.1 == Page(false, FreshForm(today))
    ensures r.0.Some? ==>
      var ph := r.0.value;
      && ph.id == newId && ph.url == p.form.url && ph.description == p.form.description
      && Some(ph.date) == p.form.date && ph.taggedNodeIds == Tags(p.form)
      && ph.privacy == p.form.privacy.GetOr(Everyone)
  {
    var f := p.form;
    if f.url != "" && f.date.Some? && f.description != "" then
      var ph := Photo(newId, f.url, f.description, f.date.value, f.tags.GetOr([]), f.privacy.GetOr(Everyone));
      (Some(ph), Page(false, FreshForm(today)))
    else
      (None, p)
  }

  /** A disabled save button never produces a photo. */
  lemma DisabledMeansNoPhoto(p: Page, newId: string, today: int)
    requires SaveDisabled(p.form)
    ensures Submit(p, newId, today).0.None?
  {
  }

  /** An enabled button saves exactly when the date is set. */
  lemma EnabledSavesIffDated(p: Page, newId: string, today: int)
    requires !SaveDisabled(p.form)
    ensures Submit(p, newId, today).0.Some? <==> p.form.date.Some?
  {
  }

  /** The button can be enabled while the submit does nothing: a cleared date. */
  lemma EnabledButUndated(today: int)
    ensures var p := Page(true, PhotoForm("data:image/png", None, "Beach day", Some([]), Some(Everyone)));
            !SaveDisabled(p.form) && Submit(p, "t", today) == (None, p)
  {
  }

  /** After a save, a second submit of the reset form does nothing: it has no url. */
  lemma SaveResetsForm(p: Page, newId: string, today: int)
    requires CanSubmit(p.form)
    ensures var q := Submit(p, newId, today).1;
            SaveDisabled(q.form) && Submit(q, newId, today).0.None?
  {
  }

  // ---------------------------------------------------------------------------
  // Listing
  // ---------------------------------------------------------------------------

  /** The sort key for newest first: the negated day. */
  function NewestFirst(ph: Photo): int {
    -ph.date
  }

  /** `[...photos].sort(by date descending)`. */
  function SortedPhotos(photos: seq<Photo>): (r: seq<Photo>)
    ensures forall i, j :: 0 <= i < j < |r| ==> r[i].date >= r[j].date
    ensures multiset(r) == multiset(photos)
  {
    var r := Sorting.SortBy(photos, NewestFirst);
    assert forall i, j :: 0 <= i < j < |r| ==> NewestFirst(r[i]) <= NewestFirst(r[j]);
    r
  }

  /** Photos of the same day keep their stored order, in which the latest upload comes first. */
  lemma SortedPhotosStable(photos: seq<Photo>, k: int)
    ensures Sorting.WithKey(SortedPhotos(photos), NewestFirst, k) == Sorting.WithKey(photos, NewestFirst, k)
  {
    Sorting.SortByStable(photos, NewestFirst, k);
  }

  /** The names shown under a photo: its tagged ids that name a node, in tag order. */
  function TaggedPeople(ph: Photo, nodes: seq<Node>): (r: seq<Node>)
    ensures |r| <= |ph.taggedNodeIds|
    ensures forall n :: n in r ==> n in nodes && n.id in ph.taggedNodeIds
    ensures forall id :: id in ph.taggedNodeIds && HasNode(nodes, id) ==> FindNode(nodes, id).value in r
  {
    FoundNodes(ph.taggedNodeIds, nodes)
  }

  /** When every tag names a node, one person is shown per tag, in tag order. */
  lemma TaggedPeopleAllResolve(ph: Photo, nodes: seq<Node>)
    requires forall id :: id in ph.taggedNodeIds ==> HasNode(nodes, id)
    ensures |TaggedPeople(ph, nodes)| == |ph.taggedNodeIds|
    ensures forall i :: 0 <= i < |ph.taggedNodeIds| ==> TaggedPeople(ph, nodes)[i].id == ph.taggedNodeIds[i]
  {
    FoundNodesAllResolve(ph.taggedNodeIds, nodes);
  }
}

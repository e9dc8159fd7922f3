/** The events page: the add/edit form, its invitee picker, the submit that
    produces a new or updated event, the date-ordered listing and the
    invitee avatars shown on each event card. */
module EventsPage {
  import opened Prelude
  import opened Records
  import opened Selection
  import Sorting

  /** The form's partial event. Title, location and description are only read
      through their truthiness or `|| ''`, so an unset one is the empty string;
      the date input is `None` when cleared. */
  datatype EventForm = EventForm(
    title: string,
    date: Option<int>,
    time: Option<string>,
    location: string,
    description: string,
    kind: EventKind,
    invitees: Option<seq<string>>)

  datatype Page = Page(modalOpen: bool, editingId: Option<string>, form: EventForm)

  /** What a submit asks the application to do. */
  datatype Outcome = NoChange | Added(event: Event) | Updated(event: Event)

  /** The blank form: today's date, a gathering, nobody invited. */
  function BlankForm(today: int): (r: EventForm)
    ensures r.title == "" && r.location == "" && r.description == "" && r.time.None?
    ensures r.date == Some(today) && r.kind == Gathering && r.invitees == Some([])
  {
    EventForm("", Some(today), None, "", "", Gathering, Some([]))
  }

  function InitialPage(today: int): Page {
    Page(false, None, BlankForm(today))
  }

  /** The form filled from an existing event (`{ ...eventToEdit }`). */
  function FormOf(e: Event): (r: EventForm)
    ensures r.title == e.title && r.date == Some(e.date) && r.time == e.time && r.location == e.location
    ensures r.description == e.description && r.kind == e.kind && r.invitees == Some(e.invitees)
  {
    EventForm(e.title, Some(e.date), e.time, e.location, e.description, e.kind, Some(e.invitees))
  }

  /** `handleOpenModal`: edit an existing event, or start a blank one. */
  function OpenModal(p: Page, toEdit: Option<Event>, today: int): (r: Page)
    ensures r.modalOpen
    ensures toEdit.Some? ==> r.editingId == Some(toEdit.value.id) && r.form.title == toEdit.value.title
                              && r.form.date == Some(toEdit.value.date) && r.form.invitees == Some(toEdit.value.invitees)
    ensures toEdit.None? ==> r.editingId.None? && r.form.title == "" && r.form.location == ""
                             && r.form.date == Some(today) && r.form.kind == Gathering && r.form.invitees == Some([])
    ensures toEdit.Some? ==> r.form == FormOf(toEdit.value)
    ensures toEdit.None? ==> r.form == BlankForm(today)
  {
    match toEdit
    case Some(e) => Page(true, Some(e.id), FormOf(e))
    case None => Page(true, None, BlankForm(today))
  }

  /** The invitee list the picker works on (`prev.invitees || []`). */
  function Invitees(f: EventForm): seq<string> {
    f.invitees.GetOr([])
  }

  /** `toggleInvitee`. */
  function ToggleInvitee(p: Page, id: string): (r: Page)
    ensures r.form.invitees.Some?
    ensures id in Invitees(r.form) <==> id !in Invitees(p.form)
    ensures Invitees(r.form) == Toggle(Invitees(p.form), id)
    ensures forall y :: y != id ==> (y in Invitees(r.form) <==> y in Invitees(p.form))
    ensures r.(form := r.form.(invitees := p.form.invitees)) == p
  {
    var r := p.(form := p.form.(invitees := Some(Toggle(Invitees(p.form), id))));
    forall y | y != id
      ensures y in Invitees(r.form) <==> y in Invitees(p.form)
    {
      ToggleOthers(Invitees(p.form), id, y);
    }
    r
  }

  /** `handleSelectAllInvitees`: invite every node. */
  function SelectAll(p: Page, nodes: seq<Node>): (r: Page)
    ensures forall id :: id in Invitees(r.form) <==> HasNode(nodes, id)
    ensures |Invitees(r.form)| == |nodes|
    ensures forall i :: 0 <= i < |nodes| ==> Invitees(r.form)[i] == nodes[i].id
    ensures r.(form := r.form.(invitees := p.form.invitees)) == p
  {
    p.(form := p.form.(invitees := Some(Ids(nodes))))
  }

  /** With distinct node ids, selecting everybody invites nobody twice, and
      toggling anyone afterwards keeps it so. */
  lemma SelectAllKeepsInviteesDistinct(p: Page, nodes: seq<Node>, id: string)
    requires UniqueIds(nodes)
    ensures NoDup(Invitees(SelectAll(p, nodes).form))
    ensures NoDup(Invitees(ToggleInvitee(SelectAll(p, nodes), id).form))
  {
    var q := SelectAll(p, nodes);
    assert NoDup(Invitees(q.form));
    ToggleKeepsNoDup(Invitees(q.form), id);
  }

  /** The submit guard: `title && date && location`. */
  predicate CanSubmit(f: EventForm) {
    f.title != "" && f.date.Some? && f.location != ""
  }

  /** `handleSubmit`; `newId` stands for `Date.now().toString()`. */
  function Submit(p: Page, newId: string): (r: (Outcome, Page))
    ensures !CanSubmit(p.form) <==> r.0.NoChange?
    ensures !CanSubmit(p.form) ==> r.1 == p
    ensures CanSubmit(p.form) ==> r.1 == p.(modalOpen := false)
    ensures CanSubmit(p.form) ==> (r.0.Updated? <==> TruthyOpt(p.editingId))
    ensures CanSubmit(p.form) ==>
      var e := r.0.event;
      && e.id == (if TruthyOpt(p.editingId) then p.editingId.value else newId)
      && e.title == p.form.title && Some(e.date) == p.form.date && e.time == p.form.time
      && e.location == p.form.location && e.description == p.form.description
      && e.kind == p.form.kind && e.invitees == Invitees(p.form)
  {
    var f := p.form;
    if f.title != "" && f.date.Some? && f.location != "" then
      var e := Event(OptOrElse(p.editingId, newId), f.title, f.date.value, f.time, f.location,
                     OrElse(f.description, ""), f.kind, f.invitees.GetOr([]));
      (if TruthyOpt(p.editingId) then Updated(e) else Added(e), p.(modalOpen := false))
    else
      (NoChange, p)
  }

  /** Opening an existing event and saving it untouched asks for that very event to be stored. */
  lemma EditRoundTrip(p: Page, e: Event, today: int, newId: string)
    requires e.id != "" && e.title != "" && e.location != ""
    ensures Submit(OpenModal(p, Some(e), today), newId).0 == Updated(e)
  {
  }

  /** A new event typed into the blank form is added with the clock id, today's date and no invitees. */
  lemma NewEventFromBlankForm(p: Page, title: string, location: string, today: int, newId: string)
    requires title != "" && location != ""
    ensures var q := OpenModal(p, None, today);
            var q' := q.(form := q.form.(title := title, location := location));
            Submit(q', newId).0 == Added(Event(newId, title, today, None, location, "", Gathering, []))
  {
  }

  /** An editing id that is the empty string is treated as no editing id: the event is added under a new id. */
  lemma EmptyEditingIdAdds(p: Page, newId: string)
    requires CanSubmit(p.form) && p.editingId == Some("")
    ensures Submit(p, newId).0.Added? && Submit(p, newId).0.event.id == newId
  {
  }

  // ---------------------------------------------------------------------------
  // Listing
  // ---------------------------------------------------------------------------

  /** The sort key: the event's day. */
  function EventDay(e: Event): int {
    e.date
  }

  /** `[...events].sort(by date ascending)`. */
  function SortedEvents(events: seq<Event>): (r: seq<Event>)
    ensures forall i, j :: 0 <= i < j < |r| ==> r[i].date <= r[j].date
    ensures multiset(r) == multiset(events)
  {
    var r := Sorting.SortBy(events, EventDay);
    assert forall i, j :: 0 <= i < j < |r| ==> EventDay(r[i]) <= EventDay(r[j]);
    r
  }

  /** Events on the same day keep the order in which they were created. */
  lemma SortedEventsStable(events: seq<Event>, day: int)
    ensures Sorting.WithKey(SortedEvents(events), EventDay, day) == Sorting.WithKey(events, EventDay, day)
  {
    Sorting.SortByStable(events, EventDay, day);
  }

  // ---------------------------------------------------------------------------
  // Invitee avatars on an event card
  // ---------------------------------------------------------------------------

  /** The invitee strip: hidden when nobody is invited. */
  datatype Strip = Hidden | Shown(avatars: seq<Node>, overflow: Option<int>, invited: int)

  /** Avatars for the first five invitees, a `+n` badge beyond five, and the invitee count. */
  function InviteeStrip(e: Event, nodes: seq<Node>): (r: Strip)
    ensures r.Hidden? <==> e.invitees == []
    ensures r.Shown? ==> |r.avatars| <= 5 && r.invited == |e.invitees|
    ensures r.Shown? ==> forall n :: n in r.avatars ==> n in nodes && n.id in e.invitees
    ensures r.Shown? ==> r.overflow == if |e.invitees| > 5 then Some(|e.invitees| - 5) else None
    ensures r.Shown? ==> r.avatars == FoundNodes(e.invitees[..if |e.invitees| <= 5 then |e.invitees| else 5], nodes)
  {
    if |e.invitees| == 0 then Hidden
    else
      var firstFive := e.invitees[..if |e.invitees| <= 5 then |e.invitees| else 5];
      Shown(FoundNodes(firstFive, nodes),
            if |e.invitees| > 5 then Some(|e.invitees| - 5) else None,
            |e.invitees|)
  }

  /** When every invitee names a node, the avatars and the badge account for every invitee exactly once. */
  lemma StripCountsEveryone(e: Event, nodes: seq<Node>)
    requires e.invitees != []
    requires forall id :: id in e.invitees ==> HasNode(nodes, id)
    ensures var s := InviteeStrip(e, nodes);
            |s.avatars| + s.overflow.GetOr(0) == |e.invitees|
            && forall i :: 0 <= i < |s.avatars| ==> s.avatars[i].id == e.invitees[i]
  {
    var firstFive := e.invitees[..if |e.invitees| <= 5 then |e.invitees| else 5];
    assert forall id :: id in firstFive ==> id in e.invitees;
    FoundNodesAllResolve(firstFive, nodes);
  }
}

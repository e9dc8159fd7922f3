/** How the pages' outputs feed the application's handlers: what a user action
    does to the stored graph, events and profile from end to end. */
module Flows {
  import opened Prelude
  import opened Records
  import GraphStore
  import AddNodeModal
  import ProfilePanel
  import MyProfile
  import EventsPage
  import AuthPage
  import TimelinePage
  import Sorting

  /** Submitting the add-member dialog with a name and a listed anchor adds
      exactly one person and one link; a fresh id keeps the graph consistent. */
  lemma AddMemberFromDialog(app: GraphStore.AppState, f: AddNodeForm, k: int, newId: string)
    requires 1 <= k < |AddNodeModal.AnchorChoices(app.graph.nodes)|
    requires f.name != "" && f.relatedNodeId == AddNodeModal.AnchorChoices(app.graph.nodes)[k] && f.relatedNodeId != ""
    requires GraphStore.GenerationsConsistent(app.graph) && GraphStore.LinksResolve(app.graph)
    requires !HasNode(app.graph.nodes, newId)
    ensures AddNodeModal.Submit(f) == Some(f)
    ensures var g := GraphStore.HandleAddNode(app, f, newId).graph;
            |g.nodes| == |app.graph.nodes| + 1 && |g.links| == |app.graph.links| + 1
            && GraphStore.GenerationsConsistent(g) && GraphStore.LinksResolve(g)
  {
    AddNodeModal.ChoicesNameNodes(app.graph.nodes, k);
    GraphStore.AddKeepsGenerationsConsistent(app.graph, f, newId);
    GraphStore.AddKeepsLinksResolved(app.graph, f, newId);
  }

  /** Saving the profile panel after any edits keeps every parent link consistent. */
  lemma PanelSaveKeepsGenerations(app: GraphStore.AppState, n: Node, edits: seq<(ProfilePanel.Field, string)>)
    requires GraphStore.GenerationsConsistent(app.graph) && FindNode(app.graph.nodes, n.id) == Some(n)
    ensures var p := ProfilePanel.ApplyEdits(ProfilePanel.StartEdit(ProfilePanel.NodeChanged(Some(n))), edits);
            var saved := ProfilePanel.Save(p).0;
            saved.Some? && GraphStore.GenerationsConsistent(GraphStore.HandleUpdateNode(app, saved.value).graph)
  {
    var p0 := ProfilePanel.StartEdit(ProfilePanel.NodeChanged(Some(n)));
    var p := ProfilePanel.ApplyEdits(p0, edits);
    ProfilePanel.EditsKeepIdentity(p0, edits);
    GraphStore.UpdateKeepsGenerationsConsistent(app.graph, p.edited.value);
  }

  /** Removing the person shown in the panel removes them, their links, and the selection. */
  lemma PanelDeleteRemovesPerson(app: GraphStore.AppState, n: Node)
    requires app.selected == Some(n)
    ensures var id := ProfilePanel.Delete(n, true).value;
            var r := GraphStore.HandleDeleteNode(app, id);
            !HasNode(r.graph.nodes, n.id) && r.selected.None?
            && forall l :: l in r.graph.links ==> l.source != n.id && l.target != n.id
  {
  }

  /** Saving "My Profile" keeps every parent link consistent: the page cannot change a generation. */
  lemma ProfilePageSaveKeepsGenerations(app: GraphStore.AppState, p: MyProfile.Page)
    requires GraphStore.GenerationsConsistent(app.graph) && HasNode(app.graph.nodes, GraphStore.SelfId)
    ensures var user := GraphStore.UserNode(app.graph.nodes);
            GraphStore.GenerationsConsistent(GraphStore.HandleUpdateNode(app, MyProfile.Submit(p, user).0).graph)
  {
    var user := GraphStore.UserNode(app.graph.nodes);
    GraphStore.UpdateKeepsGenerationsConsistent(app.graph, MyProfile.Submit(p, user).0);
  }

  /** Signing in renames the user's own node to the displayed name. */
  lemma SignInRenamesSelf(app: GraphStore.AppState, page: AuthPage.Page)
    requires UniqueIds(app.graph.nodes) && HasNode(app.graph.nodes, GraphStore.SelfId)
    ensures var user := AuthPage.Submit(page);
            GraphStore.UserNode(GraphStore.HandleAuthSuccess(app, user).graph.nodes).name == user.name
  {
    var user := AuthPage.Submit(page);
    var nodes := app.graph.nodes;
    var nodes' := GraphStore.HandleAuthSuccess(app, user).graph.nodes;
    var i :| 0 <= i < |nodes| && Ids(nodes)[i] == GraphStore.SelfId;
    assert Ids(nodes') == Ids(nodes);
    assert UniqueIds(nodes') by {
      forall a, b | 0 <= a < b < |nodes'|
        ensures nodes'[a].id != nodes'[b].id
      {
        assert Ids(nodes')[a] == Ids(nodes)[a] && Ids(nodes')[b] == Ids(nodes)[b];
      }
    }
    FindUnique(nodes', i);
  }

  /** Opening an event and saving it untouched leaves the stored events as they were. */
  lemma UntouchedEventEditIsNoOp(app: GraphStore.AppState, page: EventsPage.Page, e: Event, today: int, newId: string)
    requires e.id != "" && e.title != "" && e.location != ""
    requires forall i :: 0 <= i < |app.events| && app.events[i].id == e.id ==> app.events[i] == e
    ensures var outcome := EventsPage.Submit(EventsPage.OpenModal(page, Some(e), today), newId).0;
            outcome.Updated? && GraphStore.HandleUpdateEvent(app, outcome.event) == app
  {
    EventsPage.EditRoundTrip(page, e, today, newId);
    GraphStore.UpdateEventWithStoredEvent(app, e);
  }

  /** A generated bio that arrives before the submit is the bio the new relative is stored with. */
  lemma GeneratedBioReachesNode(app: GraphStore.AppState, f: AddNodeForm, bio: string, newId: string)
    requires bio != "" && HasNode(app.graph.nodes, f.relatedNodeId)
    requires AddNodeModal.Submit(AddNodeModal.BioArrived(f, bio)).Some?
    ensures var form := AddNodeModal.Submit(AddNodeModal.BioArrived(f, bio)).value;
            var g := GraphStore.HandleAddNode(app, form, newId).graph;
            |g.nodes| == |app.graph.nodes| + 1 && g.nodes[|app.graph.nodes|].bio == bio
  {
  }

  /** An uploaded photo is listed first among the photos of its day, and the other days' listings do not change. */
  lemma AddedPhotoLeadsItsDay(app: GraphStore.AppState, ph: Photo, other: int)
    ensures var k := TimelinePage.NewestFirst(ph);
            Sorting.WithKey(TimelinePage.SortedPhotos(GraphStore.HandleAddPhoto(app, ph).photos), TimelinePage.NewestFirst, k)
            == [ph] + Sorting.WithKey(TimelinePage.SortedPhotos(app.photos), TimelinePage.NewestFirst, k)
    ensures other != TimelinePage.NewestFirst(ph) ==>
            Sorting.WithKey(TimelinePage.SortedPhotos(GraphStore.HandleAddPhoto(app, ph).photos), TimelinePage.NewestFirst, other)
            == Sorting.WithKey(TimelinePage.SortedPhotos(app.photos), TimelinePage.NewestFirst, other)
  {
    var photos := GraphStore.HandleAddPhoto(app, ph).photos;
    assert photos == [ph] + app.photos;
    forall j | j == TimelinePage.NewestFirst(ph) || j == other
      ensures Sorting.WithKey(TimelinePage.SortedPhotos(photos), TimelinePage.NewestFirst, j)
              == Sorting.Keep(ph, TimelinePage.NewestFirst, j)
                 + Sorting.WithKey(TimelinePage.SortedPhotos(app.photos), TimelinePage.NewestFirst, j)
    {
      TimelinePage.SortedPhotosStable(photos, j);
      TimelinePage.SortedPhotosStable(app.photos, j);
      Sorting.WithKeyCons(ph, app.photos, TimelinePage.NewestFirst, j);
    }
  }

  /** A new event is listed last among the events of its day, and the other days' listings do not change. */
  lemma AddedEventTrailsItsDay(app: GraphStore.AppState, e: Event, other: int)
    ensures Sorting.WithKey(EventsPage.SortedEvents(GraphStore.HandleAddEvent(app, e).events), EventsPage.EventDay, e.date)
            == Sorting.WithKey(EventsPage.SortedEvents(app.events), EventsPage.EventDay, e.date) + [e]
    ensures other != e.date ==>
            Sorting.WithKey(EventsPage.SortedEvents(GraphStore.HandleAddEvent(app, e).events), EventsPage.EventDay, other)
            == Sorting.WithKey(EventsPage.SortedEvents(app.events), EventsPage.EventDay, other)
  {
    var events := GraphStore.HandleAddEvent(app, e).events;
    assert events == app.events + [e];
    forall j | j == e.date || j == other
      ensures Sorting.WithKey(EventsPage.SortedEvents(events), EventsPage.EventDay, j)
              == Sorting.WithKey(EventsPage.SortedEvents(app.events), EventsPage.EventDay, j)
                 + Sorting.Keep(e, EventsPage.EventDay, j)
    {
      EventsPage.SortedEventsStable(events, j);
      EventsPage.SortedEventsStable(app.events, j);
      Sorting.WithKeySnoc(events, EventsPage.EventDay, j);
      assert events[..|events| - 1] == app.events;
    }
  }
}

/** The in-memory family graph kept by App.tsx and the handlers that change it:
    add a relative, cascade delete, replace by id, the sign-in rename of the
    user's own node, and the photo and event lists. */
module GraphStore {
  import opened Prelude
  import opened Records
  import Text

  datatype Graph = Graph(nodes: seq<Node>, links: seq<Link>)

  /** The state App.tsx holds (the current view is presentation only and left out). */
  datatype AppState = AppState(
    user: Option<User>,
    graph: Graph,
    photos: seq<Photo>,
    events: seq<Event>,
    selected: Option<Node>)

  /** Id of the user's own node. */
  const SelfId: string := "1"

  /** Bio given to a new relative whose form bio is empty. */
  const DefaultBio: string := "New family member"

  // ---------------------------------------------------------------------------
  // Graph invariants
  // ---------------------------------------------------------------------------

  /** Every link endpoint names an existing node. */
  predicate LinksResolve(g: Graph) {
    forall l :: l in g.links ==> HasNode(g.nodes, l.source) && HasNode(g.nodes, l.target)
  }

  /** A `ParentOf` link joins a parent to a child one generation below it. */
  predicate ParentLinkConsistent(nodes: seq<Node>, l: Link) {
    l.kind == ParentOf ==>
      var p, c := FindNode(nodes, l.source), FindNode(nodes, l.target);
      p.Some? && c.Some? && p.value.generation == c.value.generation - 1
  }

  predicate GenerationsConsistent(g: Graph) {
    forall l :: l in g.links ==> ParentLinkConsistent(g.nodes, l)
  }

  // ---------------------------------------------------------------------------
  // Add a relative (handleAddNode)
  // ---------------------------------------------------------------------------

  function Abs(x: int): nat {
    if x < 0 then -x else x
  }

  /** `Math.abs(generation) % 5 + 1`: the colour group of a new node. */
  function GroupOf(generation: int): (r: int)
    ensures 1 <= r <= 5
    ensures generation % 5 == 0 ==> r == 1
  {
    Abs(generation) % 5 + 1
  }

  /** Ancestors and descendants the same distance from generation 0 share a colour group. */
  lemma GroupSymmetric(generation: int)
    ensures GroupOf(-generation) == GroupOf(generation)
  {
  }

  /** The generation of the new relative, one above or below the anchor for a parent or child. */
  function NewGeneration(rel: Relationship, anchor: int): int {
    match rel
    case Parent => anchor - 1
    case Child => anchor + 1
    case Spouse => anchor
    case Sibling => anchor
  }

  /** The link joining the anchor and the new relative. */
  function NewLink(rel: Relationship, anchorId: string, newId: string): Link {
    match rel
    case Parent => Link(newId, anchorId, ParentOf)
    case Child => Link(anchorId, newId, ParentOf)
    case Spouse => Link(anchorId, newId, SpouseOf)
    case Sibling => Link(anchorId, newId, SiblingOf)
  }

  function NewNode(data: AddNodeForm, generation: int, newId: string): Node {
    Node(newId, data.name, Some(data.relationLabel), OrElse(data.bio, DefaultBio),
         generation, Some(GroupOf(generation)), None, None, None, None, None,
         data.isCloseFamily, None)
  }

  /** `handleAddNode`; `newId` stands for the clock-derived id. */
  function AddRelative(g: Graph, data: AddNodeForm, newId: string): (r: Graph)
    ensures !HasNode(g.nodes, data.relatedNodeId) ==> r == g
    ensures HasNode(g.nodes, data.relatedNodeId) ==>
      && |r.nodes| == |g.nodes| + 1 && r.nodes[..|g.nodes|] == g.nodes
      && |r.links| == |g.links| + 1 && r.links[..|g.links|] == g.links
    ensures HasNode(g.nodes, data.relatedNodeId) ==>
      var anchor, n, l := FindNode(g.nodes, data.relatedNodeId).value, r.nodes[|g.nodes|], r.links[|g.links|];
      && n.id == newId && n.name == data.name && n.relationLabel == Some(data.relationLabel)
      && n.isCloseFamily == data.isCloseFamily
      && (data.bio != "" ==> n.bio == data.bio) && (data.bio == "" ==> n.bio == DefaultBio)
      && n.group == Some(GroupOf(n.generation)) && 1 <= n.group.value <= 5
      && n.imageUrl.None? && n.age.None? && n.gender.None? && n.location.None? && n.occupation.None?
      && n.familyIds.None?
      && anchor.id == data.relatedNodeId
      && (data.relationship == Parent ==>
            n.generation == anchor.generation - 1 && l == Link(newId, anchor.id, ParentOf))
      && (data.relationship == Child ==>
            n.generation == anchor.generation + 1 && l == Link(anchor.id, newId, ParentOf))
      && (data.relationship == Spouse ==>
            n.generation == anchor.generation && l == Link(anchor.id, newId, SpouseOf))
      && (data.relationship == Sibling ==>
            n.generation == anchor.generation && l == Link(anchor.id, newId, SiblingOf))
  {
    match FindNode(g.nodes, data.relatedNodeId)
    case None => g
    case Some(anchor) =>
      var gen := NewGeneration(data.relationship, anchor.generation);
      var r := Graph(g.nodes + [NewNode(data, gen, newId)],
                     g.links + [NewLink(data.relationship, anchor.id, newId)]);
      assert r.nodes[..|g.nodes|] == g.nodes;
      assert r.links[..|g.links|] == g.links;
      r
  }

  /** Adding keeps every link endpoint resolvable. */
  lemma AddKeepsLinksResolved(g: Graph, data: AddNodeForm, newId: string)
    requires LinksResolve(g)
    ensures LinksResolve(AddRelative(g, data, newId))
  {
    var r := AddRelative(g, data, newId);
    if HasNode(g.nodes, data.relatedNodeId) {
      var anchor := FindNode(g.nodes, data.relatedNodeId).value;
      var n := NewNode(data, NewGeneration(data.relationship, anchor.generation), newId);
      assert r.nodes == g.nodes + [n];
      assert r.links == g.links + [NewLink(data.relationship, anchor.id, newId)];
      assert Ids(r.nodes) == Ids(g.nodes) + [newId];
      assert HasNode(r.nodes, anchor.id) by { HasNodeOf(g.nodes, anchor); }
    }
  }

  /** Adding with a fresh id keeps node ids unique. */
  lemma AddKeepsIdsUnique(g: Graph, data: AddNodeForm, newId: string)
    requires UniqueIds(g.nodes) && !HasNode(g.nodes, newId)
    ensures UniqueIds(AddRelative(g, data, newId).nodes)
  {
    var r := AddRelative(g, data, newId);
    if HasNode(g.nodes, data.relatedNodeId) {
      forall i | 0 <= i < |g.nodes|
        ensures g.nodes[i].id != newId
      {
        assert Ids(g.nodes)[i] == g.nodes[i].id;
      }
    }
  }

  /** Adding with a fresh id keeps every parent one generation above its child. */
  lemma AddKeepsGenerationsConsistent(g: Graph, data: AddNodeForm, newId: string)
    requires GenerationsConsistent(g) && !HasNode(g.nodes, newId)
    ensures GenerationsConsistent(AddRelative(g, data, newId))
  {
    var r := AddRelative(g, data, newId);
    if HasNode(g.nodes, data.relatedNodeId) {
      var anchor := FindNode(g.nodes, data.relatedNodeId).value;
      var n := NewNode(data, NewGeneration(data.relationship, anchor.generation), newId);
      assert r.nodes == g.nodes + [n];
      assert HasNode([n], newId) by { assert Ids([n]) == [newId]; }
      FindConcat(g.nodes, [n], newId);
      FindConcat(g.nodes, [n], anchor.id);
      forall l | l in r.links
        ensures ParentLinkConsistent(r.nodes, l)
      {
        if l in g.links {
          FindConcat(g.nodes, [n], l.source);
          FindConcat(g.nodes, [n], l.target);
        } else {
          assert l == NewLink(data.relationship, anchor.id, newId);
        }
      }
    }
  }

  // ---------------------------------------------------------------------------
  // Cascade delete (handleDeleteNode)
  // ---------------------------------------------------------------------------

  /** `nodes.filter(n => n.id !== id)`. */
  function DropNode(nodes: seq<Node>, id: string): (r: seq<Node>)
    ensures forall n :: n in r <==> n in nodes && n.id != id
    ensures |r| <= |nodes|
  {
    if nodes == [] then []
    else
      assert nodes == [nodes[0]] + nodes[1..];
      (if nodes[0].id == id then [] else [nodes[0]]) + DropNode(nodes[1..], id)
  }

  predicate Touches(l: Link, id: string) {
    l.source == id || l.target == id
  }

  /** `links.filter(l => l.source !== id && l.target !== id)`. */
  function DropLinks(links: seq<Link>, id: string): (r: seq<Link>)
    ensures forall l :: l in r <==> l in links && !Touches(l, id)
    ensures |r| <= |links|
  {
    if links == [] then []
    else
      assert links == [links[0]] + links[1..];
      (if Touches(links[0], id) then [] else [links[0]]) + DropLinks(links[1..], id)
  }

  /** Removes the node and every link touching it. */
  function DeleteNode(g: Graph, id: string): (r: Graph)
    ensures !HasNode(r.nodes, id)
    ensures forall n :: n in r.nodes <==> n in g.nodes && n.id != id
    ensures forall l :: l in r.links <==> l in g.links && !Touches(l, id)
  {
    var r := Graph(DropNode(g.nodes, id), DropLinks(g.links, id));
    HasNodeIff(r.nodes, id);
    r
  }

  /** Filtering distributes over concatenation, so survivors keep their order. */
  lemma {:induction false} DropNodeConcat(a: seq<Node>, b: seq<Node>, id: string)
    ensures DropNode(a + b, id) == DropNode(a, id) + DropNode(b, id)
    decreases |a|
  {
    if a == [] {
      assert a + b == b;
    } else {
      assert (a + b)[1..] == a[1..] + b;
      DropNodeConcat(a[1..], b, id);
    }
  }

  lemma {:induction false} DropLinksConcat(a: seq<Link>, b: seq<Link>, id: string)
    ensures DropLinks(a + b, id) == DropLinks(a, id) + DropLinks(b, id)
    decreases |a|
  {
    if a == [] {
      assert a + b == b;
    } else {
      assert (a + b)[1..] == a[1..] + b;
      DropLinksConcat(a[1..], b, id);
    }
  }

  /** Nothing is dropped when no node has the id. */
  lemma {:induction false} DropNodeAbsent(nodes: seq<Node>, id: string)
    requires !HasNode(nodes, id)
    ensures DropNode(nodes, id) == nodes
  {
    if nodes != [] {
      assert Ids(nodes) == [nodes[0].id] + Ids(nodes[1..]);
      DropNodeAbsent(nodes[1..], id);
    }
  }

  lemma {:induction false} DropLinksUntouched(links: seq<Link>, id: string)
    requires forall l :: l in links ==> !Touches(l, id)
    ensures DropLinks(links, id) == links
  {
    if links != [] {
      assert links[0] in links;
      DropLinksUntouched(links[1..], id);
    }
  }

  /** Lookups of any other id are unaffected by dropping a node. */
  lemma {:induction false} FindAfterDrop(nodes: seq<Node>, id: string, x: string)
    requires x != id
    ensures FindNode(DropNode(nodes, id), x) == FindNode(nodes, x)
  {
    if nodes != [] {
      FindAfterDrop(nodes[1..], id, x);
      var head := if nodes[0].id == id then [] else [nodes[0]];
      FindConcat(head, DropNode(nodes[1..], id), x);
      assert Ids(nodes) == [nodes[0].id] + Ids(nodes[1..]);
      assert head == [] ==> [] + DropNode(nodes[1..], id) == DropNode(nodes[1..], id);
      if head != [] {
        assert Ids(head) == [nodes[0].id];
      }
    }
  }

  /** Deleting keeps every remaining link endpoint resolvable. */
  lemma DeleteKeepsLinksResolved(g: Graph, id: string)
    requires LinksResolve(g)
    ensures LinksResolve(DeleteNode(g, id))
  {
    var r := DeleteNode(g, id);
    forall l | l in r.links
      ensures HasNode(r.nodes, l.source) && HasNode(r.nodes, l.target)
    {
      FindAfterDrop(g.nodes, id, l.source);
      FindAfterDrop(g.nodes, id, l.target);
    }
  }

  /** Deleting keeps every surviving parent link consistent. */
  lemma DeleteKeepsGenerationsConsistent(g: Graph, id: string)
    requires GenerationsConsistent(g)
    ensures GenerationsConsistent(DeleteNode(g, id))
  {
    var r := DeleteNode(g, id);
    forall l | l in r.links
      ensures ParentLinkConsistent(r.nodes, l)
    {
      FindAfterDrop(g.nodes, id, l.source);
      FindAfterDrop(g.nodes, id, l.target);
    }
  }

  /** Dropping a freshly appended node removes exactly that node. */
  lemma DropAppendedNode(nodes: seq<Node>, n: Node)
    requires !HasNode(nodes, n.id)
    ensures DropNode(nodes + [n], n.id) == nodes
  {
    DropNodeConcat(nodes, [n], n.id);
    DropNodeAbsent(nodes, n.id);
    assert DropNode([n], n.id) == [];
  }

  /** Dropping the links of a fresh id removes exactly the appended link. */
  lemma DropAppendedLink(links: seq<Link>, l: Link, id: string)
    requires forall k :: k in links ==> !Touches(k, id)
    requires Touches(l, id)
    ensures DropLinks(links + [l], id) == links
  {
    DropLinksConcat(links, [l], id);
    DropLinksUntouched(links, id);
    assert DropLinks([l], id) == [];
  }

  /** Deleting a relative just added with a fresh id restores the graph exactly. */
  lemma DeleteUndoesAdd(g: Graph, data: AddNodeForm, newId: string)
    requires LinksResolve(g) && !HasNode(g.nodes, newId)
    requires HasNode(g.nodes, data.relatedNodeId)
    ensures DeleteNode(AddRelative(g, data, newId), newId) == g
  {
    var anchor := FindNode(g.nodes, data.relatedNodeId).value;
    var n := NewNode(data, NewGeneration(data.relationship, anchor.generation), newId);
    var l := NewLink(data.relationship, anchor.id, newId);
    assert AddRelative(g, data, newId) == Graph(g.nodes + [n], g.links + [l]);
    DropAppendedNode(g.nodes, n);
    DropAppendedLink(g.links, l, newId);
  }

  /** The cascade example: with nodes A, B, C and links A->B, B->C, deleting B leaves A and C and no links. */
  lemma CascadeExample(a: Node, b: Node, c: Node)
    requires a.id == "A" && b.id == "B" && c.id == "C"
    ensures var g := Graph([a, b, c], [Link("A", "B", ParentOf), Link("B", "C", ParentOf)]);
            DeleteNode(g, "B") == Graph([a, c], [])
  {
    var g := Graph([a, b, c], [Link("A", "B", ParentOf), Link("B", "C", ParentOf)]);
    assert [a, b, c] == [a] + [b] + [c];
    DropNodeConcat([a] + [b], [c], "B");
    DropNodeConcat([a], [b], "B");
    assert DropNode([a], "B") == [a];
    assert DropNode([b], "B") == [];
    assert DropNode([c], "B") == [c];
    var links := g.links;
    assert DropLinks(links, "B") == [] by {
      assert DropLinks(links[1..], "B") == [];
    }
  }

  // ---------------------------------------------------------------------------
  // Replace by id (handleUpdateNode), rename on sign-in (handleAuthSuccess)
  // ---------------------------------------------------------------------------

  /** `nodes.map(n => n.id === u.id ? u : n)`. */
  function UpdateNodes(nodes: seq<Node>, u: Node): (r: seq<Node>)
    ensures Ids(r) == Ids(nodes)
    ensures forall i :: 0 <= i < |nodes| && nodes[i].id != u.id ==> r[i] == nodes[i]
    ensures forall i :: 0 <= i < |nodes| && nodes[i].id == u.id ==> r[i] == u
  {
    ReplaceById(nodes, NodeId, u)
  }

  /** When the id exists the updated entry is in the list afterwards. */
  lemma UpdatePlacesNode(nodes: seq<Node>, u: Node)
    requires HasNode(nodes, u.id)
    ensures u in UpdateNodes(nodes, u)
  {
    var i :| 0 <= i < |nodes| && Ids(nodes)[i] == u.id;
    assert UpdateNodes(nodes, u)[i] == u;
  }

  /** A lookup after an update finds the new entry for its id and the old entry for any other id. */
  lemma {:induction false} FindAfterUpdate(nodes: seq<Node>, u: Node, x: string)
    ensures FindNode(UpdateNodes(nodes, u), x)
         == if x == u.id && HasNode(nodes, x) then Some(u) else FindNode(nodes, x)
  {
    if nodes != [] {
      var r := UpdateNodes(nodes, u);
      assert Ids(nodes) == [nodes[0].id] + Ids(nodes[1..]);
      assert r[1..] == UpdateNodes(nodes[1..], u);
      FindAfterUpdate(nodes[1..], u, x);
    }
  }

  lemma UpdateKeepsLinksResolved(g: Graph, u: Node)
    requires LinksResolve(g)
    ensures LinksResolve(Graph(UpdateNodes(g.nodes, u), g.links))
  {
  }

  /** An update that keeps the node's generation keeps parent links consistent. */
  lemma UpdateKeepsGenerationsConsistent(g: Graph, u: Node)
    requires GenerationsConsistent(g)
    requires HasNode(g.nodes, u.id) ==> FindNode(g.nodes, u.id).value.generation == u.generation
    ensures GenerationsConsistent(Graph(UpdateNodes(g.nodes, u), g.links))
  {
    forall l | l in g.links
      ensures ParentLinkConsistent(UpdateNodes(g.nodes, u), l)
    {
      FindAfterUpdate(g.nodes, u, l.source);
      FindAfterUpdate(g.nodes, u, l.target);
    }
  }

  /** The consistency of generations is only enforced when a node is added:
      an update that changes a generation can break it. */
  lemma UpdateCanBreakGenerations()
    ensures var parent := Node("p", "P", None, "", -1, None, None, None, None, None, None, true, None);
            var child := Node("c", "C", None, "", 0, None, None, None, None, None, None, true, None);
            var g := Graph([parent, child], [Link("p", "c", ParentOf)]);
            GenerationsConsistent(g)
            && !GenerationsConsistent(Graph(UpdateNodes(g.nodes, parent.(generation := 3)), g.links))
  {
    var parent := Node("p", "P", None, "", -1, None, None, None, None, None, None, true, None);
    var child := Node("c", "C", None, "", 0, None, None, None, None, None, None, true, None);
    var g := Graph([parent, child], [Link("p", "c", ParentOf)]);
    var u := parent.(generation := 3);
    var nodes' := UpdateNodes(g.nodes, u);
    assert nodes'[0] == u && nodes'[1] == child;
    assert nodes' == [u, child];
    assert Link("p", "c", ParentOf) in g.links;
  }

  /** `nodes.map(n => n.id === '1' ? { ...n, name } : n)`. */
  function RenameSelf(nodes: seq<Node>, name: string): (r: seq<Node>)
    ensures |r| == |nodes|
    ensures forall i :: 0 <= i < |nodes| && nodes[i].id != SelfId ==> r[i] == nodes[i]
    ensures forall i :: 0 <= i < |nodes| && nodes[i].id == SelfId ==> r[i] == nodes[i].(name := name)
  {
    seq(|nodes|, i requires 0 <= i < |nodes| =>
      if nodes[i].id == SelfId then nodes[i].(name := name) else nodes[i])
  }

  // ---------------------------------------------------------------------------
  // Handlers on the whole application state
  // ---------------------------------------------------------------------------

  function HandleAddNode(app: AppState, data: AddNodeForm, newId: string): (r: AppState)
    ensures r.graph == AddRelative(app.graph, data, newId)
    ensures r.(graph := app.graph) == app
  {
    app.(graph := AddRelative(app.graph, data, newId))
  }

  /** `handleDeleteNode`: cascade delete, and clear the selection if it was the deleted node. */
  function HandleDeleteNode(app: AppState, id: string): (r: AppState)
    ensures r.graph == DeleteNode(app.graph, id)
    ensures app.selected.Some? && app.selected.value.id == id ==> r.selected.None?
    ensures !(app.selected.Some? && app.selected.value.id == id) ==> r.selected == app.selected
    ensures r.user == app.user && r.photos == app.photos && r.events == app.events
  {
    var selected := if app.selected.Some? && app.selected.value.id == id then None else app.selected;
    app.(graph := DeleteNode(app.graph, id), selected := selected)
  }

  /** `handleUpdateNode`: replace by id, and refresh the selection if it is that node. */
  function HandleUpdateNode(app: AppState, u: Node): (r: AppState)
    ensures |r.graph.nodes| == |app.graph.nodes| && r.graph.links == app.graph.links
    ensures forall i :: 0 <= i < |app.graph.nodes| ==>
              r.graph.nodes[i] == if app.graph.nodes[i].id == u.id then u else app.graph.nodes[i]
    ensures app.selected.Some? && app.selected.value.id == u.id ==> r.selected == Some(u)
    ensures !(app.selected.Some? && app.selected.value.id == u.id) ==> r.selected == app.selected
    ensures r.user == app.user && r.photos == app.photos && r.events == app.events
  {
    var selected := if app.selected.Some? && app.selected.value.id == u.id then Some(u) else app.selected;
    app.(graph := app.graph.(nodes := UpdateNodes(app.graph.nodes, u)), selected := selected)
  }

  /** `handleAuthSuccess`: remember the user and rename only node '1'. */
  function HandleAuthSuccess(app: AppState, user: User): (r: AppState)
    ensures r.user == Some(user)
    ensures Ids(r.graph.nodes) == Ids(app.graph.nodes) && r.graph.links == app.graph.links
    ensures forall i :: 0 <= i < |app.graph.nodes| ==>
              r.graph.nodes[i].(name := app.graph.nodes[i].name) == app.graph.nodes[i]
    ensures forall i :: 0 <= i < |app.graph.nodes| ==>
              r.graph.nodes[i].name == if app.graph.nodes[i].id == SelfId then user.name else app.graph.nodes[i].name
    ensures r.selected == app.selected && r.photos == app.photos && r.events == app.events
  {
    app.(user := Some(user), graph := app.graph.(nodes := RenameSelf(app.graph.nodes, user.name)))
  }

  /** `handleAddPhoto`: the new photo goes to the front. */
  function HandleAddPhoto(app: AppState, p: Photo): (r: AppState)
    ensures |r.photos| == |app.photos| + 1 && r.photos[0] == p && r.photos[1..] == app.photos
    ensures r.(photos := app.photos) == app
  {
    app.(photos := [p] + app.photos)
  }

  /** `handleAddEvent`: the new event goes to the back. */
  function HandleAddEvent(app: AppState, e: Event): (r: AppState)
    ensures |r.events| == |app.events| + 1 && r.events[|app.events|] == e
    ensures r.events[..|app.events|] == app.events
    ensures r.(events := app.events) == app
  {
    var r := app.(events := app.events + [e]);
    assert r.events[..|app.events|] == app.events;
    r
  }

  /** `handleUpdateEvent`: replace the events carrying the updated event's id. */
  function HandleUpdateEvent(app: AppState, e: Event): (r: AppState)
    ensures |r.events| == |app.events|
    ensures forall i :: 0 <= i < |app.events| ==>
              r.events[i] == if app.events[i].id == e.id then e else app.events[i]
    ensures r.(events := app.events) == app
  {
    app.(events := ReplaceById(app.events, EventId, e))
  }

  /** Storing an event that is already stored under its id changes nothing. */
  lemma UpdateEventWithStoredEvent(app: AppState, e: Event)
    requires forall i :: 0 <= i < |app.events| && app.events[i].id == e.id ==> app.events[i] == e
    ensures HandleUpdateEvent(app, e) == app
  {
    assert HandleUpdateEvent(app, e).events == app.events;
  }

  // ---------------------------------------------------------------------------
  // Initial data and the user's own node
  // ---------------------------------------------------------------------------

  function Person(id: string, name: string, relation: string, bio: string, generation: int,
                  group: int, age: string, gender: string): Node {
    Node(id, name, Some(relation), bio, generation, Some(group), None, Some(age), Some(gender),
         None, None, true, None)
  }

  const InitialNodes: seq<Node> := [
    Person("1", "Me", "Self", "The center of this universe.", 0, 1, "28", "Male")
      .(location := Some("New York, USA"), occupation := Some("Software Engineer")),
    Person("2", "Arthur", "Father", "Hardworking man who loves fishing.", -1, 2, "62", "Male"),
    Person("3", "Molly", "Mother", "The best cook in the world.", -1, 2, "60", "Female"),
    Person("4", "Ginny", "Spouse", "My partner in crime.", 0, 1, "27", "Female"),
    Person("5", "James", "Son", "Full of energy and mischief.", 1, 3, "5", "Male"),
    Person("6", "Albus", "Son", "Quiet and thoughtful.", 1, 3, "3", "Male")
  ]

  const InitialLinks: seq<Link> := [
    Link("2", "1", ParentOf),
    Link("3", "1", ParentOf),
    Link("1", "4", SpouseOf),
    Link("1", "5", ParentOf),
    Link("4", "5", ParentOf),
    Link("1", "6", ParentOf),
    Link("4", "6", ParentOf)
  ]

  lemma InitialIdsUnique()
    ensures Ids(InitialNodes) == ["1", "2", "3", "4", "5", "6"]
    ensures UniqueIds(InitialNodes)
  {
  }

  /** Each seeded id is found at its own position. */
  lemma InitialFind(i: int)
    requires 0 <= i < 6
    ensures FindNode(InitialNodes, ["1", "2", "3", "4", "5", "6"][i]) == Some(InitialNodes[i])
  {
    InitialIdsUnique();
    FindUnique(InitialNodes, i);
  }

  /** The node found for `id` lies in generation `gen`. */
  predicate GenerationIs(nodes: seq<Node>, id: string, gen: int) {
    FindNode(nodes, id).Some? && FindNode(nodes, id).value.generation == gen
  }

  /** The generation found for each seeded id. */
  lemma InitialGenerations()
    ensures GenerationIs(InitialNodes, "1", 0) && GenerationIs(InitialNodes, "4", 0)
    ensures GenerationIs(InitialNodes, "2", -1) && GenerationIs(InitialNodes, "3", -1)
    ensures GenerationIs(InitialNodes, "5", 1) && GenerationIs(InitialNodes, "6", 1)
  {
    InitialFind(0);
    InitialFind(1);
    InitialFind(2);
    InitialFind(3);
    InitialFind(4);
    InitialFind(5);
  }

  /** The seeded links all join seeded people. */
  lemma InitialLinksResolve()
    ensures LinksResolve(Graph(InitialNodes, InitialLinks))
  {
    InitialIdsUnique();
  }

  /** Every seeded parent link spans exactly one generation. */
  lemma InitialGenerationsConsistent()
    ensures GenerationsConsistent(Graph(InitialNodes, InitialLinks))
  {
    InitialGenerations();
    SeededLinksConsistent(InitialNodes);
  }

  /** The seeded links are consistent over any node list that places the six ids in the seeded generations. */
  lemma SeededLinksConsistent(nodes: seq<Node>)
    requires GenerationIs(nodes, "1", 0) && GenerationIs(nodes, "4", 0)
    requires GenerationIs(nodes, "2", -1) && GenerationIs(nodes, "3", -1)
    requires GenerationIs(nodes, "5", 1) && GenerationIs(nodes, "6", 1)
    ensures GenerationsConsistent(Graph(nodes, InitialLinks))
  {
    forall l | l in InitialLinks
      ensures ParentLinkConsistent(nodes, l)
    {
      if l.kind == ParentOf {
        assert ((l.source == "2" || l.source == "3") && l.target == "1")
            || ((l.source == "1" || l.source == "4") && (l.target == "5" || l.target == "6"));
      }
    }
  }

  /** `nodes.find(n => n.id === '1') || INITIAL_NODES[0]`: the node the profile page edits. */
  function UserNode(nodes: seq<Node>): (r: Node)
    ensures r.id == SelfId
    ensures HasNode(nodes, SelfId) ==> r in nodes && r == FindNode(nodes, SelfId).value
    ensures !HasNode(nodes, SelfId) ==> r == InitialNodes[0]
  {
    match FindNode(nodes, SelfId)
    case Some(n) => n
    case None => InitialNodes[0]
  }
}

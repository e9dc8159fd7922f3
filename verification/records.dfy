/** The application's records, as the components use them.

    Ids are strings; dates are integer day keys (the `YYYY-MM-DD` strings the
    application parses with `new Date(...)`); optional fields that the code
    distinguishes from the empty string are `Option`s. */
module Records {
  import opened Prelude

  /** The three kinds of relationship link. */
  datatype LinkKind = ParentOf | SpouseOf | SiblingOf

  /** A person in the family graph. The layout's position and velocity fields are not part of it. */
  datatype Node = Node(
    id: string,
    name: string,
    relationLabel: Option<string>,
    bio: string,
    generation: int,
    group: Option<int>,
    imageUrl: Option<string>,
    age: Option<string>,
    gender: Option<string>,
    location: Option<string>,
    occupation: Option<string>,
    isCloseFamily: bool,
    familyIds: Option<seq<string>>)

  /** A link between two node ids; for `ParentOf` the source is the parent. */
  datatype Link = Link(source: string, target: string, kind: LinkKind)

  /** The relationship chosen in the add-member form, relative to the anchor node. */
  datatype Relationship = Parent | Child | Spouse | Sibling

  /** The add-member form. */
  datatype AddNodeForm = AddNodeForm(
    name: string,
    relationLabel: string,
    bio: string,
    relatedNodeId: string,
    relationship: Relationship,
    isCloseFamily: bool)

  datatype Privacy = Everyone | CloseFamily

  datatype Photo = Photo(
    id: string,
    url: string,
    description: string,
    date: int,
    taggedNodeIds: seq<string>,
    privacy: Privacy)

  datatype EventKind = Gathering | Birthday | Holiday

  datatype Event = Event(
    id: string,
    title: string,
    date: int,
    time: Option<string>,
    location: string,
    description: string,
    kind: EventKind,
    invitees: seq<string>)

  /** A named group of people. */
  datatype Family = Family(id: string, name: string)

  /** The signed-in user. */
  datatype User = User(name: string, email: string)

  /** `nodes.map(n => n.id)`. */
  function Ids(nodes: seq<Node>): (r: seq<string>)
    ensures |r| == |nodes|
    ensures forall i :: 0 <= i < |nodes| ==> r[i] == nodes[i].id
  {
    seq(|nodes|, i requires 0 <= i < |nodes| => nodes[i].id)
  }

  predicate HasNode(nodes: seq<Node>, id: string) {
    id in Ids(nodes)
  }

  /** `HasNode` means some node carries the id. */
  lemma HasNodeIff(nodes: seq<Node>, id: string)
    ensures HasNode(nodes, id) <==> exists n :: n in nodes && n.id == id
  {
    if HasNode(nodes, id) {
      var i :| 0 <= i < |nodes| && Ids(nodes)[i] == id;
      assert nodes[i] in nodes;
    }
  }

  lemma HasNodeOf(nodes: seq<Node>, n: Node)
    requires n in nodes
    ensures HasNode(nodes, n.id)
  {
    HasNodeIff(nodes, n.id);
  }

  function NodeId(n: Node): string {
    n.id
  }

  function EventId(e: Event): string {
    e.id
  }

  /** `xs.map(x => id(x) === id(y) ? y : x)`: replace every entry whose id matches. */
  function ReplaceById<T>(xs: seq<T>, id: T -> string, y: T): (r: seq<T>)
    ensures |r| == |xs|
    ensures forall i :: 0 <= i < |xs| && id(xs[i]) != id(y) ==> r[i] == xs[i]
    ensures forall i :: 0 <= i < |xs| && id(xs[i]) == id(y) ==> r[i] == y
  {
    seq(|xs|, i requires 0 <= i < |xs| => if id(xs[i]) == id(y) then y else xs[i])
  }

  /** Replacing keeps every position's id. */
  lemma ReplaceKeepsIds<T>(xs: seq<T>, id: T -> string, y: T)
    ensures forall i :: 0 <= i < |xs| ==> id(ReplaceById(xs, id, y)[i]) == id(xs[i])
  {
  }

  /** Replacing twice with the same entry is the same as replacing once. */
  lemma ReplaceIdempotent<T>(xs: seq<T>, id: T -> string, y: T)
    ensures ReplaceById(ReplaceById(xs, id, y), id, y) == ReplaceById(xs, id, y)
  {
  }

  /** `nodes.find(n => n.id === id)`: the first node with that id. */
  function FindNode(nodes: seq<Node>, id: string): (r: Option<Node>)
    ensures r.None? <==> !HasNode(nodes, id)
    ensures r.Some? ==> r.value in nodes && r.value.id == id
  {
    if nodes == [] then None
    else
      assert Ids(nodes) == [nodes[0].id] + Ids(nodes[1..]);
      if nodes[0].id == id then Some(nodes[0]) else FindNode(nodes[1..], id)
  }

  /** Each id names at most one node. */
  predicate UniqueIds(nodes: seq<Node>) {
    forall i, j :: 0 <= i < j < |nodes| ==> nodes[i].id != nodes[j].id
  }

  /** With unique ids, `FindNode` returns the node at any index carrying that id. */
  lemma {:induction false} FindUnique(nodes: seq<Node>, i: int)
    requires UniqueIds(nodes) && 0 <= i < |nodes|
    ensures FindNode(nodes, nodes[i].id) == Some(nodes[i])
  {
    if i > 0 {
      assert nodes[1..][i - 1] == nodes[i];
      FindUnique(nodes[1..], i - 1);
    }
  }

  /** Looking up an id in `a + b` looks in `a` first, then in `b`. */
  lemma {:induction false} FindConcat(a: seq<Node>, b: seq<Node>, id: string)
    ensures FindNode(a + b, id) == if HasNode(a, id) then FindNode(a, id) else FindNode(b, id)
    decreases |a|
  {
    if a == [] {
      assert a + b == b;
    } else {
      assert (a + b)[1..] == a[1..] + b;
      assert Ids(a) == [a[0].id] + Ids(a[1..]);
      FindConcat(a[1..], b, id);
    }
  }

  /** The nodes found for `ids`, in order, skipping ids that name no node. */
  function FoundNodes(ids: seq<string>, nodes: seq<Node>): (r: seq<Node>)
    ensures |r| <= |ids|
    ensures forall n :: n in r ==> n in nodes && n.id in ids
    ensures forall id :: id in ids && HasNode(nodes, id) ==> FindNode(nodes, id).value in r
  {
    if ids == [] then []
    else
      var rest := FoundNodes(ids[1..], nodes);
      assert forall id :: id in ids && id != ids[0] ==> id in ids[1..];
      match FindNode(nodes, ids[0])
      case Some(n) => [n] + rest
      case None => rest
  }

  /** Looking up `a + b` looks up `a`, then `b`: the found nodes keep the order of the ids. */
  lemma {:induction false} FoundNodesConcat(a: seq<string>, b: seq<string>, nodes: seq<Node>)
    ensures FoundNodes(a + b, nodes) == FoundNodes(a, nodes) + FoundNodes(b, nodes)
    decreases |a|
  {
    if a == [] {
      assert a + b == b;
    } else {
      assert (a + b)[1..] == a[1..] + b;
      FoundNodesConcat(a[1..], b, nodes);
    }
  }

  /** One id yields its node when some node carries it, and nothing otherwise. */
  lemma FoundNodesSingle(id: string, nodes: seq<Node>)
    ensures FoundNodes([id], nodes) == if HasNode(nodes, id) then [FindNode(nodes, id).value] else []
  {
    assert [id][1..] == [];
  }

  /** When every id names a node, exactly those nodes, in order. */
  lemma {:induction false} FoundNodesAllResolve(ids: seq<string>, nodes: seq<Node>)
    requires forall id :: id in ids ==> HasNode(nodes, id)
    ensures |FoundNodes(ids, nodes)| == |ids|
    ensures forall i :: 0 <= i < |ids| ==> FoundNodes(ids, nodes)[i].id == ids[i]
  {
    if ids != [] {
      assert ids[0] in ids;
      FoundNodesAllResolve(ids[1..], nodes);
    }
  }
}

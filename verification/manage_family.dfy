/** The family-group dialog: the member list loaded when it opens, the member
    picker, the name check on save, the confirmed delete and the search filter. */
module ManageFamily {
  import opened Prelude
  import opened Records
  import opened Selection
  import Text
  import GraphStore

  /** The dialog's own state: the name being typed, the chosen member ids and the search term. */
  datatype Modal = Modal(name: string, selected: seq<string>, search: string)

  /** What the dialog asks the application to store: `familyId` is `None` for a new family. */
  datatype SaveRequest = SaveRequest(familyId: Option<string>, name: string, memberIds: seq<string>)

  /** The node lists the family among its families. */
  predicate InFamily(n: Node, familyId: string) {
    n.familyIds.Some? && familyId in n.familyIds.value
  }

  /** The ids of the nodes in the family, in node order; a node without a
      family list belongs to no family. */
  function Members(nodes: seq<Node>, familyId: string): (r: seq<string>)
    ensures |r| <= |nodes|
    ensures forall x :: x in r <==> exists i :: 0 <= i < |nodes| && nodes[i].id == x && InFamily(nodes[i], familyId)
  {
    if nodes == [] then []
    else
      var rest := Members(nodes[1..], familyId);
      var r := (if InFamily(nodes[0], familyId) then [nodes[0].id] else []) + rest;
      assert forall i :: 0 <= i < |nodes| - 1 ==> nodes[1..][i] == nodes[i + 1];
      assert forall x :: (exists i :: 0 <= i < |nodes| && nodes[i].id == x && InFamily(nodes[i], familyId))
                     ==> x in r;
      r
  }

  /** The member lookup works node by node: the members of `a + b` are those of `a`, then those of `b`. */
  lemma {:induction false} MembersConcat(a: seq<Node>, b: seq<Node>, familyId: string)
    ensures Members(a + b, familyId) == Members(a, familyId) + Members(b, familyId)
    decreases |a|
  {
    if a == [] {
      assert a + b == b;
    } else {
      var ab, head := a + b, if InFamily(a[0], familyId) then [a[0].id] else [];
      assert ab[0] == a[0] && ab[1..] == a[1..] + b;
      assert Members(ab, familyId) == head + Members(ab[1..], familyId);
      assert Members(a, familyId) == head + Members(a[1..], familyId);
      MembersConcat(a[1..], b, familyId);
    }
  }

  /** A single node contributes its id exactly when it lists the family. */
  lemma MembersSingle(n: Node, familyId: string)
    ensures Members([n], familyId) == if InFamily(n, familyId) then [n.id] else []
  {
    assert [n][1..] == [];
  }

  /** The member list as the dialog computes it, calling `includes` on every
      node's family list: `None` stands for the exception raised when a node
      has no such list. */
  function MembersAsWritten(nodes: seq<Node>, familyId: string): (r: Option<seq<string>>)
    ensures r.None? <==> exists i :: 0 <= i < |nodes| && nodes[i].familyIds.None?
    ensures r.Some? ==> r.value == Members(nodes, familyId)
  {
    if nodes == [] then Some([])
    else if nodes[0].familyIds.None? then None
    else
      match MembersAsWritten(nodes[1..], familyId)
      case None => None
      case Some(rest) => Some((if familyId in nodes[0].familyIds.value then [nodes[0].id] else []) + rest)
  }

  /** The seeded people carry no family list, so opening an existing family throws. */
  lemma AsWrittenFailsOnSeededPeople(familyId: string)
    ensures MembersAsWritten(GraphStore.InitialNodes, familyId).None?
  {
    assert GraphStore.InitialNodes[0].familyIds.None?;
  }

  /** Neither does a relative added through the add-member form. */
  lemma AsWrittenFailsAfterAdd(g: GraphStore.Graph, data: AddNodeForm, newId: string, familyId: string)
    requires HasNode(g.nodes, data.relatedNodeId)
    ensures MembersAsWritten(GraphStore.AddRelative(g, data, newId).nodes, familyId).None?
  {
    var nodes := GraphStore.AddRelative(g, data, newId).nodes;
    assert nodes[|g.nodes|].familyIds.None?;
  }

  /** The corrected lookup agrees with the written one whenever the latter does not throw. */
  lemma MembersAgreeWhenListed(nodes: seq<Node>, familyId: string)
    requires forall i :: 0 <= i < |nodes| ==> nodes[i].familyIds.Some?
    ensures MembersAsWritten(nodes, familyId) == Some(Members(nodes, familyId))
  {
  }

  /** The opening effect: load the family's name and members, or start empty; clear the search. */
  function OpenEffect(m: Modal, isOpen: bool, family: Option<Family>, nodes: seq<Node>): (r: Modal)
    ensures !isOpen ==> r == m
    ensures isOpen ==> r.search == ""
    ensures isOpen && family.None? ==> r.name == "" && r.selected == []
    ensures isOpen && family.Some? ==> r.name == family.value.name
    ensures isOpen && family.Some? ==>
              forall x :: x in r.selected <==> exists i :: 0 <= i < |nodes| && nodes[i].id == x && InFamily(nodes[i], family.value.id)
    ensures isOpen && family.Some? ==> r.selected == Members(nodes, family.value.id)
  {
    if !isOpen then m
    else
      match family
      case Some(f) => Modal(f.name, Members(nodes, f.id), "")
      case None => Modal("", [], "")
  }

  /** `handleToggleMember`. */
  function ToggleMember(m: Modal, id: string): (r: Modal)
    ensures id in r.selected <==> id !in m.selected
    ensures r.selected == Toggle(m.selected, id)
    ensures forall y :: y != id ==> (y in r.selected <==> y in m.selected)
    ensures r.(selected := m.selected) == m
  {
    var r := m.(selected := Toggle(m.selected, id));
    forall y | y != id
      ensures y in r.selected <==> y in m.selected
    {
      ToggleOthers(m.selected, id, y);
    }
    r
  }

  /** The "All" button: select every node. */
  function SelectAll(m: Modal, nodes: seq<Node>): (r: Modal)
    ensures forall id :: id in r.selected <==> HasNode(nodes, id)
    ensures |r.selected| == |nodes|
    ensures forall i :: 0 <= i < |nodes| ==> r.selected[i] == nodes[i].id
    ensures r.(selected := m.selected) == m
  {
    m.(selected := Ids(nodes))
  }

  /** The "None" button: select nobody. */
  function SelectNone(m: Modal): (r: Modal)
    ensures forall id :: id !in r.selected
    ensures r.(selected := m.selected) == m
  {
    m.(selected := [])
  }

  /** With distinct node ids, "All" selects nobody twice. */
  lemma SelectAllDistinct(m: Modal, nodes: seq<Node>)
    requires UniqueIds(nodes)
    ensures NoDup(SelectAll(m, nodes).selected)
  {
    var r := SelectAll(m, nodes);
    assert forall i, j :: 0 <= i < j < |r.selected| ==> r.selected[i] == nodes[i].id && r.selected[j] == nodes[j].id;
  }

  /** "None" undoes "All", and after "None" a click on a member selects exactly that member. */
  lemma SelectNoneUndoesAll(m: Modal, nodes: seq<Node>, id: string)
    ensures SelectNone(SelectAll(m, nodes)) == SelectNone(m)
    ensures ToggleMember(SelectNone(m), id).selected == [id]
  {
    assert id !in SelectNone(m).selected;
  }

  /** The save button is disabled while the trimmed name is empty. */
  predicate SaveDisabled(m: Modal) {
    Text.Trim(m.name) == ""
  }

  /** `handleSave`: store the trimmed name and the chosen members (and close), unless the name is blank. */
  function Save(m: Modal, family: Option<Family>): (r: Option<SaveRequest>)
    ensures r.None? <==> Text.AllWhitespace(m.name)
    ensures r.Some? ==> r.value.name != "" && !Text.IsWhitespace(r.value.name[0])
                        && !Text.IsWhitespace(r.value.name[|r.value.name| - 1])
    ensures r.Some? ==> r.value.name == Text.Trim(m.name) && r.value.memberIds == m.selected
    ensures r.Some? ==> (r.value.familyId.Some? <==> family.Some?)
    ensures r.Some? && family.Some? ==> r.value.familyId == Some(family.value.id)
  {
    var name := Text.Trim(m.name);
    if name == "" then None
    else Some(SaveRequest(if family.Some? then Some(family.value.id) else None, name, m.selected))
  }

  /** A disabled button and a refused save coincide. */
  lemma SaveDisabledIffRefused(m: Modal, family: Option<Family>)
    ensures SaveDisabled(m) <==> Save(m, family).None?
  {
  }

  /** Re-opening a saved family and saving again keeps the stored name. */
  lemma SavedNameIsStable(m: Modal, f: Family)
    requires Save(m, Some(f)).Some?
    ensures var name := Save(m, Some(f)).value.name;
            Save(m.(name := name), Some(f)).value.name == name
  {
    Text.TrimIdempotent(m.name);
  }

  /** `handleDelete`: the family id to delete, only for an existing family and a confirmed prompt. */
  function Delete(family: Option<Family>, confirmed: bool): (r: Option<string>)
    ensures r.Some? <==> family.Some? && confirmed
    ensures r.Some? ==> r.value == family.value.id
  {
    if family.Some? && confirmed then Some(family.value.id) else None
  }

  /** The save and the delete of an open family name the same family, and a new family is never deleted. */
  lemma SaveAndDeleteTargetSameFamily(m: Modal, family: Option<Family>)
    requires !SaveDisabled(m)
    ensures Save(m, family).value.familyId == Delete(family, true)
    ensures family.None? ==> Delete(family, true).None?
  {
  }

  /** The search: the name, or a non-empty relation label, contains the term, ignoring ASCII case. */
  predicate Matches(n: Node, term: string) {
    Text.Includes(Text.Lower(n.name), Text.Lower(term))
    || (TruthyOpt(n.relationLabel) && Text.Includes(Text.Lower(n.relationLabel.value), Text.Lower(term)))
  }

  /** `filteredNodes`. */
  function FilterNodes(nodes: seq<Node>, term: string): (r: seq<Node>)
    ensures forall n :: n in r <==> n in nodes && Matches(n, term)
    ensures |r| <= |nodes|
  {
    if nodes == [] then []
    else
      assert nodes == [nodes[0]] + nodes[1..];
      (if Matches(nodes[0], term) then [nodes[0]] else []) + FilterNodes(nodes[1..], term)
  }

  /** The search keeps the node order: filtering `a + b` filters `a`, then `b`. */
  lemma {:induction false} FilterNodesConcat(a: seq<Node>, b: seq<Node>, term: string)
    ensures FilterNodes(a + b, term) == FilterNodes(a, term) + FilterNodes(b, term)
    decreases |a|
  {
    if a == [] {
      assert a + b == b;
    } else {
      assert (a + b)[1..] == a[1..] + b;
      FilterNodesConcat(a[1..], b, term);
    }
  }

  /** A single node is listed exactly when it matches. */
  lemma FilterNodesSingle(n: Node, term: string)
    ensures FilterNodes([n], term) == if Matches(n, term) then [n] else []
  {
    assert [n][1..] == [];
  }

  /** An empty search lists every node, in order. */
  lemma {:induction false} EmptySearchKeepsAll(nodes: seq<Node>)
    ensures FilterNodes(nodes, "") == nodes
  {
    if nodes != [] {
      Text.IncludesEmpty(Text.Lower(nodes[0].name));
      EmptySearchKeepsAll(nodes[1..]);
    }
  }

  /** The search ignores the case of the term. */
  lemma {:induction false} SearchIgnoresTermCase(nodes: seq<Node>, term: string)
    ensures FilterNodes(nodes, Text.Lower(term)) == FilterNodes(nodes, term)
  {
    Text.LowerIdempotent(term);
    if nodes != [] {
      SearchIgnoresTermCase(nodes[1..], term);
    }
  }

  /** Typing more of a term never brings a node back: a node matching the longer term matches any prefix of it. */
  lemma NarrowingSearch(n: Node, term: string, more: string)
    requires Matches(n, term + more)
    ensures Matches(n, term)
  {
    var t, t2 := Text.Lower(term), Text.Lower(term + more);
    assert t2[..|t|] == t;
    var s := if Text.Includes(Text.Lower(n.name), t2) then Text.Lower(n.name) else Text.Lower(n.relationLabel.value);
    var i := Text.FoundIsOccurrence(s, t2);
    assert s[i..i + |t|] == t2[..|t|];
    Text.OccurrenceIsFound(s, t, i);
  }
}

/** The nodes that `walk` reads back: one per directory, root first (src/store.rs). */
module Nodes {
  import opened Text

  datatype Status = Pending | Running | Split | Suspended | Complete | Failed

  /** `depFp` holds the fingerprint each dependency had when this node was accepted. */
  datatype Node = Node(
    id: string,
    parent: Option<string>,
    depth: nat,
    status: Status,
    dependsOn: seq<string>,
    depFp: map<string, string>)

  ghost predicate UniqueIds(nodes: seq<Node>) {
    forall i, j | 0 <= i < j < |nodes| :: nodes[i].id != nodes[j].id
  }

  /** The node with a given id; in a duplicate-free walk there is at most one. */
  function Find(nodes: seq<Node>, id: string): (r: Option<Node>)
    ensures r.Some? ==> r.value in nodes && r.value.id == id
    ensures r.None? ==> forall n | n in nodes :: n.id != id
  {
    if nodes == [] then None
    else
      var last := nodes[|nodes| - 1];
      if last.id == id then Some(last) else Find(nodes[..|nodes| - 1], id)
  }

  lemma {:induction false} FindMember(nodes: seq<Node>, n: Node)
    requires UniqueIds(nodes) && n in nodes
    ensures Find(nodes, n.id) == Some(n)
  {
    var m := Find(nodes, n.id).value;
    var i, j :| 0 <= i < |nodes| && 0 <= j < |nodes| && nodes[i] == n && nodes[j] == m;
    assert i == j;
  }

  function Filter(nodes: seq<Node>, p: Node -> bool): (r: seq<Node>)
    ensures forall n :: n in r <==> n in nodes && p(n)
  {
    if nodes == [] then []
    else
      var last := nodes[|nodes| - 1];
      assert nodes == nodes[..|nodes| - 1] + [last];
      Filter(nodes[..|nodes| - 1], p) + if p(last) then [last] else []
  }

  lemma {:induction false} FilterNone(nodes: seq<Node>, p: Node -> bool)
    requires forall n | n in nodes :: !p(n)
    ensures Filter(nodes, p) == []
  {
    if nodes != [] { FilterNone(nodes[..|nodes| - 1], p); }
  }

  predicate IsChild(n: Node, parent: string) {
    n.parent == Some(parent)
  }

  function Children(nodes: seq<Node>, parent: string): seq<Node> {
    Filter(nodes, (n: Node) => IsChild(n, parent))
  }

  /** The nodes with the given ids put into a status (`set_status`), the others as they were. */
  function Marked(nodes: seq<Node>, ids: set<string>, s: Status): (r: seq<Node>)
    ensures |r| == |nodes|
    ensures forall i | 0 <= i < |nodes| :: r[i] == if nodes[i].id in ids then nodes[i].(status := s) else nodes[i]
  {
    seq(|nodes|, i requires 0 <= i < |nodes| => if nodes[i].id in ids then nodes[i].(status := s) else nodes[i])
  }

  lemma {:induction false} MarkedFind(nodes: seq<Node>, ids: set<string>, s: Status, id: string)
    ensures Find(Marked(nodes, ids, s), id) ==
      if Find(nodes, id) == None then None
      else if id in ids then Some(Find(nodes, id).value.(status := s)) else Find(nodes, id)
  {
    var r := Marked(nodes, ids, s);
    if nodes != [] {
      assert r[..|r| - 1] == Marked(nodes[..|nodes| - 1], ids, s);
      MarkedFind(nodes[..|nodes| - 1], ids, s, id);
    }
  }
}

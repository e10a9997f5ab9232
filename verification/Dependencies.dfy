/** A dependency that is added to a node of the running tree: by the `depends_on` ruling of an escalation
    (src/scheduler.rs) or by hand (src/butler.rs), through `add_depends_on` (src/store.rs). Neither looks
    at the graph. */
module Dependencies {
  import opened Text
  import opened Nodes
  import opened Graph
  import opened Selection
  import opened Runs
  import opened Splits
  import Escalation

  /** The list that is written back: a blank name or one that is there already changes nothing. */
  function Extra(deps: seq<string>, dep: string): seq<string> {
    if Trim(dep) == "" || Trim(dep) in deps then deps else deps + [Trim(dep)]
  }

  function AddDependency(nodes: seq<Node>, n: Node, dep: string): (r: seq<Node>)
    ensures |r| == |nodes|
    ensures forall i | 0 <= i < |nodes| ::
      r[i] == if nodes[i].id == n.id then nodes[i].(dependsOn := Extra(n.dependsOn, dep)) else nodes[i]
  {
    seq(|nodes|, i requires 0 <= i < |nodes| =>
      if nodes[i].id == n.id then nodes[i].(dependsOn := Extra(n.dependsOn, dep)) else nodes[i])
  }

  class Store {
    var nodes: seq<Node>

    /** `add_depends_on`; `n` is the node as the caller read it. */
    method AddDependsOn(n: Node, dep: string) returns (added: bool)
      requires n in nodes && UniqueIds(nodes)
      modifies this
      ensures added <==> Trim(dep) != "" && Trim(dep) !in n.dependsOn
      ensures nodes == AddDependency(old(nodes), n, dep)
    {
      var name := Trim(dep);
      if name == "" || exists k | 0 <= k < |n.dependsOn| :: n.dependsOn[k] == name {
        Unchanged(nodes, n, dep);
        return false;
      }
      var rows, deps := nodes, n.dependsOn + [name];
      nodes := seq(|rows|, i requires 0 <= i < |rows| =>
        if rows[i].id == n.id then rows[i].(dependsOn := deps) else rows[i]);
      added := true;
    }
  }

  lemma {:induction false} Unchanged(nodes: seq<Node>, n: Node, dep: string)
    requires n in nodes && UniqueIds(nodes) && Extra(n.dependsOn, dep) == n.dependsOn
    ensures AddDependency(nodes, n, dep) == nodes
  {
    forall i | 0 <= i < |nodes| && nodes[i].id == n.id ensures nodes[i] == n {
      FindMember(nodes, n);
      FindMember(nodes, nodes[i]);
    }
  }

  // ---- Which edge closes a cycle ----

  /** There is a path, possibly of no edge, from `a` to `b`. */
  ghost predicate Reaches(g: Digraph, a: string, b: string) {
    exists p :: IsPath(g, p) && p[0] == a && p[|p| - 1] == b
  }

  /** `h` is `g` with one more edge, from `a` to `b`. */
  ghost predicate OneMoreEdge(g: Digraph, h: Digraph, a: string, b: string) {
    && g.Keys == h.Keys && a in g && b in g && b in h[a]
    && (forall d :: d in h[a] ==> d in g[a] || d == b)
    && (forall d :: d in g[a] ==> d in h[a])
    && forall k | k in g && k != a :: h[k] == g[k]
  }

  /** The part of a path up to its first visit to `a` uses no edge out of `a`. */
  lemma {:induction false} UpToFirst(g: Digraph, h: Digraph, a: string, b: string, p: seq<string>)
    requires OneMoreEdge(g, h, a, b) && IsPath(h, p) && p[|p| - 1] == a
    ensures Reaches(g, p[0], a)
    decreases |p|
  {
    if p[0] == a {
      assert IsPath(g, [a]);
    } else {
      assert Hop(h, p, 0);
      PathSlice(h, p, 1, |p|);
      assert p[1..|p|] == p[1..];
      UpToFirst(g, h, a, b, p[1..]);
      var q :| IsPath(g, q) && q[0] == p[1] && q[|q| - 1] == a;
      var r := [p[0]] + q;
      forall i | 0 <= i < |r| - 1 ensures Hop(g, r, i) {
        if i > 0 { assert Hop(g, q, i - 1); }
      }
      assert IsPath(g, r);
    }
  }

  /** A cycle of `h` that `g` does not have runs through the new edge. */
  lemma {:induction false} CycleUsesEdge(g: Digraph, h: Digraph, a: string, b: string, c: seq<string>)
    requires OneMoreEdge(g, h, a, b) && IsCycle(h, c) && !Cyclic(g)
    ensures Reaches(g, b, a)
  {
    if forall i | 0 <= i < |c| - 1 :: Hop(g, c, i) {
      assert IsCycle(g, c);
    } else {
      var i :| 0 <= i < |c| - 1 && !Hop(g, c, i);
      assert Hop(h, c, i);
      assert c[i] == a && c[i + 1] == b;
      var p := c[i + 1..] + c[1..i + 1];
      forall k | 0 <= k < |p| - 1 ensures Hop(h, p, k) {
        var at := if i + 1 + k < |c| - 1 then i + 1 + k else i + 2 + k - |c|;
        assert Hop(h, c, at);
      }
      assert p[|p| - 1] == a;
      UpToFirst(g, h, a, b, p);
    }
  }

  /** Adding an edge to an acyclic graph closes a cycle exactly when its target reaches its origin. */
  lemma {:induction false} EdgeClosesCycle(g: Digraph, h: Digraph, a: string, b: string)
    requires OneMoreEdge(g, h, a, b) && !Cyclic(g)
    ensures Cyclic(h) <==> Reaches(g, b, a)
  {
    if c :| IsCycle(h, c) { CycleUsesEdge(g, h, a, b, c); }
    if p :| IsPath(g, p) && p[0] == b && p[|p| - 1] == a {
      var c := [a] + p;
      forall i | 0 <= i < |c| - 1 ensures Hop(h, c, i) {
        if i > 0 { assert Hop(g, p, i - 1); }
      }
      assert IsCycle(h, c);
    }
  }

  // ---- What the tree is afterwards ----

  lemma {:induction false} SameRows(nodes: seq<Node>, r: seq<Node>, n: Node, dep: string)
    requires UniqueIds(nodes) && n in nodes && r == AddDependency(nodes, n, dep)
    ensures forall i | 0 <= i < |nodes| ::
      && r[i].id == nodes[i].id && r[i].parent == nodes[i].parent && r[i].depth == nodes[i].depth
      && r[i].status == nodes[i].status && r[i].depFp == nodes[i].depFp
      && r[i].dependsOn == if nodes[i] == n then Extra(n.dependsOn, dep) else nodes[i].dependsOn
  {
    forall i | 0 <= i < |nodes| && nodes[i].id == n.id ensures nodes[i] == n {
      FindMember(nodes, n);
      FindMember(nodes, nodes[i]);
    }
  }

  /** Rows with the same places in the tree and the same statuses. */
  ghost predicate SamePlaces(nodes: seq<Node>, r: seq<Node>) {
    |r| == |nodes| && forall i | 0 <= i < |nodes| ::
      r[i].id == nodes[i].id && r[i].parent == nodes[i].parent && r[i].depth == nodes[i].depth
      && r[i].status == nodes[i].status
  }

  lemma {:induction false} PlacesTree(nodes: seq<Node>, r: seq<Node>)
    requires SamePlaces(nodes, r) && Tree(nodes)
    ensures Tree(r)
  {
    forall i | 0 < i < |r| ensures ParentInTree(r, r[i]) {
      assert ParentInTree(nodes, nodes[i]);
      var p :| p in nodes && p.id == nodes[i].parent.value && nodes[i].depth == p.depth + 1;
      var j :| 0 <= j < |nodes| && nodes[j] == p;
      assert r[j] in r;
    }
  }

  lemma {:induction false} PlacesChild(nodes: seq<Node>, r: seq<Node>, c: Node) returns (c': Node)
    requires SamePlaces(nodes, r) && c in nodes
    ensures c' in r && c'.id == c.id && c'.parent == c.parent && c'.status == c.status
  {
    var i :| 0 <= i < |nodes| && nodes[i] == c;
    c' := r[i];
  }

  lemma {:induction false} PlacesBack(nodes: seq<Node>, r: seq<Node>)
    requires SamePlaces(nodes, r)
    ensures SamePlaces(r, nodes)
  {
  }

  lemma {:induction false} PlacesNumbered(nodes: seq<Node>, r: seq<Node>)
    requires SamePlaces(nodes, r) && Numbered(nodes)
    ensures Numbered(r)
  {
    hide SamePlaces, ChildIds;
    assert r != [] && r[0].id == nodes[0].id by { PlacesHead(nodes, r); }
    PlacesBack(nodes, r);
    forall n' | n' in r ensures KidsNumbered(r, n'.id) {
      var n := PlacesChild(r, nodes, n');
      assert KidsNumbered(nodes, n.id);
      var e :| NumberedKids(nodes, n.id, e);
      forall c' | c' in r && IsChild(c', n.id) ensures c'.id in ChildIds(n.id, 0, e) {
        var c := PlacesChild(r, nodes, c');
        assert IsChild(c, n.id);
      }
      forall id | id in ChildIds(n.id, 0, e) ensures HasChildCalled(r, n.id, id) {
        assert HasChildCalled(nodes, n.id, id);
        var c :| c in nodes && IsChild(c, n.id) && c.id == id;
        var c' := PlacesChild(nodes, r, c);
      }
      assert NumberedKids(r, n.id, e);
    }
  }

  lemma {:induction false} PlacesHead(nodes: seq<Node>, r: seq<Node>)
    requires SamePlaces(nodes, r) && nodes != []
    ensures r != [] && r[0].id == nodes[0].id
  {
  }

  lemma {:induction false} PlacesSplit(nodes: seq<Node>, r: seq<Node>)
    requires SamePlaces(nodes, r) && forall n | n in nodes && n.status == Split :: HasChild(nodes, n.id)
    ensures forall n | n in r && n.status == Split :: HasChild(r, n.id)
  {
    hide SamePlaces;
    PlacesBack(nodes, r);
    forall n' | n' in r && n'.status == Split ensures HasChild(r, n'.id) {
      var n := PlacesChild(r, nodes, n');
      var c :| c in nodes && IsChild(c, n.id);
      var c' := PlacesChild(nodes, r, c);
      assert IsChild(c', n'.id);
    }
  }

  lemma {:induction false} PlacesSibling(nodes: seq<Node>, r: seq<Node>, n: Node, n': Node, d: string)
    requires SamePlaces(nodes, r) && n.parent == n'.parent
    ensures NamesSibling(nodes, n, d) <==> NamesSibling(r, n', d)
  {
    hide SamePlaces;
    PlacesBack(nodes, r);
    if m :| m in nodes && m.id == d && m.parent == n.parent { var m' := PlacesChild(nodes, r, m); }
    if m :| m in r && m.id == d && m.parent == n'.parent { var m' := PlacesChild(r, nodes, m); }
  }

  lemma {:induction false} RowsAfter(nodes: seq<Node>, r: seq<Node>, n: Node, dep: string, i: nat)
    requires UniqueIds(nodes) && n in nodes && r == AddDependency(nodes, n, dep) && i < |nodes|
    ensures r[i].parent == nodes[i].parent && nodes[i] in nodes && r[i] in r
    ensures r[i].dependsOn == if nodes[i] == n then Extra(n.dependsOn, dep) else nodes[i].dependsOn
  {
    SameRows(nodes, r, n, dep);
  }

  /** The siblings' rule holds afterwards exactly when the new name is a sibling's. */
  lemma {:induction false} SiblingsAfter(nodes: seq<Node>, r: seq<Node>, n: Node, dep: string)
    requires UniqueIds(nodes) && n in nodes && r == AddDependency(nodes, n, dep) && SiblingDependencies(nodes)
    requires SamePlaces(nodes, r) && Extra(n.dependsOn, dep) == n.dependsOn + [Trim(dep)]
    ensures SiblingDependencies(r) <==> NamesSibling(nodes, n, Trim(dep))
  {
    hide NamesSibling, AddDependency, UniqueIds, SamePlaces, Extra, Trim;
    var i: nat :| i < |nodes| && nodes[i] == n;
    RowsAfter(nodes, r, n, dep, i);
    assert Trim(dep) in r[i].dependsOn;
    PlacesSibling(nodes, r, n, r[i], Trim(dep));
    if NamesSibling(nodes, n, Trim(dep)) {
      forall x', d | x' in r && d in x'.dependsOn ensures NamesSibling(r, x', d) {
        var j: nat :| j < |r| && r[j] == x';
        RowsAfter(nodes, r, n, dep, j);
        PlacesSibling(nodes, r, nodes[j], x', d);
      }
    }
  }

  lemma {:induction false} EntryAt(nodes: seq<Node>, i: nat)
    requires UniqueIds(nodes) && i < |nodes|
    ensures nodes[i].id in DepGraph(nodes) && DepGraph(nodes)[nodes[i].id] == nodes[i].dependsOn
  {
    FindMember(nodes, nodes[i]);
  }

  lemma {:induction false} KeyHasRow(nodes: seq<Node>, k: string) returns (i: nat)
    requires k in DepGraph(nodes)
    ensures i < |nodes| && nodes[i].id == k
  {
    var x :| x in nodes && x.id == k;
    i :| i < |nodes| && nodes[i] == x;
  }

  lemma {:induction false} GraphRow(nodes: seq<Node>, r: seq<Node>, n: Node, dep: string, k: string)
    requires UniqueIds(nodes) && UniqueIds(r) && n in nodes && r == AddDependency(nodes, n, dep)
    requires k in DepGraph(nodes)
    ensures k in DepGraph(r)
    ensures DepGraph(r)[k] == if k == n.id then Extra(n.dependsOn, dep) else DepGraph(nodes)[k]
  {
    hide DepGraph;
    var i := KeyHasRow(nodes, k);
    EntryAt(nodes, i);
    EntryAt(r, i);
  }

  lemma {:induction false} GraphKeys(nodes: seq<Node>, r: seq<Node>, n: Node, dep: string)
    requires UniqueIds(nodes) && UniqueIds(r) && n in nodes && r == AddDependency(nodes, n, dep)
    ensures DepGraph(nodes).Keys == DepGraph(r).Keys
  {
    hide DepGraph;
    forall k | k in DepGraph(nodes) ensures k in DepGraph(r) { GraphRow(nodes, r, n, dep, k); }
    forall k | k in DepGraph(r) ensures k in DepGraph(nodes) {
      var i := KeyHasRow(r, k);
      EntryAt(nodes, i);
    }
  }

  lemma {:induction false} GraphAfter(nodes: seq<Node>, r: seq<Node>, n: Node, dep: string)
    requires UniqueIds(nodes) && n in nodes && r == AddDependency(nodes, n, dep) && Trim(dep) in Ids(nodes)
    requires Extra(n.dependsOn, dep) == n.dependsOn + [Trim(dep)]
    ensures OneMoreEdge(DepGraph(nodes), DepGraph(r), n.id, Trim(dep))
  {
    hide DepGraph, AddDependency, Extra, UniqueIds, Find, Ids;
    var g, h := DepGraph(nodes), DepGraph(r);
    NodeEntry(nodes, n, Trim(dep));
    UniqueAfter(nodes, r, n, dep);
    GraphKeys(nodes, r, n, dep);
    forall k | k in g ensures h[k] == if k == n.id then n.dependsOn + [Trim(dep)] else g[k] {
      GraphRow(nodes, r, n, dep, k);
    }
  }

  lemma {:induction false} NodeEntry(nodes: seq<Node>, n: Node, d: string)
    requires UniqueIds(nodes) && n in nodes && d in Ids(nodes)
    ensures d in DepGraph(nodes) && n.id in DepGraph(nodes) && DepGraph(nodes)[n.id] == n.dependsOn
  {
    FindMember(nodes, n);
  }

  lemma {:induction false} UniqueAfter(nodes: seq<Node>, r: seq<Node>, n: Node, dep: string)
    requires UniqueIds(nodes) && r == AddDependency(nodes, n, dep)
    ensures UniqueIds(r)
  {
  }

  /** Main result: an added dependency keeps the invariant of runs exactly when it adds nothing, or names a
      sibling that does not depend, directly or through others, on the node; the node itself included. */
  lemma {:induction false} DependencyKeepsInvariant(nodes: seq<Node>, n: Node, dep: string)
    requires Invariant(nodes) && n in nodes
    ensures Invariant(AddDependency(nodes, n, dep)) <==>
      || Trim(dep) == "" || Trim(dep) in n.dependsOn
      || (NamesSibling(nodes, n, Trim(dep)) && !Reaches(DepGraph(nodes), Trim(dep), n.id))
  {
    var r := AddDependency(nodes, n, dep);
    if Trim(dep) == "" || Trim(dep) in n.dependsOn {
      Unchanged(nodes, n, dep);
    } else {
      SameRows(nodes, r, n, dep);
      assert Extra(n.dependsOn, dep)[|n.dependsOn|] == Trim(dep);
      hide AddDependency, DepGraph, Cyclic, Numbered, Tree, SiblingDependencies, NamesSibling, Reaches;
      InvariantAfter(nodes, r);
      SiblingsAfter(nodes, r, n, dep);
      if NamesSibling(nodes, n, Trim(dep)) {
        SiblingIsNode(nodes, n, Trim(dep));
        GraphAfter(nodes, r, n, dep);
        EdgeClosesCycle(DepGraph(nodes), DepGraph(r), n.id, Trim(dep));
      }
    }
  }

  lemma {:induction false} SiblingIsNode(nodes: seq<Node>, n: Node, d: string)
    requires NamesSibling(nodes, n, d)
    ensures d in Ids(nodes)
  {
  }

  lemma {:induction false} InvariantAfter(nodes: seq<Node>, r: seq<Node>)
    requires Invariant(nodes) && SamePlaces(nodes, r)
    ensures Invariant(r) <==> SiblingDependencies(r) && !Cyclic(DepGraph(r))
  {
    hide SamePlaces, DepGraph, Cyclic, SiblingDependencies;
    PlacesTree(nodes, r);
    PlacesNumbered(nodes, r);
    PlacesSplit(nodes, r);
  }

  // ---- The ruling ----

  /** The tree after a `depends_on` ruling that was resolved to the child `dep` of the owner. */
  ghost function Depending(nodes: seq<Node>, n: Node, owner: string, dep: string): seq<Node>
    requires Tree(nodes) && n.parent.Some?
  {
    AddDependency(Escalation.Settled(nodes, n, owner, Escalation.DependsOn), n, dep)
  }

  lemma {:induction false} IdIsTrimmed(nodes: seq<Node>, m: Node)
    requires Invariant(nodes) && m in nodes && m.parent.Some?
    ensures Trim(m.id) == m.id && m.id != ""
  {
    GeneratedIdsArePlain(nodes, m);
    NoWhiteIsTrimmed(m.id);
    var i :| 0 <= i < |nodes| && nodes[i] == m;
    assert m.id == "" ==> m.id != ROOT;
    if m.id == "" {
      var p, k := IsGenerated(nodes, m);
      ChildIdShape(p.id, k);
    }
  }

  lemma {:induction false} PendingAgain(nodes: seq<Node>, n: Node, r: seq<Node>)
    requires Invariant(nodes) && n in nodes && r == Marked(nodes, {n.id}, Pending)
    ensures Invariant(r) && DepGraph(r) == DepGraph(nodes) && n.(status := Pending) in r
    ensures forall d :: NamesSibling(r, n.(status := Pending), d) <==> NamesSibling(nodes, n, d)
  {
    MarkKeepsInvariant(nodes, {n.id}, Pending);
    RestatedIsAlike(nodes, r);
    AlikeGraph(nodes, r);
    var i :| 0 <= i < |nodes| && nodes[i] == n;
    assert r[i] in r;
    forall d ensures NamesSibling(r, n.(status := Pending), d) <==> NamesSibling(nodes, n, d) {
      SiblingsAlike(nodes, r, n, d);
    }
  }

  lemma {:induction false} SiblingsAlike(nodes: seq<Node>, r: seq<Node>, n: Node, d: string)
    requires Restated(nodes, r)
    ensures NamesSibling(r, n.(status := Pending), d) <==> NamesSibling(nodes, n, d)
  {
    if m :| m in nodes && m.id == d && m.parent == n.parent { var m' := RestatedMember(nodes, r, m); }
    if m :| m in r && m.id == d && m.parent == n.parent {
      var i :| 0 <= i < |r| && r[i] == m;
      assert nodes[i] in nodes;
    }
  }

  /** The ruling keeps the invariant of runs exactly when the node has that dependency already, or the owner is
      its parent and the dependency does not itself wait for the node. With an owner further up what the tag is
      resolved to is no sibling of the node. */
  lemma {:induction false} RulingKeepsInvariant(nodes: seq<Node>, n: Node, owner: string, m: Node)
    requires Invariant(nodes) && Escalation.Escalating(nodes, n, owner) && m in nodes && IsChild(m, owner)
    ensures n.parent.Some?
    ensures Invariant(Depending(nodes, n, owner, m.id)) <==>
      m.id in n.dependsOn || (n.parent == Some(owner) && !Reaches(DepGraph(nodes), m.id, n.id))
  {
    Escalation.SettledRow(nodes, n, owner);
    Escalation.RulingLeavesNoTrace(nodes, n, owner, Escalation.DependsOn);
    var r, n' := Marked(nodes, {n.id}, Pending), n.(status := Pending);
    PendingAgain(nodes, n, r);
    IdIsTrimmed(nodes, m);
    DependencyKeepsInvariant(r, n', m.id);
    SiblingIff(nodes, n, m);
    hide Invariant, Escalation.Escalating, Escalation.Settled, DepGraph, NamesSibling, Reaches;
    assert AddDependency(r, n', m.id) == AddDependency(r, n, m.id);
  }

  lemma {:induction false} SiblingIff(nodes: seq<Node>, n: Node, m: Node)
    requires UniqueIds(nodes) && m in nodes
    ensures NamesSibling(nodes, n, m.id) <==> m.parent == n.parent
  {
    if k :| k in nodes && k.id == m.id && k.parent == n.parent {
      FindMember(nodes, k);
      FindMember(nodes, m);
    }
  }

  // ---- Waiting in a circle ----

  /** The node waits for one of `s`: as a dependency, or as a child. */
  ghost predicate Waits(nodes: seq<Node>, n: Node, s: set<string>) {
    || (n.status == Pending && exists d :: d in n.dependsOn && d in s)
    || (n.status == Split && exists c :: c in nodes && IsChild(c, n.id) && c.id in s)
  }

  /** Each of `s` is a node that waits for one of `s`. */
  ghost predicate Blocked(nodes: seq<Node>, s: set<string>) {
    && (forall x | x in s :: exists n :: n in nodes && n.id == x)
    && forall n | n in nodes && n.id in s :: Waits(nodes, n, s)
  }

  /** None of them is selected, whatever is stale among the complete. */
  lemma {:induction false} BlockedIsUnselected(nodes: seq<Node>, stale: set<string>, s: set<string>, n: Node)
    requires Blocked(nodes, s) && n in nodes && n.id in s && Escalation.StaleAreComplete(nodes, stale)
    ensures n !in NextNodes(nodes, stale) && n.status in {Pending, Split}
  {
    SelectedMeans(nodes, stale, n);
    if n.status == Pending {
      var d :| d in n.dependsOn && d in s;
      var k :| 0 <= k < |n.dependsOn| && n.dependsOn[k] == d;
      var dep := Find(nodes, n.dependsOn[k]);
      assert dep.Some? ==> Waits(nodes, dep.value, s);
    } else {
      var c :| c in nodes && IsChild(c, n.id) && c.id in s;
      assert c in Children(nodes, n.id) && Waits(nodes, c, s);
    }
  }

  /** A step that leaves the rows of `s` alone: whatever else finishes, splits, turns, is retried or deleted. */
  ghost predicate Leaves(nodes: seq<Node>, step: Step, s: set<string>) {
    match step
    case Finish(_, _) => true
    case Grow(id, cs, existing, left) =>
      id !in s && id in Ids(nodes) && forall k | k in Kids(Find(nodes, id).value, cs, existing, left) :: k.id !in s
    case Reopen(id, again) => id !in s && again !! s
    case Retry(again) => again !! s
    case Replan(id) => id !in s && BelowIds(nodes, id) !! s
    case Turn(id, _) => id !in s
  }

  lemma {:induction false} KeptRowsStayBlocked(nodes: seq<Node>, r: seq<Node>, s: set<string>)
    requires Blocked(nodes, s)
    requires (forall n | n in nodes && n.id in s :: n in r) && forall n | n in r && n.id in s :: n in nodes
    ensures Blocked(r, s)
  {
    forall x | x in s ensures exists n :: n in r && n.id == x {
      var n :| n in nodes && n.id == x;
      assert n in r;
    }
    forall n | n in r && n.id in s ensures Waits(r, n, s) {
      assert Waits(nodes, n, s);
      if c :| c in nodes && IsChild(c, n.id) && c.id in s { assert c in r; }
    }
  }

  lemma {:induction false} MarkedLeaves(nodes: seq<Node>, ids: set<string>, status: Status, s: set<string>)
    requires ids !! s
    ensures forall n: Node | n.id in s :: n in Marked(nodes, ids, status) <==> n in nodes
  {
    var r := Marked(nodes, ids, status);
    forall n: Node | n.id in s ensures n in r <==> n in nodes {
      if n in nodes {
        var i :| 0 <= i < |nodes| && nodes[i] == n;
        assert r[i] == n;
      }
      if n in r {
        var i :| 0 <= i < |r| && r[i] == n;
        assert nodes[i] == n;
      }
    }
  }

  lemma {:induction false} AcceptLeaves(nodes: seq<Node>, id: string, fps: map<string, string>, s: set<string>)
    requires id !in s
    ensures forall n: Node | n.id in s :: n in Accept(nodes, id, fps) <==> n in nodes
  {
    var r := Accept(nodes, id, fps);
    forall n: Node | n.id in s ensures n in r <==> n in nodes {
      if n in nodes {
        var i :| 0 <= i < |nodes| && nodes[i] == n;
        assert r[i] == n;
      }
      if n in r {
        var i :| 0 <= i < |r| && r[i] == n;
        assert nodes[i] == n;
      }
    }
  }

  lemma {:induction false} StepLeavesRows(nodes: seq<Node>, step: Step, s: set<string>)
    requires Leaves(nodes, step, s) && (step.Finish? ==> step.id !in s)
    ensures forall n: Node | n.id in s :: n in Runs.After(nodes, step) <==> n in nodes
  {
    match step
    case Finish(id, fps) => AcceptLeaves(nodes, id, fps, s);
    case Grow(id, cs, existing, left) =>
      MarkedLeaves(nodes + Kids(Find(nodes, id).value, cs, existing, left), {id}, Split, s);
    case Reopen(id, again) =>
      MarkedLeaves(nodes, again, Pending, s);
      MarkedLeaves(Marked(nodes, again, Pending), {id}, Split, s);
    case Retry(again) => MarkedLeaves(nodes, again, Pending, s);
    case Replan(id) =>
      MarkedLeaves(WithoutBelow(nodes, id), {id}, Pending, s);
    case Turn(id, status) => MarkedLeaves(nodes, {id}, status, s);
  }

  lemma {:induction false} BlockedStays(nodes: seq<Node>, stale: set<string>, step: Step, s: set<string>)
    requires Blocked(nodes, s) && Enabled(nodes, stale, step) && Leaves(nodes, step, s)
    requires Escalation.StaleAreComplete(nodes, stale)
    ensures Blocked(Runs.After(nodes, step), s)
  {
    hide Blocked, NextNodes, Kids, Runs.After;
    if step.Finish? && step.id in s {
      var n :| n in nodes && n.id == step.id && (n in NextNodes(nodes, stale) || n.status == Running);
      BlockedIsUnselected(nodes, stale, s, n);
    }
    StepLeavesRows(nodes, step, s);
    KeptRowsStayBlocked(nodes, Runs.After(nodes, step), s);
  }

  /** Steps, from any state, that leave `s` alone. */
  ghost predicate LeavingRun(states: seq<seq<Node>>, stales: seq<set<string>>, steps: seq<Step>, s: set<string>) {
    && |states| == |steps| + 1 == |stales|
    && (forall i | 0 <= i < |steps| :: Runs.Follows(states, stales, steps, i) && Leaves(states[i], steps[i], s))
    && (forall i | 0 <= i < |states| :: Escalation.StaleAreComplete(states[i], stales[i]))
  }

  lemma {:induction false} BlockedForGood(
    states: seq<seq<Node>>, stales: seq<set<string>>, steps: seq<Step>, s: set<string>, i: nat)
    requires LeavingRun(states, stales, steps, s) && i < |states| && Blocked(states[0], s)
    ensures Blocked(states[i], s)
  {
    hide Blocked, Runs.Enabled, Runs.After, Leaves, Escalation.StaleAreComplete;
    if i > 0 {
      BlockedForGood(states, stales, steps, s, i - 1);
      assert Runs.Follows(states, stales, steps, i - 1);
      BlockedStays(states[i - 1], stales[i - 1], steps[i - 1], s);
    }
  }

  lemma {:induction false} PendingCycleBlocks(nodes: seq<Node>, c: seq<string>)
    requires UniqueIds(nodes) && IsCycle(DepGraph(nodes), c)
    requires forall n | n in nodes && n.id in c :: n.status == Pending
    ensures Blocked(nodes, set x | x in c)
  {
    var g, s := DepGraph(nodes), set x | x in c;
    forall x | x in s ensures exists n :: n in nodes && n.id == x {
      var i :| 0 <= i < |c| && c[i] == x;
      PathNode(g, c, i);
    }
    forall n | n in nodes && n.id in s ensures Waits(nodes, n, s) {
      var i :| 0 <= i < |c| && c[i] == n.id;
      var j := if i == |c| - 1 then 0 else i;
      assert Hop(g, c, j);
      FindMember(nodes, n);
      assert c[j + 1] in n.dependsOn && c[j + 1] in s;
    }
  }

  /** Main result: once a dependency has closed a cycle of pending nodes, none of them is ever selected again,
      over every sequence of steps that leaves their rows alone, whatever is stale. */
  lemma {:induction false} CycleNeverRuns(
    states: seq<seq<Node>>, stales: seq<set<string>>, steps: seq<Step>, c: seq<string>, i: nat, n: Node)
    requires i < |states| && UniqueIds(states[0]) && IsCycle(DepGraph(states[0]), c)
    requires forall m | m in states[0] && m.id in c :: m.status == Pending
    requires LeavingRun(states, stales, steps, set x | x in c) && n in states[i] && n.id in c
    ensures n !in NextNodes(states[i], stales[i]) && n.status != Complete
  {
    hide Blocked, IsCycle, NextNodes;
    var s := set x | x in c;
    PendingCycleBlocks(states[0], c);
    BlockedForGood(states, stales, steps, s, i);
    assert Escalation.StaleAreComplete(states[i], stales[i]);
    BlockedIsUnselected(states[i], stales[i], s, n);
  }

  // ---- An example ----

  /** One child runs, its sibling waits for it. */
  const TWO := [
    Node("root", None, 1, Split, [], map[]),
    Node("root-01", Some("root"), 2, Running, [], map[]),
    Node("root-02", Some("root"), 2, Pending, ["root-01"], map[])]

  const STUCK := [
    TWO[0], Node("root-01", Some("root"), 2, Pending, ["root-02"], map[]), TWO[2]]

  lemma {:induction false} TwoIsTree()
    ensures Tree(TWO) && TWO[0] in TWO && TWO[1] in TWO && TWO[2] in TWO
    ensures Find(TWO, "root") == Some(TWO[0])
  {
    assert TWO[0] in TWO && TWO[1] in TWO && TWO[2] in TWO;
    assert ParentInTree(TWO, TWO[1]) && ParentInTree(TWO, TWO[2]);
    FindMember(TWO, TWO[0]);
  }

  lemma {:induction false} TwoEscalates()
    ensures Escalation.Escalating(TWO, TWO[1], "root")
  {
    TwoIsTree();
    assert Escalation.Line(TWO, None) == [];
    assert Escalation.Line(TWO, Some("root")) == ["root"];
    assert Escalation.Position(["root"], "root") == 0;
  }

  lemma {:induction false} TwoAddsEdge()
    ensures AddDependency(Marked(TWO, {"root-01"}, Pending), TWO[1], "root-02") == STUCK
  {
    TrimFixed("root-02");
    assert !IsWhite("root-02"[0]) && !IsWhite("root-02"[|"root-02"| - 1]);
    assert Extra(TWO[1].dependsOn, "root-02") == ["root-02"];
    assert Marked(TWO, {"root-01"}, Pending) == [TWO[0], TWO[1].(status := Pending), TWO[2]];
  }

  lemma {:induction false} StuckIsBlocked()
    ensures Blocked(STUCK, {"root", "root-01", "root-02"})
  {
    assert STUCK[0] in STUCK && STUCK[1] in STUCK && STUCK[2] in STUCK;
    assert IsChild(STUCK[1], "root") && "root-02" in STUCK[1].dependsOn && "root-01" in STUCK[2].dependsOn;
  }

  lemma {:induction false} NothingIsSelected()
    ensures NextNodes(STUCK, {}) == []
  {
    hide NextNodes, Blocked;
    StuckIsBlocked();
    if NextNodes(STUCK, {}) != [] {
      var n := NextNodes(STUCK, {})[0];
      SelectedMeans(STUCK, {}, n);
      BlockedIsUnselected(STUCK, {}, {"root", "root-01", "root-02"}, n);
    }
  }

  /** The first child asks for the second, which waits for it; the root rules `depends_on`, and nothing is ever
      selected although nothing has failed and nothing is complete. */
  lemma {:induction false} TwoGetStuck()
    ensures Escalation.Escalating(TWO, TWO[1], "root") && Depending(TWO, TWO[1], "root", "root-02") == STUCK
    ensures NextNodes(STUCK, {}) == [] && !Finished(STUCK, {})
  {
    TwoEscalates();
    Escalation.RulingLeavesNoTrace(TWO, TWO[1], "root", Escalation.DependsOn);
    TwoAddsEdge();
    NothingIsSelected();
    hide NextNodes, Escalation.Escalating, Escalation.Settled, AddDependency, Marked;
    assert STUCK[0] in STUCK;
  }
}

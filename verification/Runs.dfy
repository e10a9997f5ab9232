/** Whole runs of the tree engine: node completions, accepted splits, reopenings,
    retries and replans, in any order (src/scheduler.rs `run`, src/store.rs). */
module Runs {
  import opened Text
  import opened Contracts
  import opened Graph
  import opened Aliases
  import opened SplitTopology
  import opened Splits
  import opened Nodes
  import opened Selection

  const ROOT := "root"

  /** The ids of `p`'s children are exactly its first `e` generated ids. */
  ghost predicate NumberedKids(nodes: seq<Node>, p: string, e: nat) {
    && (forall c | c in nodes && IsChild(c, p) :: c.id in ChildIds(p, 0, e))
    && (forall id | id in ChildIds(p, 0, e) :: HasChildCalled(nodes, p, id))
  }

  ghost predicate HasChildCalled(nodes: seq<Node>, p: string, id: string) {
    exists c :: c in nodes && IsChild(c, p) && c.id == id
  }

  ghost predicate KidsNumbered(nodes: seq<Node>, p: string) {
    exists e :: NumberedKids(nodes, p, e)
  }

  ghost predicate Numbered(nodes: seq<Node>) {
    nodes != [] && nodes[0].id == ROOT && forall n | n in nodes :: KidsNumbered(nodes, n.id)
  }

  ghost predicate Invariant(nodes: seq<Node>) {
    Sound(nodes) && Numbered(nodes)
  }

  /** What the invariant says apart from statuses. */
  ghost predicate Structured(nodes: seq<Node>) {
    Tree(nodes) && Numbered(nodes) && SiblingDependencies(nodes) && !Cyclic(DepGraph(nodes))
  }

  // ---- Fresh ids ----

  /** A generated id determines its parent and its number. */
  lemma {:induction false} ChildIdParts(p: string, k: nat, q: string, j: nat)
    requires ChildId(p, k) == ChildId(q, j)
    ensures p == q && k == j
  {
    ChildIdShape(p, k);
    ChildIdShape(q, j);
    Pad2Injective(k, j);
    var s := ChildId(p, k);
    assert p == s[..|s| - |Pad2(k)| - 1] == q;
  }

  lemma {:induction false} NumberOf(p: string, e: nat, m: nat, id: string) returns (k: nat)
    requires id in ChildIds(p, e, m)
    ensures e < k <= e + m && id == ChildId(p, k)
  {
    var ids := ChildIds(p, e, m);
    var j: nat :| j < |ids| && ids[j] == id;
    ChildIdsAt(p, e, m, j);
    k := e + j + 1;
  }

  lemma {:induction false} IsGenerated(nodes: seq<Node>, n: Node) returns (p: Node, k: nat)
    requires Tree(nodes) && Numbered(nodes) && n in nodes && n.id != ROOT
    ensures p in nodes && n.parent == Some(p.id) && k >= 1 && n.id == ChildId(p.id, k)
  {
    var i :| 0 <= i < |nodes| && nodes[i] == n;
    assert ParentInTree(nodes, nodes[i]);
    p :| p in nodes && p.id == n.parent.value;
    assert KidsNumbered(nodes, p.id);
    var e :| NumberedKids(nodes, p.id, e);
    k := NumberOf(p.id, 0, e, n.id);
  }

  /** The next ids of a parent belong to no node of the tree. */
  lemma {:induction false} NextIdsAreFresh(nodes: seq<Node>, p: string, e: nat, id: string, m: nat)
    requires Tree(nodes) && Numbered(nodes) && NumberedKids(nodes, p, e) && id in ChildIds(p, e, m)
    ensures id !in Ids(nodes)
  {
    if n :| n in nodes && n.id == id {
      var j := NumberOf(p, e, m, id);
      ChildIdShape(p, j);
      var q, k := IsGenerated(nodes, n);
      ChildIdParts(q.id, k, p, j);
      var i := NumberOf(p, 0, e, id);
      ChildIdInjective(p, i, j);
    }
  }

  function IdSeq(nodes: seq<Node>): (r: seq<string>)
    ensures |r| == |nodes| && forall i | 0 <= i < |nodes| :: r[i] == nodes[i].id
  {
    seq(|nodes|, i requires 0 <= i < |nodes| => nodes[i].id)
  }

  lemma {:induction false} DistinctCount(s: seq<string>)
    requires Distinct(s)
    ensures |set x | x in s| == |s|
  {
    if s != [] {
      var front, last := s[..|s| - 1], s[|s| - 1];
      DistinctCount(front);
      assert (set x | x in s) == (set x | x in front) + {last};
    }
  }

  lemma {:induction false} FilterKeepsUnique(nodes: seq<Node>, p: Node -> bool)
    requires UniqueIds(nodes)
    ensures UniqueIds(Filter(nodes, p))
  {
    if nodes != [] {
      var front, last := nodes[..|nodes| - 1], nodes[|nodes| - 1];
      FilterKeepsUnique(front, p);
      var kept := Filter(front, p);
      forall i | 0 <= i < |kept| ensures kept[i].id != last.id {
        assert kept[i] in front;
      }
    }
  }

  /** The number of children on disk is the number of the last one. */
  lemma {:induction false} CountIsNumber(nodes: seq<Node>, p: string, e: nat)
    requires UniqueIds(nodes) && NumberedKids(nodes, p, e)
    ensures |Children(nodes, p)| == e
  {
    var kids := Children(nodes, p);
    FilterKeepsUnique(nodes, (n: Node) => IsChild(n, p));
    var ids, want := IdSeq(kids), ChildIds(p, 0, e);
    ChildIdsDistinct(p, 0, e);
    DistinctCount(want);
    DistinctCount(ids);
    forall id | id in want ensures id in ids {
      assert HasChildCalled(nodes, p, id);
      var c :| c in nodes && IsChild(c, p) && c.id == id;
      var i :| 0 <= i < |kids| && kids[i] == c;
      assert ids[i] == id;
    }
    forall id | id in ids ensures id in want {
      var i :| 0 <= i < |ids| && ids[i] == id;
      assert kids[i] in kids;
    }
    assert (set x | x in ids) == (set x | x in want);
  }

  // ---- Steps that only change statuses ----

  predicate SameShape(a: Node, b: Node) {
    a.id == b.id && a.parent == b.parent && a.depth == b.depth && a.dependsOn == b.dependsOn
  }

  ghost predicate Restated(nodes: seq<Node>, nodes': seq<Node>) {
    |nodes| == |nodes'| && forall i | 0 <= i < |nodes| :: SameShape(nodes[i], nodes'[i])
  }

  lemma {:induction false} RestatedMember(nodes: seq<Node>, nodes': seq<Node>, n: Node) returns (n': Node)
    requires Restated(nodes, nodes') && n in nodes
    ensures n' in nodes' && SameShape(n, n')
  {
    var i :| 0 <= i < |nodes| && nodes[i] == n;
    n' := nodes'[i];
  }

  ghost predicate HasShape(nodes: seq<Node>, n: Node) {
    exists m :: m in nodes && SameShape(n, m)
  }

  ghost predicate Covered(nodes: seq<Node>, others: seq<Node>) {
    forall n | n in nodes :: HasShape(others, n)
  }

  /** The same nodes up to their order, statuses and recorded fingerprints. */
  ghost predicate Alike(a: seq<Node>, b: seq<Node>) {
    Covered(a, b) && Covered(b, a)
  }

  lemma {:induction false} AlikeMember(nodes: seq<Node>, nodes': seq<Node>, n: Node) returns (n': Node)
    requires Covered(nodes, nodes') && n in nodes
    ensures n' in nodes' && SameShape(n, n')
  {
    assert HasShape(nodes', n);
    n' :| n' in nodes' && SameShape(n, n');
  }

  lemma {:induction false} RestatedIsAlike(nodes: seq<Node>, nodes': seq<Node>)
    requires Restated(nodes, nodes')
    ensures Alike(nodes, nodes')
  {
    forall n | n in nodes ensures HasShape(nodes', n) { var n' := RestatedMember(nodes, nodes', n); }
    forall n' | n' in nodes' ensures HasShape(nodes, n') { var n := RestatedMember(nodes', nodes, n'); }
  }

  lemma {:induction false} RestatedTree(nodes: seq<Node>, nodes': seq<Node>)
    requires Restated(nodes, nodes') && Tree(nodes)
    ensures Tree(nodes')
  {
    forall i | 0 < i < |nodes'| ensures ParentInTree(nodes', nodes'[i]) {
      assert SameShape(nodes[i], nodes'[i]) && ParentInTree(nodes, nodes[i]);
      var p :| p in nodes && p.id == nodes[i].parent.value && nodes[i].depth == p.depth + 1;
      var p' := RestatedMember(nodes, nodes', p);
    }
    assert SameShape(nodes[0], nodes'[0]);
    forall i, j | 0 <= i < j < |nodes'| ensures nodes'[i].id != nodes'[j].id {
      assert SameShape(nodes[i], nodes'[i]) && SameShape(nodes[j], nodes'[j]);
    }
  }

  lemma {:induction false} AlikeGraph(nodes: seq<Node>, nodes': seq<Node>)
    requires Alike(nodes, nodes') && UniqueIds(nodes) && UniqueIds(nodes')
    ensures DepGraph(nodes') == DepGraph(nodes)
  {
    hide Covered, HasShape;
    forall n | n in nodes ensures n.id in Ids(nodes') && Find(nodes', n.id).value.dependsOn == n.dependsOn {
      var n' := AlikeMember(nodes, nodes', n);
      FindMember(nodes', n');
    }
    forall n' | n' in nodes' ensures n'.id in Ids(nodes) {
      var n := AlikeMember(nodes', nodes, n');
    }
    forall id | id in Ids(nodes) ensures DepGraph(nodes')[id] == DepGraph(nodes)[id] {
      var n :| n in nodes && n.id == id;
      FindMember(nodes, n);
    }
  }

  lemma {:induction false} AlikeSiblings(nodes: seq<Node>, nodes': seq<Node>)
    requires Alike(nodes, nodes') && SiblingDependencies(nodes)
    ensures SiblingDependencies(nodes')
  {
    hide Covered, HasShape;
    forall n', d | n' in nodes' && d in n'.dependsOn ensures NamesSibling(nodes', n', d) {
      var n := AlikeMember(nodes', nodes, n');
      assert NamesSibling(nodes, n, d);
      var m :| m in nodes && m.id == d && m.parent == n.parent;
      var m' := AlikeMember(nodes, nodes', m);
    }
  }

  lemma {:induction false} AlikeNumbered(nodes: seq<Node>, nodes': seq<Node>)
    requires Alike(nodes, nodes') && Numbered(nodes) && nodes' != [] && nodes'[0].id == ROOT
    ensures Numbered(nodes')
  {
    hide Covered, HasShape;
    forall n' | n' in nodes' ensures KidsNumbered(nodes', n'.id) {
      var n := AlikeMember(nodes', nodes, n');
      assert KidsNumbered(nodes, n.id);
      var e :| NumberedKids(nodes, n.id, e);
      forall c' | c' in nodes' && IsChild(c', n.id) ensures c'.id in ChildIds(n.id, 0, e) {
        var c := AlikeMember(nodes', nodes, c');
        assert IsChild(c, n.id);
      }
      forall id | id in ChildIds(n.id, 0, e) ensures HasChildCalled(nodes', n.id, id) {
        assert HasChildCalled(nodes, n.id, id);
        var c :| c in nodes && IsChild(c, n.id) && c.id == id;
        var c' := AlikeMember(nodes, nodes', c);
      }
      assert NumberedKids(nodes', n.id, e);
    }
  }

  /** Changing statuses keeps the invariant when every split node then has a child. */
  lemma {:induction false} RestatedKeepsInvariant(nodes: seq<Node>, nodes': seq<Node>)
    requires Structured(nodes) && Restated(nodes, nodes')
    requires forall n | n in nodes' && n.status == Split :: HasChild(nodes, n.id)
    ensures Invariant(nodes')
  {
    RestatedIsAlike(nodes, nodes');
    RestatedTree(nodes, nodes');
    assert SameShape(nodes[0], nodes'[0]);
    AlikeGraph(nodes, nodes');
    AlikeSiblings(nodes, nodes');
    AlikeNumbered(nodes, nodes');
    forall n | n in nodes' && n.status == Split ensures HasChild(nodes', n.id) {
      var c :| c in nodes && IsChild(c, n.id);
      var c' := RestatedMember(nodes, nodes', c);
      assert IsChild(c', n.id);
    }
  }

  // ---- Splits ----

  /** The rows `add_children` creates for the first `n` ids. */
  function Rows(p: Node, ids: seq<string>, deps: seq<seq<string>>, n: nat): (r: seq<Node>)
    requires n <= |ids| && n <= |deps|
    ensures |r| == n
    decreases n
  {
    if n == 0 then []
    else Rows(p, ids, deps, n - 1) + [Node(ids[n - 1], Some(p.id), p.depth + 1, Pending, deps[n - 1], map[])]
  }

  lemma {:induction false} RowAt(p: Node, ids: seq<string>, deps: seq<seq<string>>, n: nat, k: nat)
    requires k < n <= |ids| && n <= |deps|
    ensures Rows(p, ids, deps, n)[k] == Node(ids[k], Some(p.id), p.depth + 1, Pending, deps[k], map[])
  {
    if k < n - 1 { RowAt(p, ids, deps, n - 1, k); }
  }

  function NewChildren(p: Node, cs: seq<Contract>, existing: seq<string>): (r: seq<Node>)
    ensures |r| == |cs|
  {
    Rows(p, ChildIds(p.id, |existing|, |cs|), StoredLists(cs, p.id, existing), |cs|)
  }

  lemma {:induction false} NewChildAt(p: Node, cs: seq<Contract>, existing: seq<string>, k: nat)
    requires k < |cs|
    ensures var c := NewChildren(p, cs, existing)[k];
      && c.id == ChildIds(p.id, |existing|, |cs|)[k] && c.parent == Some(p.id) && c.depth == p.depth + 1
      && c.status == Pending && c.dependsOn == StoredLists(cs, p.id, existing)[k]
  {
    RowAt(p, ChildIds(p.id, |existing|, |cs|), StoredLists(cs, p.id, existing), |cs|, k);
  }

  /** The children as they read back when the index still has rows under some of the ids: such a row is not
      written again, so its status, dependencies and record stand (`Leftovers.PlannedIsRead`). */
  function Inherited(kids: seq<Node>, left: map<string, Node>): (r: seq<Node>)
    ensures |r| == |kids|
    ensures forall k | 0 <= k < |kids| :: r[k] == AsLeft(kids[k], left)
  {
    seq(|kids|, k requires 0 <= k < |kids| => AsLeft(kids[k], left))
  }

  function AsLeft(kid: Node, left: map<string, Node>): (r: Node)
    ensures r.id == kid.id && r.parent == kid.parent && r.depth == kid.depth
  {
    if kid.id !in left then kid
    else kid.(status := left[kid.id].status, dependsOn := left[kid.id].dependsOn, depFp := left[kid.id].depFp)
  }

  lemma {:induction false} NothingInherited(kids: seq<Node>, left: map<string, Node>)
    requires forall k | k in kids :: k.id !in left
    ensures Inherited(kids, left) == kids
  {
  }

  lemma {:induction false} ChildIdsSplit(p: string, e: nat, m: nat, id: string)
    ensures id in ChildIds(p, 0, e + m) <==> id in ChildIds(p, 0, e) || id in ChildIds(p, e, m)
  {
    hide ChildId;
    if m > 0 {
      ChildIdsSplit(p, e, m - 1, id);
      assert ChildIds(p, 0, e + m) == ChildIds(p, 0, e + m - 1) + [ChildId(p, e + m)];
      assert ChildIds(p, e, m) == ChildIds(p, e, m - 1) + [ChildId(p, e + m)];
    }
  }

  /** `kids` are brand-new children of the node `p`. */
  ghost predicate FreshKids(nodes: seq<Node>, p: Node, kids: seq<Node>) {
    && p in nodes && UniqueIds(kids)
    && forall k | k in kids ::
         k.id !in Ids(nodes) && k.parent == Some(p.id) && k.depth == p.depth + 1
  }

  lemma {:induction false} GrownTree(nodes: seq<Node>, p: Node, kids: seq<Node>)
    requires Tree(nodes) && FreshKids(nodes, p, kids)
    ensures Tree(nodes + kids)
  {
    var all := nodes + kids;
    forall i | 0 < i < |all| ensures ParentInTree(all, all[i]) {
      if i < |nodes| {
        assert ParentInTree(nodes, nodes[i]);
        var q :| q in nodes && q.id == nodes[i].parent.value && nodes[i].depth == q.depth + 1;
        assert q in all;
      } else {
        assert all[i] in kids && p in all;
      }
    }
    forall i, j | 0 <= i < j < |all| ensures all[i].id != all[j].id {
      if i < |nodes| <= j { assert all[i].id in Ids(nodes) && all[j] in kids; }
    }
  }

  lemma {:induction false} OldNodesParents(nodes: seq<Node>, n: Node, id: string)
    requires Tree(nodes) && n in nodes && IsChild(n, id)
    ensures id in Ids(nodes)
  {
    var i :| 0 <= i < |nodes| && nodes[i] == n;
    assert ParentInTree(nodes, nodes[i]);
  }

  lemma {:induction false} GrownNumbered(nodes: seq<Node>, p: Node, kids: seq<Node>, e: nat, m: nat)
    requires Tree(nodes) && Numbered(nodes) && FreshKids(nodes, p, kids) && NumberedKids(nodes, p.id, e)
    requires forall id :: id in ChildIds(p.id, e, m) <==> id in IdSeq(kids)
    ensures Numbered(nodes + kids)
  {
    var all := nodes + kids;
    forall n | n in all ensures KidsNumbered(all, n.id) {
      if n in kids {
        assert p.id in Ids(nodes) && n.id !in Ids(nodes);
        forall c | c in all ensures !IsChild(c, n.id) {
          if c in nodes && IsChild(c, n.id) { OldNodesParents(nodes, c, n.id); }
        }
        assert NumberedKids(all, n.id, 0);
      } else if n.id == p.id {
        GrownKids(nodes, p, kids, e, m);
      } else {
        assert KidsNumbered(nodes, n.id);
        var f :| NumberedKids(nodes, n.id, f);
        forall id | id in ChildIds(n.id, 0, f) ensures HasChildCalled(all, n.id, id) {
          assert HasChildCalled(nodes, n.id, id);
        }
        assert NumberedKids(all, n.id, f);
      }
    }
  }

  lemma {:induction false} GrownKids(nodes: seq<Node>, p: Node, kids: seq<Node>, e: nat, m: nat)
    requires FreshKids(nodes, p, kids) && NumberedKids(nodes, p.id, e)
    requires forall id :: id in ChildIds(p.id, e, m) <==> id in IdSeq(kids)
    ensures NumberedKids(nodes + kids, p.id, e + m)
  {
    var all := nodes + kids;
    forall c | c in all && IsChild(c, p.id) ensures c.id in ChildIds(p.id, 0, e + m) {
      ChildIdsSplit(p.id, e, m, c.id);
      if c in kids {
        var i :| 0 <= i < |kids| && kids[i] == c;
        assert IdSeq(kids)[i] == c.id;
      }
    }
    forall id | id in ChildIds(p.id, 0, e + m) ensures HasChildCalled(all, p.id, id) {
      ChildIdsSplit(p.id, e, m, id);
      if id in ChildIds(p.id, 0, e) {
        assert HasChildCalled(nodes, p.id, id);
      } else {
        var i :| 0 <= i < |kids| && IdSeq(kids)[i] == id;
        assert kids[i] in all && IsChild(kids[i], p.id);
      }
    }
  }

  /** The grown tree's dependencies are the old ones and the new children's own. */
  lemma {:induction false} GrownGraph(nodes: seq<Node>, kids: seq<Node>)
    requires UniqueIds(nodes) && UniqueIds(kids) && UniqueIds(nodes + kids)
    ensures forall id :: id in DepGraph(nodes + kids) <==> id in DepGraph(nodes) || id in DepGraph(kids)
    ensures forall id | id in DepGraph(nodes) ::
      id !in DepGraph(kids) && DepGraph(nodes + kids)[id] == DepGraph(nodes)[id]
    ensures forall id | id in DepGraph(kids) :: DepGraph(nodes + kids)[id] == DepGraph(kids)[id]
  {
    var all := nodes + kids;
    forall id ensures id in Ids(all) <==> id in Ids(nodes) || id in Ids(kids) {
      if n :| n in all && n.id == id { assert n in nodes || n in kids; }
      if n :| n in nodes && n.id == id { assert n in all; }
      if n :| n in kids && n.id == id { assert n in all; }
    }
    forall id | id in Ids(nodes) ensures id !in Ids(kids) && DepGraph(all)[id] == DepGraph(nodes)[id] {
      var n :| n in nodes && n.id == id;
      InBoth(nodes, kids, n);
      if k :| k in kids && k.id == id { FindMember(all, k); FindMember(all, n); ApartInAll(nodes, kids, n, k); }
    }
    forall id | id in Ids(kids) ensures DepGraph(all)[id] == DepGraph(kids)[id] {
      var k :| k in kids && k.id == id;
      assert k in all;
      FindMember(kids, k);
      FindMember(all, k);
    }
  }

  lemma {:induction false} InBoth(nodes: seq<Node>, kids: seq<Node>, n: Node)
    requires UniqueIds(nodes) && UniqueIds(nodes + kids) && n in nodes
    ensures n in nodes + kids && Find(nodes, n.id) == Some(n) && Find(nodes + kids, n.id) == Some(n)
  {
    FindMember(nodes, n);
    FindMember(nodes + kids, n);
  }

  lemma {:induction false} ApartInAll(nodes: seq<Node>, kids: seq<Node>, n: Node, k: Node)
    requires UniqueIds(nodes + kids) && n in nodes && k in kids
    ensures n.id != k.id
  {
    var i, j :| 0 <= i < |nodes| && 0 <= j < |kids| && nodes[i] == n && kids[j] == k;
    assert (nodes + kids)[i] == n && (nodes + kids)[|nodes| + j] == k;
  }

  lemma {:induction false} SiblingGraphIsClosed(nodes: seq<Node>)
    requires UniqueIds(nodes) && SiblingDependencies(nodes)
    ensures Closed(DepGraph(nodes))
  {
    var g := DepGraph(nodes);
    forall id, k | id in g && 0 <= k < |g[id]| ensures g[id][k] in g {
      var n :| n in nodes && n.id == id;
      FindMember(nodes, n);
      assert NamesSibling(nodes, n, g[id][k]);
    }
  }

  /** The ids of a node's children, each once, in whatever order the directory is read. */
  ghost predicate Lists(nodes: seq<Node>, p: string, existing: seq<string>) {
    |existing| == |Children(nodes, p)| && forall id :: id in existing <==> HasChildCalled(nodes, p, id)
  }

  /** The dependency names an existing child or one of the new ones. */
  ghost predicate NamesKid(existing: seq<string>, kids: seq<Node>, d: string) {
    d in existing || exists k :: k in kids && k.id == d
  }

  ghost predicate KidsNameKids(existing: seq<string>, kids: seq<Node>) {
    forall k, d | k in kids && d in k.dependsOn :: NamesKid(existing, kids, d)
  }

  /** What can be checked of the children before they are added: their dependencies name siblings and form
      no cycle among themselves, and none of them is already split. */
  ghost predicate KidsFit(existing: seq<string>, kids: seq<Node>) {
    KidsNameKids(existing, kids) && !Cyclic(DepGraph(kids)) && forall k | k in kids :: k.status != Split
  }

  lemma {:induction false} KidSibling(
    nodes: seq<Node>, p: Node, kids: seq<Node>, existing: seq<string>, k: Node, d: string)
    requires FreshKids(nodes, p, kids) && Lists(nodes, p.id, existing) && k in kids
    ensures NamesSibling(nodes + kids, k, d) <==> NamesKid(existing, kids, d)
  {
    var all := nodes + kids;
    if NamesSibling(all, k, d) {
      var m :| m in all && m.id == d && m.parent == k.parent;
      if m in nodes { assert HasChildCalled(nodes, p.id, d) by { assert IsChild(m, p.id); } }
    }
    if d in existing {
      assert HasChildCalled(nodes, p.id, d);
      var c :| c in nodes && IsChild(c, p.id) && c.id == d;
      assert c in all;
    }
    if m :| m in kids && m.id == d { assert m in all; }
  }

  lemma {:induction false} GrownSiblings(nodes: seq<Node>, p: Node, kids: seq<Node>, existing: seq<string>)
    requires SiblingDependencies(nodes) && FreshKids(nodes, p, kids) && Lists(nodes, p.id, existing)
    ensures SiblingDependencies(nodes + kids) <==> KidsNameKids(existing, kids)
  {
    var all := nodes + kids;
    forall k, d | k in kids ensures NamesSibling(all, k, d) <==> NamesKid(existing, kids, d) {
      KidSibling(nodes, p, kids, existing, k, d);
    }
    forall n, d | n in nodes && d in n.dependsOn ensures NamesSibling(all, n, d) {
      assert NamesSibling(nodes, n, d);
      var m :| m in nodes && m.id == d && m.parent == n.parent;
      assert m in all;
    }
    if SiblingDependencies(all) {
      forall k, d | k in kids && d in k.dependsOn ensures NamesKid(existing, kids, d) {
        assert k in all && NamesSibling(all, k, d);
      }
    }
  }

  lemma {:induction false} NewChildrenAreFresh(nodes: seq<Node>, p: Node, cs: seq<Contract>, existing: seq<string>)
    requires Tree(nodes) && Numbered(nodes) && p in nodes && NumberedKids(nodes, p.id, |existing|)
    ensures FreshKids(nodes, p, NewChildren(p, cs, existing))
    ensures forall id :: id in ChildIds(p.id, |existing|, |cs|) <==> id in IdSeq(NewChildren(p, cs, existing))
  {
    var kids, ids := NewChildren(p, cs, existing), ChildIds(p.id, |existing|, |cs|);
    ChildIdsDistinct(p.id, |existing|, |cs|);
    forall k | 0 <= k < |kids|
      ensures kids[k].id == ids[k] && kids[k].id !in Ids(nodes)
      ensures kids[k].parent == Some(p.id) && kids[k].depth == p.depth + 1
    {
      NewChildAt(p, cs, existing, k);
      NextIdsAreFresh(nodes, p.id, |existing|, ids[k], |cs|);
    }
    assert IdSeq(kids) == ids;
  }

  lemma {:induction false} ChildIdIsPlain(p: string, k: nat)
    requires NoWhite(p)
    ensures NoWhite(ChildId(p, k))
  {
    NumbersArePlain(k);
  }

  /** No id of a reachable tree holds white space. */
  lemma {:induction false} GeneratedIdsArePlain(nodes: seq<Node>, n: Node)
    requires Tree(nodes) && Numbered(nodes) && n in nodes
    ensures NoWhite(n.id)
    decreases n.depth
  {
    if n.id != ROOT {
      var i :| 0 <= i < |nodes| && nodes[i] == n;
      assert i > 0 ==> ParentInTree(nodes, nodes[i]);
      var p, k := IsGenerated(nodes, n);
      assert p.depth < n.depth by {
        var q :| q in nodes && q.id == n.parent.value && n.depth == q.depth + 1;
        FindMember(nodes, p);
        FindMember(nodes, q);
      }
      GeneratedIdsArePlain(nodes, p);
      ChildIdIsPlain(p.id, k);
    }
  }

  lemma {:induction false} ListedIdsArePlain(nodes: seq<Node>, p: Node, existing: seq<string>)
    requires Tree(nodes) && Numbered(nodes) && p in nodes && Lists(nodes, p.id, existing)
    ensures PlainIds(p.id, existing)
  {
    GeneratedIdsArePlain(nodes, p);
    forall k | 0 <= k < |existing| ensures NoWhite(existing[k]) {
      assert HasChildCalled(nodes, p.id, existing[k]);
      var c :| c in nodes && IsChild(c, p.id) && c.id == existing[k];
      GeneratedIdsArePlain(nodes, c);
    }
  }

  lemma {:induction false} ListedCount(nodes: seq<Node>, p: Node, existing: seq<string>)
    requires Tree(nodes) && Numbered(nodes) && p in nodes && Lists(nodes, p.id, existing)
    ensures NumberedKids(nodes, p.id, |existing|)
  {
    assert KidsNumbered(nodes, p.id);
    var e :| NumberedKids(nodes, p.id, e);
    CountIsNumber(nodes, p.id, e);
  }

  /** No child of a brand-new child is there yet. */
  lemma {:induction false} KidsAreLeaves(nodes: seq<Node>, p: Node, kids: seq<Node>, k: Node)
    requires Tree(nodes) && FreshKids(nodes, p, kids) && k in kids
    ensures !HasChild(nodes + kids, k.id)
  {
    assert p.id in Ids(nodes) && k.id !in Ids(nodes);
    forall c | c in nodes + kids ensures !IsChild(c, k.id) {
      if c in nodes && IsChild(c, k.id) { OldNodesParents(nodes, c, k.id); }
    }
  }

  lemma {:induction false} GrownSplits(nodes: seq<Node>, p: Node, kids: seq<Node>)
    requires Tree(nodes) && FreshKids(nodes, p, kids)
    requires forall n | n in nodes && n.status == Split :: HasChild(nodes, n.id)
    ensures (forall n | n in nodes + kids && n.status == Split :: HasChild(nodes + kids, n.id))
       <==> forall k | k in kids :: k.status != Split
  {
    forall n | n in nodes && n.status == Split ensures HasChild(nodes + kids, n.id) {
      var c :| c in nodes && IsChild(c, n.id);
      assert c in nodes + kids;
    }
    forall k | k in kids ensures k in nodes + kids && !HasChild(nodes + kids, k.id) {
      KidsAreLeaves(nodes, p, kids, k);
    }
  }

  /** Main result on growth: whatever children a split adds under the next ids, the tree stays sound and
      numbered if and only if they fit. */
  lemma {:induction false} GrowthKeepsInvariant(
    nodes: seq<Node>, p: Node, kids: seq<Node>, existing: seq<string>)
    requires Invariant(nodes) && p in nodes && Lists(nodes, p.id, existing) && FreshKids(nodes, p, kids)
    requires forall id :: id in ChildIds(p.id, |existing|, |kids|) <==> id in IdSeq(kids)
    ensures Invariant(nodes + kids) <==> KidsFit(existing, kids)
  {
    hide SiblingDependencies, KidsNameKids, DepGraph, Cyclic;
    ListedCount(nodes, p, existing);
    GrownTree(nodes, p, kids);
    GrownNumbered(nodes, p, kids, |existing|, |kids|);
    GrownSiblings(nodes, p, kids, existing);
    GrownSplits(nodes, p, kids);
    SiblingGraphIsClosed(nodes);
    GrownGraph(nodes, kids);
    ExtensionCycles(DepGraph(nodes + kids), DepGraph(nodes), DepGraph(kids));
  }

  /** The children of a split, under ids of which some still have rows. */
  function Kids(p: Node, cs: seq<Contract>, existing: seq<string>, left: map<string, Node>): (r: seq<Node>)
    ensures |r| == |cs|
  {
    Inherited(NewChildren(p, cs, existing), left)
  }

  lemma {:induction false} KidsAreFresh(
    nodes: seq<Node>, p: Node, cs: seq<Contract>, existing: seq<string>, left: map<string, Node>)
    requires Tree(nodes) && Numbered(nodes) && p in nodes && NumberedKids(nodes, p.id, |existing|)
    ensures FreshKids(nodes, p, Kids(p, cs, existing, left))
    ensures IdSeq(Kids(p, cs, existing, left)) == IdSeq(NewChildren(p, cs, existing))
    ensures forall id :: id in ChildIds(p.id, |existing|, |cs|) <==> id in IdSeq(Kids(p, cs, existing, left))
  {
    hide NewChildren;
    var plain, kids := NewChildren(p, cs, existing), Kids(p, cs, existing, left);
    NewChildrenAreFresh(nodes, p, cs, existing);
    assert IdSeq(kids) == IdSeq(plain);
    forall i, j | 0 <= i < j < |kids| ensures kids[i].id != kids[j].id { assert plain[i].id != plain[j].id; }
    forall k | k in kids ensures k.id !in Ids(nodes) && k.parent == Some(p.id) && k.depth == p.depth + 1 {
      var i :| 0 <= i < |kids| && kids[i] == k;
      assert plain[i] in plain;
    }
  }

  lemma {:induction false} PlainGraphAt(p: Node, cs: seq<Contract>, existing: seq<string>, k: nat)
    requires UniqueIds(NewChildren(p, cs, existing)) && k < |cs|
    ensures var id := ChildIds(p.id, |existing|, |cs|)[k];
      && NewChildren(p, cs, existing)[k].id == id && id in DepGraph(NewChildren(p, cs, existing))
      && id in OwnGraph(cs, p.id, existing)
      && DepGraph(NewChildren(p, cs, existing))[id] == OwnGraph(cs, p.id, existing)[id]
  {
    hide StoredLists, NewChildren, ChildIds;
    var kids := NewChildren(p, cs, existing);
    NewChildAt(p, cs, existing, k);
    assert kids[k] in kids;
    FindMember(kids, kids[k]);
    AfterSplitAt(map[], cs, p.id, existing, k);
  }

  lemma {:induction false} PlainGraph(p: Node, cs: seq<Contract>, existing: seq<string>)
    requires UniqueIds(NewChildren(p, cs, existing))
    ensures DepGraph(NewChildren(p, cs, existing)) == OwnGraph(cs, p.id, existing)
  {
    hide NewChildren, ChildIds, StoredLists;
    var kids, own, ids := NewChildren(p, cs, existing), OwnGraph(cs, p.id, existing), ChildIds(p.id, |existing|, |cs|);
    forall k | 0 <= k < |cs|
      ensures kids[k].id == ids[k] && ids[k] in DepGraph(kids) && ids[k] in own && DepGraph(kids)[ids[k]] == own[ids[k]]
    {
      PlainGraphAt(p, cs, existing, k);
    }
    forall id ensures id in DepGraph(kids) <==> id in own {
      if id in own { var k :| 0 <= k < |ids| && ids[k] == id; }
      if id in DepGraph(kids) {
        var n :| n in kids && n.id == id;
        var k :| 0 <= k < |kids| && kids[k] == n;
      }
    }
    forall id | id in own ensures DepGraph(kids)[id] == own[id] { var k :| 0 <= k < |ids| && ids[k] == id; }
  }

  /** Where no row is left over, the children fit if and only if the split is stored well: every name is one
      the store knows, and no cycle closes. */
  lemma {:induction false} PlainKidsFit(nodes: seq<Node>, p: Node, cs: seq<Contract>, existing: seq<string>)
    requires Tree(nodes) && Numbered(nodes) && p in nodes && Lists(nodes, p.id, existing)
    ensures KidsFit(existing, NewChildren(p, cs, existing)) <==> WellStored(cs, p.id, existing)
  {
    hide Cyclic, StoredSiblings, DepGraph, OwnGraph;
    var kids := NewChildren(p, cs, existing);
    ListedCount(nodes, p, existing);
    NewChildrenAreFresh(nodes, p, cs, existing);
    PlainGraph(p, cs, existing);
    forall k | k in kids ensures k.status == Pending {
      var i :| 0 <= i < |kids| && kids[i] == k;
      NewChildAt(p, cs, existing, i);
    }
    PlainKidsName(p, cs, existing);
  }

  lemma {:induction false} PlainKidsName(p: Node, cs: seq<Contract>, existing: seq<string>)
    ensures KidsNameKids(existing, NewChildren(p, cs, existing)) <==> AllLeadSomewhere(map[], cs, p.id, existing)
  {
    hide StoredSiblings, NewChildren, LeadsSomewhere;
    var kids := NewChildren(p, cs, existing);
    forall i, k | 0 <= i < |cs| && 0 <= k < |cs[i].dependsOn|
      ensures kids[i] in kids && |kids[i].dependsOn| == |cs[i].dependsOn|
      ensures NamesKid(existing, kids, kids[i].dependsOn[k]) <==>
        LeadsSomewhere(map[], cs, p.id, existing, cs[i].dependsOn[k])
    {
      PlainDependency(p, cs, existing, i, k);
    }
    if AllLeadSomewhere(map[], cs, p.id, existing) {
      forall n, d | n in kids && d in n.dependsOn ensures NamesKid(existing, kids, d) {
        var i :| 0 <= i < |kids| && kids[i] == n;
        var k :| 0 <= k < |n.dependsOn| && n.dependsOn[k] == d;
        NewChildAt(p, cs, existing, i);
        StoredSplitAt(AfterStoring(cs, p.id, existing), cs, |cs|, i);
        assert LeadsSomewhere(map[], cs, p.id, existing, cs[i].dependsOn[k]);
      }
    }
  }

  lemma {:induction false} PlainDependency(p: Node, cs: seq<Contract>, existing: seq<string>, i: nat, k: nat)
    requires i < |cs| && k < |cs[i].dependsOn|
    ensures var kids := NewChildren(p, cs, existing);
      && |kids[i].dependsOn| == |cs[i].dependsOn|
      && (NamesKid(existing, kids, kids[i].dependsOn[k]) <==>
            LeadsSomewhere(map[], cs, p.id, existing, cs[i].dependsOn[k]))
  {
    hide StoredSiblings, NewChildren;
    var kids, dep := NewChildren(p, cs, existing), cs[i].dependsOn[k];
    NewChildAt(p, cs, existing, i);
    StoredSplitAt(AfterStoring(cs, p.id, existing), cs, |cs|, i);
    KidIds(p, cs, existing, kids[i].dependsOn[k]);
    var m := Meaning(AfterStoring(cs, p.id, existing), dep);
    if m.Some? {
      MeantIsChild(cs, p.id, existing, dep, m.value);
    } else {
      UnmeantIsNoChild(cs, p.id, existing, dep);
    }
  }

  lemma {:induction false} KidIds(p: Node, cs: seq<Contract>, existing: seq<string>, d: string)
    ensures (exists k :: k in NewChildren(p, cs, existing) && k.id == d) <==> d in ChildIds(p.id, |existing|, |cs|)
  {
    hide NewChildren;
    var kids, ids := NewChildren(p, cs, existing), ChildIds(p.id, |existing|, |cs|);
    forall i | 0 <= i < |cs| ensures kids[i] in kids && kids[i].id == ids[i] { NewChildAt(p, cs, existing, i); }
    if k :| k in kids && k.id == d { var i :| 0 <= i < |kids| && kids[i] == k; }
    if d in ids { var i :| 0 <= i < |ids| && ids[i] == d; }
  }

  /** What the validator accepts under tidy names fits, wherever no row is left over. */
  lemma {:induction false} TidySplitFits(
    nodes: seq<Node>, p: Node, cs: seq<Contract>, existing: seq<string>, left: map<string, Node>)
    requires Invariant(nodes) && p in nodes && Lists(nodes, p.id, existing)
    requires Accepted(cs, existing) && Tidy(cs, p.id, existing)
    requires forall id | id in ChildIds(p.id, |existing|, |cs|) :: id !in left
    ensures KidsFit(existing, Kids(p, cs, existing, left))
  {
    hide Accepted, Tidy, KidsFit, NewChildren, WellStored, Cyclic, SiblingDependencies;
    ListedIdsArePlain(nodes, p, existing);
    ListedCount(nodes, p, existing);
    NewChildrenAreFresh(nodes, p, cs, existing);
    forall id | id in ChildIds(p.id, |existing|, |cs|) ensures id !in existing {
      NextIdsAreFresh(nodes, p.id, |existing|, id, |cs|);
      assert HasChildCalled(nodes, p.id, id) ==> id in Ids(nodes);
    }
    TidyIsWellStored(cs, p.id, existing);
    PlainKidsFit(nodes, p, cs, existing);
    KidsNotLeft(p, cs, existing, left);
  }

  lemma {:induction false} KidsNotLeft(p: Node, cs: seq<Contract>, existing: seq<string>, left: map<string, Node>)
    requires forall id | id in ChildIds(p.id, |existing|, |cs|) :: id !in left
    ensures Kids(p, cs, existing, left) == NewChildren(p, cs, existing)
  {
    var kids := NewChildren(p, cs, existing);
    forall k | k in kids ensures k.id !in left {
      KidIds(p, cs, existing, k.id);
    }
    NothingInherited(kids, left);
  }

  // ---- Replans ----

  lemma {:induction false} CycleOfSubgraph(g: Digraph, h: Digraph, c: seq<string>)
    requires IsCycle(h, c) && forall k | k in h :: k in g && (h[k] == g[k] || h[k] == [])
    ensures IsCycle(g, c)
  {
    forall k | 0 <= k < |c| - 1 ensures Hop(g, c, k) { assert Hop(h, c, k); }
  }

  lemma {:induction false} SubgraphIsAcyclic(g: Digraph, h: Digraph)
    requires !Cyclic(g) && forall k | k in h :: k in g && (h[k] == g[k] || h[k] == [])
    ensures !Cyclic(h)
  {
    if c :| IsCycle(h, c) { CycleOfSubgraph(g, h, c); }
  }

  lemma {:induction false} FilterKeepsHead(nodes: seq<Node>, p: Node -> bool)
    requires nodes != [] && p(nodes[0])
    ensures Filter(nodes, p) != [] && Filter(nodes, p)[0] == nodes[0]
  {
    if |nodes| > 1 { FilterKeepsHead(nodes[..|nodes| - 1], p); }
  }

  /** `n` lies below `x`: its parent is `x` or lies below it. */
  predicate LiesBelow(nodes: seq<Node>, n: Node, x: string)
    decreases n.depth
  {
    && n.parent.Some?
    && (n.parent.value == x
        || var p := Find(nodes, n.parent.value);
           p.Some? && p.value.depth < n.depth && LiesBelow(nodes, p.value, x))
  }

  function BelowIds(nodes: seq<Node>, x: string): set<string> {
    set n | n in nodes && LiesBelow(nodes, n, x) :: n.id
  }

  function WithoutIds(nodes: seq<Node>, gone: set<string>): seq<Node> {
    Filter(nodes, (n: Node) => n.id !in gone)
  }

  /** The tree once the directories of `x`'s children, and so everything below `x`, are deleted. */
  function WithoutBelow(nodes: seq<Node>, x: string): seq<Node> {
    WithoutIds(nodes, BelowIds(nodes, x))
  }

  lemma {:induction false} BelowMember(nodes: seq<Node>, n: Node, x: string)
    requires UniqueIds(nodes) && n in nodes
    ensures n.id in BelowIds(nodes, x) <==> LiesBelow(nodes, n, x)
  {
    if n.id in BelowIds(nodes, x) {
      var m :| m in nodes && LiesBelow(nodes, m, x) && m.id == n.id;
      FindMember(nodes, m);
      FindMember(nodes, n);
    }
  }

  /** A node is deleted exactly when its parent is `x` or is deleted. */
  lemma {:induction false} GoneWithParent(nodes: seq<Node>, n: Node, x: string)
    requires Tree(nodes) && n in nodes
    ensures n.id in BelowIds(nodes, x)
       <==> n.parent.Some? && (n.parent.value == x || n.parent.value in BelowIds(nodes, x))
  {
    BelowMember(nodes, n, x);
    var i :| 0 <= i < |nodes| && nodes[i] == n;
    if i > 0 {
      assert ParentInTree(nodes, nodes[i]);
      var p :| p in nodes && p.id == n.parent.value && n.depth == p.depth + 1;
      FindMember(nodes, p);
      BelowMember(nodes, p, x);
    }
  }

  lemma {:induction false} PrunedTree(nodes: seq<Node>, x: string)
    requires Tree(nodes)
    ensures Tree(WithoutBelow(nodes, x)) && WithoutBelow(nodes, x)[0] == nodes[0]
  {
    var r, gone := WithoutBelow(nodes, x), BelowIds(nodes, x);
    GoneWithParent(nodes, nodes[0], x);
    FilterKeepsUnique(nodes, (n: Node) => n.id !in gone);
    FilterKeepsHead(nodes, (n: Node) => n.id !in gone);
    forall i | 0 < i < |r| ensures ParentInTree(r, r[i]) {
      assert r[i] in nodes && r[i].id != r[0].id;
      var j :| 0 <= j < |nodes| && nodes[j] == r[i];
      assert ParentInTree(nodes, nodes[j]);
      var p :| p in nodes && p.id == r[i].parent.value && r[i].depth == p.depth + 1;
      GoneWithParent(nodes, r[i], x);
      assert p in r;
    }
  }

  lemma {:induction false} PrunedGraph(nodes: seq<Node>, x: string)
    requires Tree(nodes) && SiblingDependencies(nodes) && !Cyclic(DepGraph(nodes))
    ensures SiblingDependencies(WithoutBelow(nodes, x)) && !Cyclic(DepGraph(WithoutBelow(nodes, x)))
  {
    var r := WithoutBelow(nodes, x);
    PrunedTree(nodes, x);
    forall n, d | n in r && d in n.dependsOn ensures NamesSibling(r, n, d) {
      assert NamesSibling(nodes, n, d);
      var m :| m in nodes && m.id == d && m.parent == n.parent;
      GoneWithParent(nodes, n, x);
      GoneWithParent(nodes, m, x);
      assert m in r;
    }
    forall id | id in Ids(r) ensures id in DepGraph(nodes) && DepGraph(r)[id] == DepGraph(nodes)[id] {
      var n :| n in r && n.id == id;
      FindMember(r, n);
      FindMember(nodes, n);
    }
    SubgraphIsAcyclic(DepGraph(nodes), DepGraph(r));
  }

  /** A node that stays, other than `x`, keeps its children. */
  lemma {:induction false} ChildrenStay(nodes: seq<Node>, x: string, n: Node, c: Node)
    requires Tree(nodes) && n in WithoutBelow(nodes, x) && n.id != x && c in nodes && IsChild(c, n.id)
    ensures c in WithoutBelow(nodes, x)
  {
    GoneWithParent(nodes, c, x);
  }

  lemma {:induction false} PrunedNumbered(nodes: seq<Node>, x: string)
    requires Tree(nodes) && Numbered(nodes)
    ensures Numbered(WithoutBelow(nodes, x))
  {
    var r := WithoutBelow(nodes, x);
    PrunedTree(nodes, x);
    forall n | n in r ensures KidsNumbered(r, n.id) {
      if n.id == x {
        forall c | c in r ensures !IsChild(c, x) { GoneWithParent(nodes, c, x); }
        assert NumberedKids(r, n.id, 0);
      } else {
        assert KidsNumbered(nodes, n.id);
        var e :| NumberedKids(nodes, n.id, e);
        forall id | id in ChildIds(n.id, 0, e) ensures HasChildCalled(r, n.id, id) {
          assert HasChildCalled(nodes, n.id, id);
          var c :| c in nodes && IsChild(c, n.id) && c.id == id;
          ChildrenStay(nodes, x, n, c);
        }
        assert NumberedKids(r, n.id, e);
      }
    }
  }

  /** `replan_branch`: deleting everything below a node and returning it to pending keeps the invariant. */
  lemma {:induction false} PruningKeepsInvariant(nodes: seq<Node>, x: string)
    requires Invariant(nodes)
    ensures Invariant(Marked(WithoutBelow(nodes, x), {x}, Pending))
  {
    hide SiblingDependencies, Numbered, DepGraph, Cyclic;
    var r := WithoutBelow(nodes, x);
    var after := Marked(r, {x}, Pending);
    PrunedTree(nodes, x);
    PrunedGraph(nodes, x);
    PrunedNumbered(nodes, x);
    forall n | n in after && n.status == Split ensures HasChild(r, n.id) {
      var i :| 0 <= i < |after| && after[i] == n;
      assert r[i] in r && r[i] in nodes;
      var c :| c in nodes && IsChild(c, n.id);
      ChildrenStay(nodes, x, n, c);
    }
    RestatedKeepsInvariant(r, after);
  }

  // ---- Runs ----

  /** One event. `again` is the set of ids put back to pending, `existing` the parent's children as read
      from its directory, `left` the rows that outlived their directories. `Turn` is any other change of one
      status: a node starts to run, fails, is suspended, resumed or returned to pending. */
  datatype Step =
    | Finish(id: string, fps: map<string, string>)
    | Grow(id: string, cs: seq<Contract>, existing: seq<string>, left: map<string, Node>)
    | Reopen(id: string, again: set<string>)
    | Retry(again: set<string>)
    | Replan(id: string)
    | Turn(id: string, status: Status)

  function Accept(nodes: seq<Node>, id: string, fps: map<string, string>): (r: seq<Node>)
    ensures |r| == |nodes|
    ensures forall i | 0 <= i < |nodes| ::
      r[i] == if nodes[i].id == id then nodes[i].(status := Complete, depFp := fps) else nodes[i]
  {
    seq(|nodes|, i requires 0 <= i < |nodes| =>
      if nodes[i].id == id then nodes[i].(status := Complete, depFp := fps) else nodes[i])
  }

  /** What may happen next: a node finishes that has been selected, at once or after it was set running; the
      children of a split fit; only a node with children is split again by a reopening or a resumption. */
  ghost predicate Enabled(nodes: seq<Node>, stale: set<string>, step: Step) {
    match step
    case Finish(id, _) => exists n :: n in nodes && n.id == id && (n in NextNodes(nodes, stale) || n.status == Running)
    case Grow(id, cs, existing, left) =>
      && id in Ids(nodes) && cs != [] && Lists(nodes, id, existing)
      && KidsFit(existing, Kids(Find(nodes, id).value, cs, existing, left))
    case Reopen(id, again) => HasChild(nodes, id)
    case Retry(again) => true
    case Replan(id) => true
    case Turn(id, status) => status != Complete && (status == Split ==> HasChild(nodes, id))
  }

  ghost function After(nodes: seq<Node>, step: Step): seq<Node>
    requires step.Grow? ==> step.id in Ids(nodes)
  {
    match step
    case Finish(id, fps) => Accept(nodes, id, fps)
    case Grow(id, cs, existing, left) => Marked(nodes + Kids(Find(nodes, id).value, cs, existing, left), {id}, Split)
    case Reopen(id, again) => Marked(Marked(nodes, again, Pending), {id}, Split)
    case Retry(again) => Marked(nodes, again, Pending)
    case Replan(id) => Marked(WithoutBelow(nodes, id), {id}, Pending)
    case Turn(id, status) => Marked(nodes, {id}, status)
  }

  lemma {:induction false} MarkKeepsInvariant(nodes: seq<Node>, ids: set<string>, status: Status)
    requires Invariant(nodes) && (status == Split ==> forall id | id in ids :: HasChild(nodes, id))
    ensures Invariant(Marked(nodes, ids, status))
  {
    RestatedKeepsInvariant(nodes, Marked(nodes, ids, status));
  }

  lemma {:induction false} GrowKeepsInvariant(
    nodes: seq<Node>, p: Node, cs: seq<Contract>, existing: seq<string>, left: map<string, Node>)
    requires Invariant(nodes) && p in nodes && cs != [] && Lists(nodes, p.id, existing)
    requires KidsFit(existing, Kids(p, cs, existing, left))
    ensures Invariant(Marked(nodes + Kids(p, cs, existing, left), {p.id}, Split))
  {
    hide Lists, HasChild, KidsFit, Kids, Sound, FreshKids, Numbered, ChildIds;
    var kids := Kids(p, cs, existing, left);
    SoundIsTree(nodes);
    ListedCount(nodes, p, existing);
    KidsAreFresh(nodes, p, cs, existing, left);
    GrowthKeepsInvariant(nodes, p, kids, existing);
    HasNewChild(nodes, p, kids);
    MarkKeepsInvariant(nodes + kids, {p.id}, Split);
  }

  lemma {:induction false} SoundIsTree(nodes: seq<Node>)
    requires Sound(nodes)
    ensures Tree(nodes)
  {
  }

  lemma {:induction false} HasNewChild(nodes: seq<Node>, p: Node, kids: seq<Node>)
    requires FreshKids(nodes, p, kids) && kids != []
    ensures HasChild(nodes + kids, p.id)
  {
    assert kids[0] in kids && kids[0] in nodes + kids && IsChild(kids[0], p.id);
  }

  lemma {:induction false} RestatedChild(nodes: seq<Node>, r: seq<Node>, id: string)
    requires Restated(nodes, r) && HasChild(nodes, id)
    ensures HasChild(r, id)
  {
    var c :| c in nodes && IsChild(c, id);
    var c' := RestatedMember(nodes, r, c);
    assert IsChild(c', id);
  }

  lemma {:induction false} ReopenKeepsInvariant(nodes: seq<Node>, id: string, again: set<string>)
    requires Invariant(nodes) && HasChild(nodes, id)
    ensures Invariant(Marked(Marked(nodes, again, Pending), {id}, Split))
  {
    hide Invariant, HasChild;
    MarkKeepsInvariant(nodes, again, Pending);
    RestatedChild(nodes, Marked(nodes, again, Pending), id);
    MarkKeepsInvariant(Marked(nodes, again, Pending), {id}, Split);
  }

  lemma {:induction false} FinishKeepsInvariant(nodes: seq<Node>, id: string, fps: map<string, string>)
    requires Invariant(nodes)
    ensures Invariant(Accept(nodes, id, fps))
  {
    RestatedKeepsInvariant(nodes, Accept(nodes, id, fps));
  }

  /** Every step, failures and suspensions included, keeps the tree sound and its ids fresh. */
  lemma {:induction false} StepKeepsInvariant(nodes: seq<Node>, stale: set<string>, step: Step)
    requires Invariant(nodes) && Enabled(nodes, stale, step)
    ensures Invariant(After(nodes, step))
  {
    hide Invariant, HasChild, Lists, KidsFit, Kids;
    match step
    case Finish(id, fps) => FinishKeepsInvariant(nodes, id, fps);
    case Grow(id, cs, existing, left) => GrowKeepsInvariant(nodes, Find(nodes, id).value, cs, existing, left);
    case Reopen(id, again) => ReopenKeepsInvariant(nodes, id, again);
    case Retry(again) => MarkKeepsInvariant(nodes, again, Pending);
    case Replan(id) => PruningKeepsInvariant(nodes, id);
    case Turn(id, status) => MarkKeepsInvariant(nodes, {id}, status);
  }

  function Initial(): seq<Node> {
    [Node(ROOT, None, 1, Pending, [], map[])]
  }

  /** What a replan deletes from disk but not from the index: everything below the children themselves
      (`Leftovers.ReplanLeaves`). */
  function Orphans(nodes: seq<Node>, x: string): set<string> {
    set n | n in nodes && LiesBelow(nodes, n, x) && !IsChild(n, x) :: n.id
  }

  function OrphanRows(nodes: seq<Node>, x: string): map<string, Node> {
    map id | id in Orphans(nodes, x) && Find(nodes, id).Some? :: Find(nodes, id).value
  }

  /** The rows without a directory after the first `n` steps: a replan leaves some, a split takes up those
      under its ids. */
  ghost function LeftRows(states: seq<seq<Node>>, steps: seq<Step>, n: nat): map<string, Node>
    requires n <= |steps| < |states|
    decreases n
  {
    if n == 0 then map[]
    else
      var before := LeftRows(states, steps, n - 1);
      match steps[n - 1]
      case Replan(id) => before + OrphanRows(states[n - 1], id)
      case Grow(id, cs, existing, _) => before - (set x | x in ChildIds(id, |existing|, |cs|))
      case _ => before
  }

  /** A split meets exactly the rows that are there. */
  ghost predicate MeetsRows(states: seq<seq<Node>>, steps: seq<Step>, i: nat)
    requires i < |steps| < |states|
  {
    steps[i].Grow? ==> steps[i].left == LeftRows(states, steps, i)
  }

  ghost predicate IsRun(states: seq<seq<Node>>, stales: seq<set<string>>, steps: seq<Step>) {
    && |states| == |steps| + 1 == |stales| && states[0] == Initial()
    && forall i | 0 <= i < |steps| :: Follows(states, stales, steps, i) && MeetsRows(states, steps, i)
  }

  ghost predicate Follows(states: seq<seq<Node>>, stales: seq<set<string>>, steps: seq<Step>, i: nat)
    requires i < |steps| < |states| && |steps| < |stales|
  {
    Enabled(states[i], stales[i], steps[i]) && states[i + 1] == After(states[i], steps[i])
  }

  lemma {:induction false} InitialIsFine()
    ensures Invariant(Initial())
  {
    var nodes := Initial();
    assert nodes[0] in nodes;
    assert forall n | n in nodes :: n == nodes[0];
    assert NumberedKids(nodes, ROOT, 0);
    var g := DepGraph(nodes);
    FindMember(nodes, nodes[0]);
    assert Topological(g, [ROOT]);
    OrderedIsAcyclic(g, [ROOT]);
  }

  /** The first node of a run is its root, the one node there is. */
  lemma {:induction false} RunsStartAtTheRoot()
    ensures NextNodes(Initial(), {}) == Initial() && |Initial()| == 1
    ensures Initial()[0].id == "root" && Initial()[0].parent == None && Initial()[0].depth == 1
  {
    var nodes := Initial();
    var n := nodes[0];
    assert n in nodes && PendingTier(nodes, {}) == [n] && StaleTier(nodes, {}) == [] by {
      assert nodes[..0] == [];
    }
    assert DeepestFirst([n]) == [n] by { assert [n][..0] == []; }
  }

  lemma {:induction false} RunStep(states: seq<seq<Node>>, stales: seq<set<string>>, steps: seq<Step>, i: nat)
    requires IsRun(states, stales, steps)
    ensures |states| == |steps| + 1 == |stales| && states[0] == Initial()
    ensures i < |steps| ==> Enabled(states[i], stales[i], steps[i]) && states[i + 1] == After(states[i], steps[i])
  {
    hide Enabled, After, MeetsRows;
    assert i < |steps| ==> Follows(states, stales, steps, i);
  }

  lemma {:induction false} EveryStateIsFine(states: seq<seq<Node>>, stales: seq<set<string>>, steps: seq<Step>, i: nat)
    requires IsRun(states, stales, steps) && i < |states|
    ensures Invariant(states[i])
  {
    hide Invariant, Enabled, After, IsRun;
    if i == 0 {
      RunStep(states, stales, steps, 0);
      InitialIsFine();
    } else {
      EveryStateIsFine(states, stales, steps, i - 1);
      RunStep(states, stales, steps, i - 1);
      StepKeepsInvariant(states[i - 1], stales[i - 1], steps[i - 1]);
    }
  }

  /** Along every run, whatever goes stale, fails or is suspended: ids stay distinct and dependencies
      acyclic. The scheduler selects nothing only if everything is complete and fresh or some node is
      failed, suspended or running; and where no node is any of these, it selects nothing exactly then. */
  lemma {:induction false} EveryRunProgresses(
    states: seq<seq<Node>>, stales: seq<set<string>>, steps: seq<Step>, i: nat)
    requires IsRun(states, stales, steps) && i < |states|
    ensures UniqueIds(states[i]) && !Cyclic(DepGraph(states[i]))
    ensures NextNodes(states[i], stales[i]) == [] ==> Finished(states[i], stales[i]) || !Live(states[i])
    ensures Live(states[i]) ==> (NextNodes(states[i], stales[i]) == [] <==> Finished(states[i], stales[i]))
  {
    EveryStateIsFine(states, stales, steps, i);
    if Live(states[i]) { NoDeadlock(states[i], stales[i]); }
  }
}

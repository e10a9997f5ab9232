/** `next_nodes` (src/scheduler.rs): stale nodes first, then runnable pending ones,
    then parents whose children are all accepted. */
module Selection {
  import opened Text
  import opened Nodes
  import opened Graph

  /** `sort_by_key(Reverse(depth))`: a stable sort, deepest first. */
  function Insert(n: Node, sorted: seq<Node>): (r: seq<Node>) {
    if sorted == [] || sorted[|sorted| - 1].depth >= n.depth then sorted + [n]
    else Insert(n, sorted[..|sorted| - 1]) + [sorted[|sorted| - 1]]
  }

  function DeepestFirst(nodes: seq<Node>): seq<Node> {
    if nodes == [] then [] else Insert(nodes[|nodes| - 1], DeepestFirst(nodes[..|nodes| - 1]))
  }

  ghost predicate Descending(nodes: seq<Node>) {
    forall i, j | 0 <= i < j < |nodes| :: nodes[i].depth >= nodes[j].depth
  }

  /** The nodes of one depth, in order. */
  function AtDepth(nodes: seq<Node>, d: nat): seq<Node> {
    if nodes == [] then []
    else
      AtDepth(nodes[..|nodes| - 1], d)
      + if nodes[|nodes| - 1].depth == d then [nodes[|nodes| - 1]] else []
  }

  lemma {:induction false} AtDepthSnoc(nodes: seq<Node>, n: Node, d: nat)
    ensures AtDepth(nodes + [n], d) == AtDepth(nodes, d) + if n.depth == d then [n] else []
  {
    assert (nodes + [n])[..|nodes|] == nodes;
  }

  lemma {:induction false} InsertMembers(n: Node, sorted: seq<Node>)
    ensures forall m | m in Insert(n, sorted) :: m == n || m in sorted
  {
    if !(sorted == [] || sorted[|sorted| - 1].depth >= n.depth) {
      InsertMembers(n, sorted[..|sorted| - 1]);
    }
  }

  lemma {:induction false} InsertPermutes(n: Node, sorted: seq<Node>)
    ensures multiset(Insert(n, sorted)) == multiset(sorted) + multiset{n}
  {
    if !(sorted == [] || sorted[|sorted| - 1].depth >= n.depth) {
      var front, last := sorted[..|sorted| - 1], sorted[|sorted| - 1];
      InsertPermutes(n, front);
      assert sorted == front + [last];
    }
  }

  lemma {:induction false} InsertSorts(n: Node, sorted: seq<Node>)
    requires Descending(sorted)
    ensures Descending(Insert(n, sorted))
  {
    if !(sorted == [] || sorted[|sorted| - 1].depth >= n.depth) {
      var front, last := sorted[..|sorted| - 1], sorted[|sorted| - 1];
      InsertSorts(n, front);
      InsertMembers(n, front);
      var r := Insert(n, front);
      forall i | 0 <= i < |r| ensures r[i].depth >= last.depth {
        assert r[i] in r;
      }
    }
  }

  lemma {:induction false} InsertIsStable(n: Node, sorted: seq<Node>, d: nat)
    requires Descending(sorted)
    ensures AtDepth(Insert(n, sorted), d) == AtDepth(sorted, d) + if n.depth == d then [n] else []
  {
    if sorted == [] || sorted[|sorted| - 1].depth >= n.depth {
      AtDepthSnoc(sorted, n, d);
    } else {
      var front, last := sorted[..|sorted| - 1], sorted[|sorted| - 1];
      InsertIsStable(n, front, d);
      AtDepthSnoc(Insert(n, front), last, d);
      if n.depth == d { ShallowerAbsent(front, last, d); }
    }
  }

  lemma {:induction false} ShallowerAbsent(front: seq<Node>, last: Node, d: nat)
    requires last.depth < d
    ensures AtDepth(front + [last], d) == AtDepth(front, d)
  {
    AtDepthSnoc(front, last, d);
  }

  /** The sort permutes, puts deeper nodes first, and keeps the order within a depth. */
  lemma {:induction false} DeepestFirstIsStableSort(nodes: seq<Node>, d: nat)
    ensures multiset(DeepestFirst(nodes)) == multiset(nodes) && Descending(DeepestFirst(nodes))
    ensures AtDepth(DeepestFirst(nodes), d) == AtDepth(nodes, d)
  {
    if nodes != [] {
      var front := nodes[..|nodes| - 1];
      assert nodes == front + [nodes[|nodes| - 1]];
      DeepestFirstIsStableSort(front, d);
      InsertPermutes(nodes[|nodes| - 1], DeepestFirst(front));
      InsertSorts(nodes[|nodes| - 1], DeepestFirst(front));
      InsertIsStable(nodes[|nodes| - 1], DeepestFirst(front), d);
    }
  }

  predicate DepsSatisfied(n: Node, nodes: seq<Node>, stale: set<string>) {
    forall k | 0 <= k < |n.dependsOn| ::
      var dep := Find(nodes, n.dependsOn[k]);
      dep.Some? && dep.value.status == Complete && dep.value.id !in stale
  }

  predicate Aggregatable(n: Node, nodes: seq<Node>, stale: set<string>) {
    var children := Children(nodes, n.id);
    children != [] && forall k | 0 <= k < |children| :: children[k].status == Complete && children[k].id !in stale
  }

  function StaleTier(nodes: seq<Node>, stale: set<string>): seq<Node> {
    Filter(nodes, (n: Node) => n.id in stale)
  }

  function PendingTier(nodes: seq<Node>, stale: set<string>): seq<Node> {
    Filter(nodes, (n: Node) => n.status == Pending && DepsSatisfied(n, nodes, stale))
  }

  function AggregateTier(nodes: seq<Node>, stale: set<string>): seq<Node> {
    Filter(nodes, (n: Node) => n.status == Split && Aggregatable(n, nodes, stale))
  }

  function NextNodes(nodes: seq<Node>, stale: set<string>): seq<Node> {
    if StaleTier(nodes, stale) != [] then DeepestFirst(StaleTier(nodes, stale))
    else if PendingTier(nodes, stale) != [] then DeepestFirst(PendingTier(nodes, stale))
    else AggregateTier(nodes, stale)
  }

  /** Who is selected: only nodes of the first non-empty tier. */
  lemma {:induction false} SelectedMeans(nodes: seq<Node>, stale: set<string>, n: Node)
    ensures n in NextNodes(nodes, stale) <==>
      if StaleTier(nodes, stale) != [] then n in nodes && n.id in stale
      else if PendingTier(nodes, stale) != [] then n in nodes && n.status == Pending && DepsSatisfied(n, nodes, stale)
      else n in nodes && n.status == Split && Aggregatable(n, nodes, stale)
  {
    var tier := if StaleTier(nodes, stale) != [] then StaleTier(nodes, stale) else PendingTier(nodes, stale);
    DeepestFirstIsStableSort(tier, 0);
    assert n in DeepestFirst(tier) <==> n in multiset(DeepestFirst(tier));
    assert n in tier <==> n in multiset(tier);
  }

  /** A pending node with every dependency a node of the tree that is completed and not stale. */
  ghost predicate Ready(nodes: seq<Node>, stale: set<string>, n: Node) {
    && n.status == Pending
    && forall d | d in n.dependsOn :: d !in stale && exists m :: m in nodes && m.id == d && m.status == Complete
  }

  /** A split node that has a child, with every child completed and not stale. */
  ghost predicate Joined(nodes: seq<Node>, stale: set<string>, n: Node) {
    && n.status == Split && (exists c :: c in nodes && c.parent == Some(n.id))
    && forall c | c in nodes && c.parent == Some(n.id) :: c.status == Complete && c.id !in stale
  }

  lemma {:induction false} SatisfiedIsReady(nodes: seq<Node>, stale: set<string>, n: Node)
    requires UniqueIds(nodes)
    ensures n.status == Pending && DepsSatisfied(n, nodes, stale) <==> Ready(nodes, stale, n)
  {
    if n.status == Pending && DepsSatisfied(n, nodes, stale) {
      forall d | d in n.dependsOn
        ensures d !in stale && exists m :: m in nodes && m.id == d && m.status == Complete
      {
        var k :| 0 <= k < |n.dependsOn| && n.dependsOn[k] == d;
        assert Find(nodes, n.dependsOn[k]).value in nodes;
      }
    }
    if Ready(nodes, stale, n) {
      forall k | 0 <= k < |n.dependsOn|
        ensures var dep := Find(nodes, n.dependsOn[k]);
          dep.Some? && dep.value.status == Complete && dep.value.id !in stale
      {
        assert n.dependsOn[k] in n.dependsOn;
        var m :| m in nodes && m.id == n.dependsOn[k] && m.status == Complete;
        FindMember(nodes, m);
      }
    }
  }

  lemma {:induction false} AggregatableIsJoined(nodes: seq<Node>, stale: set<string>, n: Node)
    ensures n.status == Split && Aggregatable(n, nodes, stale) <==> Joined(nodes, stale, n)
  {
    var children := Children(nodes, n.id);
    assert forall c :: c in children <==> c in nodes && c.parent == Some(n.id);
    assert children != [] ==> children[0] in children;
    if Aggregatable(n, nodes, stale) {
      forall c | c in nodes && c.parent == Some(n.id) ensures c.status == Complete && c.id !in stale {
        var k :| 0 <= k < |children| && children[k] == c;
      }
    }
  }

  /** Who is selected, in terms of the tree alone. While some node is stale: the stale ones. Otherwise, while
      some pending node has all its dependencies completed: those. Otherwise: the split nodes that have children
      and whose children are all completed. */
  lemma {:induction false} SelectionMeans(nodes: seq<Node>, stale: set<string>, n: Node)
    requires UniqueIds(nodes)
    ensures n in NextNodes(nodes, stale) <==>
      n in nodes &&
        if exists s :: s in nodes && s.id in stale then n.id in stale
        else if exists p :: p in nodes && Ready(nodes, stale, p) then Ready(nodes, stale, n)
        else Joined(nodes, stale, n)
  {
    SelectedMeans(nodes, stale, n);
    TiersMean(nodes, stale);
    hide NextNodes, Ready, Joined, DepsSatisfied, Aggregatable, StaleTier, PendingTier;
    SatisfiedIsReady(nodes, stale, n);
    AggregatableIsJoined(nodes, stale, n);
  }

  lemma {:induction false} TiersMean(nodes: seq<Node>, stale: set<string>)
    requires UniqueIds(nodes)
    ensures StaleTier(nodes, stale) != [] <==> exists s :: s in nodes && s.id in stale
    ensures PendingTier(nodes, stale) != [] <==> exists p :: p in nodes && Ready(nodes, stale, p)
  {
    var first, second := StaleTier(nodes, stale), PendingTier(nodes, stale);
    assert first != [] ==> first[0] in first;
    assert second != [] ==> second[0] in second;
    if s :| s in nodes && s.id in stale { assert s in first; }
    forall p | p in nodes ensures p in second <==> Ready(nodes, stale, p) {
      SatisfiedIsReady(nodes, stale, p);
    }
  }

  // ---- In which order ----

  /** Two entries of one depth stand as they stand in `nodes`. */
  ghost predicate KeepsOrder(chosen: seq<Node>, nodes: seq<Node>, i: nat, j: nat)
    requires i < |chosen| && j < |chosen|
  {
    exists a, b :: 0 <= a < b < |nodes| && nodes[a] == chosen[i] && nodes[b] == chosen[j]
  }

  lemma {:induction false} FilterKeepsOrder(nodes: seq<Node>, p: Node -> bool, i: nat, j: nat)
    requires i < j < |Filter(nodes, p)|
    ensures KeepsOrder(Filter(nodes, p), nodes, i, j)
  {
    var front, chosen := nodes[..|nodes| - 1], Filter(nodes, p);
    if j < |Filter(front, p)| {
      FilterKeepsOrder(front, p, i, j);
      var a, b :| 0 <= a < b < |front| && front[a] == chosen[i] && front[b] == chosen[j];
      assert nodes[a] == chosen[i] && nodes[b] == chosen[j];
    } else {
      assert chosen[i] in Filter(front, p);
      var a :| 0 <= a < |front| && front[a] == chosen[i];
      assert nodes[a] == chosen[i] && nodes[|nodes| - 1] == chosen[j];
    }
  }

  lemma {:induction false} FilterFinds(nodes: seq<Node>, p: Node -> bool, i: nat, j: nat)
    requires i < j < |nodes| && p(nodes[i]) && p(nodes[j])
    ensures exists a, b ::
      0 <= a < b < |Filter(nodes, p)| && Filter(nodes, p)[a] == nodes[i] && Filter(nodes, p)[b] == nodes[j]
  {
    var front, chosen := nodes[..|nodes| - 1], Filter(nodes, p);
    if j < |front| {
      FilterFinds(front, p, i, j);
      var a, b :| 0 <= a < b < |Filter(front, p)| && Filter(front, p)[a] == nodes[i] && Filter(front, p)[b] == nodes[j];
      assert chosen[a] == nodes[i] && chosen[b] == nodes[j];
    } else {
      assert front[i] in Filter(front, p);
      var a :| 0 <= a < |Filter(front, p)| && Filter(front, p)[a] == nodes[i];
      assert chosen[a] == nodes[i] && chosen[|chosen| - 1] == nodes[j];
    }
  }

  lemma {:induction false} AtDepthIsFilter(nodes: seq<Node>, d: nat, p: Node -> bool)
    requires forall n :: p(n) <==> n.depth == d
    ensures AtDepth(nodes, d) == Filter(nodes, p)
  {
    if nodes != [] { AtDepthIsFilter(nodes[..|nodes| - 1], d, p); }
  }

  lemma {:induction false} SortKeepsOrder(nodes: seq<Node>, i: nat, j: nat)
    requires i < j < |DeepestFirst(nodes)| && DeepestFirst(nodes)[i].depth == DeepestFirst(nodes)[j].depth
    ensures KeepsOrder(DeepestFirst(nodes), nodes, i, j)
  {
    var sorted := DeepestFirst(nodes);
    var d := sorted[i].depth;
    var p := (n: Node) => n.depth == d;
    DeepestFirstIsStableSort(nodes, d);
    AtDepthIsFilter(nodes, d, p);
    AtDepthIsFilter(sorted, d, p);
    FilterFinds(sorted, p, i, j);
    var level := Filter(sorted, p);
    var a, b :| 0 <= a < b < |level| && level[a] == sorted[i] && level[b] == sorted[j];
    FilterKeepsOrder(nodes, p, a, b);
  }

  lemma {:induction false} SortedFilterKeepsOrder(nodes: seq<Node>, p: Node -> bool, i: nat, j: nat)
    requires i < j < |DeepestFirst(Filter(nodes, p))|
    requires DeepestFirst(Filter(nodes, p))[i].depth == DeepestFirst(Filter(nodes, p))[j].depth
    ensures KeepsOrder(DeepestFirst(Filter(nodes, p)), nodes, i, j)
  {
    var tier := Filter(nodes, p);
    SortKeepsOrder(tier, i, j);
    var a, b :| 0 <= a < b < |tier| && tier[a] == DeepestFirst(tier)[i] && tier[b] == DeepestFirst(tier)[j];
    FilterKeepsOrder(nodes, p, a, b);
  }

  lemma {:induction false} SortedTierOrder(nodes: seq<Node>, p: Node -> bool, i: nat, j: nat)
    requires i < j < |DeepestFirst(Filter(nodes, p))|
    ensures var next := DeepestFirst(Filter(nodes, p));
      next[i].depth >= next[j].depth && (next[i].depth == next[j].depth ==> KeepsOrder(next, nodes, i, j))
  {
    DeepestFirstIsStableSort(Filter(nodes, p), 0);
    if DeepestFirst(Filter(nodes, p))[i].depth == DeepestFirst(Filter(nodes, p))[j].depth {
      SortedFilterKeepsOrder(nodes, p, i, j);
    }
  }

  /** In which order: stale and pending nodes come deepest first, those of one depth in the order of the tree;
      parents to aggregate come in the order of the tree. */
  lemma {:induction false} SelectionOrder(nodes: seq<Node>, stale: set<string>, i: nat, j: nat)
    requires UniqueIds(nodes) && i < j < |NextNodes(nodes, stale)|
    ensures var next := NextNodes(nodes, stale);
      if exists n :: n in nodes && (n.id in stale || Ready(nodes, stale, n))
      then next[i].depth >= next[j].depth && (next[i].depth == next[j].depth ==> KeepsOrder(next, nodes, i, j))
      else KeepsOrder(next, nodes, i, j)
  {
    TiersMean(nodes, stale);
    hide Ready, DepsSatisfied, Aggregatable, KeepsOrder;
    if StaleTier(nodes, stale) != [] {
      SortedTierOrder(nodes, (n: Node) => n.id in stale, i, j);
    } else if PendingTier(nodes, stale) != [] {
      SortedTierOrder(nodes, (n: Node) => n.status == Pending && DepsSatisfied(n, nodes, stale), i, j);
    } else {
      FilterKeepsOrder(nodes, (n: Node) => n.status == Split && Aggregatable(n, nodes, stale), i, j);
    }
  }

  /** A suspended, running or failed node is never selected: a stale one is complete. */
  lemma {:induction false} OnlyLiveNodesAreSelected(nodes: seq<Node>, stale: set<string>, n: Node)
    requires forall m | m in nodes && m.id in stale :: m.status == Complete
    requires n in NextNodes(nodes, stale)
    ensures n in nodes && n.status in {Pending, Split, Complete}
  {
    SelectedMeans(nodes, stale, n);
  }

  // ---- Progress ----

  ghost function Ids(nodes: seq<Node>): set<string> {
    set n | n in nodes :: n.id
  }

  /** Who depends on whom, over the whole tree. */
  ghost function DepGraph(nodes: seq<Node>): Digraph {
    map id | id in Ids(nodes) :: Find(nodes, id).value.dependsOn
  }

  ghost predicate ParentInTree(nodes: seq<Node>, n: Node) {
    n.parent.Some? && exists p :: p in nodes && p.id == n.parent.value && n.depth == p.depth + 1
  }

  /** Root first, unique ids, every other node one level below its parent. */
  ghost predicate Tree(nodes: seq<Node>) {
    && nodes != [] && UniqueIds(nodes) && nodes[0].parent == None
    && forall i | 0 < i < |nodes| :: ParentInTree(nodes, nodes[i])
  }

  ghost predicate NamesSibling(nodes: seq<Node>, n: Node, d: string) {
    exists m :: m in nodes && m.id == d && m.parent == n.parent
  }

  ghost predicate SiblingDependencies(nodes: seq<Node>) {
    forall n, d | n in nodes && d in n.dependsOn :: NamesSibling(nodes, n, d)
  }

  ghost predicate HasChild(nodes: seq<Node>, id: string) {
    exists c :: c in nodes && IsChild(c, id)
  }

  /** What every step of a run maintains, whatever the statuses: see module Runs. */
  ghost predicate Sound(nodes: seq<Node>) {
    && Tree(nodes) && SiblingDependencies(nodes) && !Cyclic(DepGraph(nodes))
    && (forall n | n in nodes && n.status == Split :: HasChild(nodes, n.id))
  }

  /** No node is failed, suspended or running. */
  ghost predicate Live(nodes: seq<Node>) {
    forall n | n in nodes :: n.status in {Pending, Split, Complete}
  }

  ghost predicate Schedulable(nodes: seq<Node>) {
    Sound(nodes) && Live(nodes)
  }

  ghost predicate Finished(nodes: seq<Node>, stale: set<string>) {
    forall n | n in nodes :: n.status == Complete && n.id !in stale
  }

  lemma {:induction false} DeepestUnfinished(nodes: seq<Node>, m: Node) returns (n: Node)
    requires m in nodes && m.status != Complete
    ensures n in nodes && n.status != Complete
    ensures forall k | k in nodes && k.depth > n.depth :: k.status == Complete
  {
    n := m;
    var i := 0;
    while i < |nodes|
      invariant 0 <= i <= |nodes| && n in nodes && n.status != Complete
      invariant forall k | 0 <= k < i && nodes[k].depth > n.depth :: nodes[k].status == Complete
    {
      if nodes[i].status != Complete && nodes[i].depth > n.depth { n := nodes[i]; }
      i := i + 1;
    }
  }

  lemma {:induction false} SiblingsShareDepth(nodes: seq<Node>, a: Node, b: Node)
    requires Tree(nodes) && a in nodes && b in nodes && a.parent == b.parent
    ensures a.depth == b.depth
  {
    var i, j :| 0 <= i < |nodes| && 0 <= j < |nodes| && nodes[i] == a && nodes[j] == b;
    assert (i > 0 ==> ParentInTree(nodes, nodes[i])) && (j > 0 ==> ParentInTree(nodes, nodes[j]));
    if i > 0 && j > 0 {
      var p, q :| p in nodes && p.id == a.parent.value && a.depth == p.depth + 1
               && q in nodes && q.id == b.parent.value && b.depth == q.depth + 1;
      FindMember(nodes, p);
      FindMember(nodes, q);
    }
  }

  /** An unfinished node with no unfinished dependency at its own, deepest, level is selectable. */
  lemma {:induction false} SourceIsSelectable(nodes: seq<Node>, stale: set<string>, n: Node)
    requires Schedulable(nodes) && n in nodes && n.status != Complete
    requires forall m | m in nodes :: m.id !in stale
    requires forall m | m in nodes && m.depth > n.depth :: m.status == Complete
    requires forall m | m in nodes && m.depth == n.depth && m.id in n.dependsOn :: m.status == Complete
    ensures n.status == Pending ==> DepsSatisfied(n, nodes, stale)
    ensures n.status == Split ==> Aggregatable(n, nodes, stale)
  {
    if n.status == Pending {
      forall k | 0 <= k < |n.dependsOn|
        ensures var dep := Find(nodes, n.dependsOn[k]);
          dep.Some? && dep.value.status == Complete && dep.value.id !in stale
      {
        assert NamesSibling(nodes, n, n.dependsOn[k]);
        var m :| m in nodes && m.id == n.dependsOn[k] && m.parent == n.parent;
        FindMember(nodes, m);
        SiblingsShareDepth(nodes, m, n);
      }
    } else {
      assert HasChild(nodes, n.id);
      forall c | c in Children(nodes, n.id) ensures c.status == Complete && c.id !in stale {
        var i :| 0 <= i < |nodes| && nodes[i] == c;
        assert ParentInTree(nodes, c);
        var p :| p in nodes && p.id == c.parent.value && c.depth == p.depth + 1;
        FindMember(nodes, p);
        FindMember(nodes, n);
      }
    }
  }

  lemma {:induction false} EmptyTiers(nodes: seq<Node>, stale: set<string>)
    ensures NextNodes(nodes, stale) == [] <==>
      StaleTier(nodes, stale) == [] && PendingTier(nodes, stale) == [] && AggregateTier(nodes, stale) == []
  {
    DeepestFirstIsStableSort(StaleTier(nodes, stale), 0);
    DeepestFirstIsStableSort(PendingTier(nodes, stale), 0);
  }

  /** An unfinished, stale-free tree has a selectable node. */
  lemma {:induction false} UnfinishedIsSelectable(nodes: seq<Node>, stale: set<string>, m: Node)
    requires Schedulable(nodes) && m in nodes && m.status != Complete
    requires forall k | k in nodes :: k.id !in stale
    ensures PendingTier(nodes, stale) != [] || AggregateTier(nodes, stale) != []
  {
    var n := DeepestUnfinished(nodes, m);
    var g := DepGraph(nodes);
    var level := set k | k in nodes && k.status != Complete && k.depth == n.depth :: k.id;
    assert n.id in level;
    var id := AcyclicHasSource(g, level);
    var s :| s in nodes && s.status != Complete && s.depth == n.depth && s.id == id;
    FindMember(nodes, s);
    assert forall d | d in level :: d !in s.dependsOn;
    forall k | k in nodes && k.depth == s.depth && k.id in s.dependsOn ensures k.status == Complete {
      assert k.status == Complete || k.id in level;
    }
    SourceIsSelectable(nodes, stale, s);
    assert s in PendingTier(nodes, stale) || s in AggregateTier(nodes, stale);
  }

  /** No deadlock: in every schedulable tree, whatever is stale, nothing is selected
      exactly when every node is complete and none is stale. */
  lemma {:induction false} NoDeadlock(nodes: seq<Node>, stale: set<string>)
    requires Schedulable(nodes)
    ensures NextNodes(nodes, stale) == [] <==> Finished(nodes, stale)
  {
    EmptyTiers(nodes, stale);
    if n :| n in nodes && n.id in stale {
      assert n in StaleTier(nodes, stale);
    } else if m :| m in nodes && m.status != Complete {
      UnfinishedIsSelectable(nodes, stale, m);
    } else {
      NothingToSelect(nodes, stale);
    }
  }

  lemma {:induction false} NothingToSelect(nodes: seq<Node>, stale: set<string>)
    requires Finished(nodes, stale)
    ensures NextNodes(nodes, stale) == []
  {
    EmptyTiers(nodes, stale);
    FilterNone(nodes, (n: Node) => n.id in stale);
    FilterNone(nodes, (n: Node) => n.status == Pending && DepsSatisfied(n, nodes, stale));
    FilterNone(nodes, (n: Node) => n.status == Split && Aggregatable(n, nodes, stale));
  }
}

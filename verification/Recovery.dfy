/** A crash inside a split, and the tree that `reconcile` and `walk` then give back
    (src/store.rs): the invariant of whole runs survives it. */
module Recovery {
  import opened Text
  import opened Contracts
  import opened Graph
  import opened Aliases
  import opened SplitTopology
  import opened Splits
  import opened Nodes
  import opened Selection
  import opened Runs
  import Disk = Reconciliation

  /** A directory and its row as a node; without a row it is pending and depends on nothing. */
  function NodeOf(rows: Disk.Rows, e: Disk.Entry): Node {
    if e.id in rows
    then Node(e.id, e.parent, e.depth, rows[e.id].status, rows[e.id].dependsOn, rows[e.id].depFp)
    else Node(e.id, e.parent, e.depth, Pending, [], map[])
  }

  function Entries(d: Disk.Dir): seq<Disk.Entry> {
    Disk.Walk(d, None, 1)
  }

  /** `walk`: one node per directory, in directory order. */
  function ReadBack(rows: Disk.Rows, d: Disk.Dir): (nodes: seq<Node>)
    ensures |nodes| == |Entries(d)|
    ensures forall i | 0 <= i < |nodes| :: nodes[i] == NodeOf(rows, Entries(d)[i])
  {
    seq(|Entries(d)|, i requires 0 <= i < |Entries(d)| => NodeOf(rows, Entries(d)[i]))
  }

  /** What `reconcile` establishes: no id twice on disk, and one row per directory. */
  ghost predicate Backed(rows: Disk.Rows, d: Disk.Dir) {
    && (forall x :: Disk.Count(d, x) <= 1)
    && (forall id :: id in rows <==> exists e :: e in Entries(d) && e.id == id)
  }

  lemma {:induction false} ReadMember(rows: Disk.Rows, d: Disk.Dir, n: Node) returns (e: Disk.Entry)
    requires n in ReadBack(rows, d)
    ensures e in Entries(d) && n == NodeOf(rows, e)
  {
    var i :| 0 <= i < |ReadBack(rows, d)| && ReadBack(rows, d)[i] == n;
    e := Entries(d)[i];
  }

  lemma {:induction false} EntryIsRead(rows: Disk.Rows, d: Disk.Dir, e: Disk.Entry)
    requires e in Entries(d)
    ensures NodeOf(rows, e) in ReadBack(rows, d)
  {
    var i :| 0 <= i < |Entries(d)| && Entries(d)[i] == e;
    assert ReadBack(rows, d)[i] == NodeOf(rows, e);
  }

  // ---- A directory tree is a tree ----

  lemma {:induction false} ParentListed(d: Disk.Dir, parent: Option<string>, depth: nat, e: Disk.Entry)
    returns (p: Disk.Entry)
    requires Disk.Has(d, parent, depth, e) && e != Disk.Entry(d.name, parent, depth, d.subdirs != [])
    ensures Disk.Has(d, parent, depth, p) && e.parent == Some(p.id) && e.depth == p.depth + 1
    decreases d
  {
    var below := ParentListedAll(d.subdirs, d.name, depth + 1, e);
    p := if below.Some? then below.value else Disk.Entry(d.name, parent, depth, d.subdirs != []);
  }

  lemma {:induction false} ParentListedAll(ds: seq<Disk.Dir>, parent: string, depth: nat, e: Disk.Entry)
    returns (p: Option<Disk.Entry>)
    requires Disk.HasAll(ds, parent, depth, e)
    ensures p.None? ==> e.parent == Some(parent) && e.depth == depth
    ensures p.Some? ==>
      Disk.HasAll(ds, parent, depth, p.value) && e.parent == Some(p.value.id) && e.depth == p.value.depth + 1
    decreases ds
  {
    if !Disk.Has(ds[0], Some(parent), depth, e) {
      p := ParentListedAll(ds[1..], parent, depth, e);
    } else if e == Disk.Entry(ds[0].name, Some(parent), depth, ds[0].subdirs != []) {
      p := None;
    } else {
      var q := ParentListed(ds[0], Some(parent), depth, e);
      p := Some(q);
    }
  }

  lemma {:induction false} ChildListed(d: Disk.Dir, parent: Option<string>, depth: nat, e: Disk.Entry)
    returns (c: Disk.Entry)
    requires Disk.Has(d, parent, depth, e) && e.hasChildren
    ensures Disk.Has(d, parent, depth, c) && c.parent == Some(e.id)
    decreases d
  {
    if Disk.HasAll(d.subdirs, d.name, depth + 1, e) {
      c := ChildListedAll(d.subdirs, d.name, depth + 1, e);
    } else {
      c := Disk.Entry(d.subdirs[0].name, Some(d.name), depth + 1, d.subdirs[0].subdirs != []);
      assert Disk.Has(d.subdirs[0], Some(d.name), depth + 1, c);
    }
  }

  lemma {:induction false} ChildListedAll(ds: seq<Disk.Dir>, parent: string, depth: nat, e: Disk.Entry)
    returns (c: Disk.Entry)
    requires Disk.HasAll(ds, parent, depth, e) && e.hasChildren
    ensures Disk.HasAll(ds, parent, depth, c) && c.parent == Some(e.id)
    decreases ds
  {
    if Disk.Has(ds[0], Some(parent), depth, e) {
      c := ChildListed(ds[0], Some(parent), depth, e);
    } else {
      c := ChildListedAll(ds[1..], parent, depth, e);
    }
  }

  lemma {:induction false} CountedIsListed(d: Disk.Dir, parent: Option<string>, depth: nat, x: string)
    returns (e: Disk.Entry)
    requires Disk.Count(d, x) > 0
    ensures Disk.Has(d, parent, depth, e) && e.id == x
    decreases d
  {
    if d.name == x {
      e := Disk.Entry(d.name, parent, depth, d.subdirs != []);
    } else {
      e := CountedIsListedAll(d.subdirs, d.name, depth + 1, x);
    }
  }

  lemma {:induction false} CountedIsListedAll(ds: seq<Disk.Dir>, parent: string, depth: nat, x: string)
    returns (e: Disk.Entry)
    requires Disk.CountAll(ds, x) > 0
    ensures Disk.HasAll(ds, parent, depth, e) && e.id == x
    decreases ds
  {
    if Disk.Count(ds[0], x) > 0 {
      e := CountedIsListed(ds[0], Some(parent), depth, x);
    } else {
      e := CountedIsListedAll(ds[1..], parent, depth, x);
    }
  }

  /** What `walk` reads is a tree, whatever the index holds. */
  lemma {:induction false} ReadBackIsTree(rows: Disk.Rows, d: Disk.Dir)
    requires forall x :: Disk.Count(d, x) <= 1
    ensures Tree(ReadBack(rows, d)) && ReadBack(rows, d)[0].id == d.name
    ensures forall n | n in ReadBack(rows, d) ::
      if n.id in rows
      then n.status == rows[n.id].status && n.dependsOn == rows[n.id].dependsOn && n.depFp == rows[n.id].depFp
      else n.status == Pending && n.dependsOn == [] && n.depFp == map[]
  {
    var nodes, es := ReadBack(rows, d), Entries(d);
    Disk.CountedOnceIsUnique(d, None, 1);
    forall i | 0 < i < |nodes| ensures ParentInTree(nodes, nodes[i]) {
      assert es[0].id != es[i].id;
      Disk.WalkLists(d, None, 1, es[i]);
      var p := ParentListed(d, None, 1, es[i]);
      Disk.WalkLists(d, None, 1, p);
      EntryIsRead(rows, d, p);
    }
    forall i, j | 0 <= i < j < |nodes| ensures nodes[i].id != nodes[j].id {
      assert es[i].id != es[j].id;
    }
  }

  // ---- A split whose last children, or whose dependencies, were lost ----

  /** The first `m` of the new children; only the first `kept` have their dependencies. */
  function Thinned(kids: seq<Node>, m: nat, kept: nat): (r: seq<Node>)
    requires m <= |kids|
    ensures |r| == m
    ensures forall j | 0 <= j < m :: r[j] == if j < kept then kids[j] else kids[j].(dependsOn := [])
  {
    seq(m, j requires 0 <= j < m => if j < kept then kids[j] else kids[j].(dependsOn := []))
  }

  /** Losing children, or dependencies, does no harm, as long as no dependency outlives its target. */
  lemma {:induction false} ThinnedFit(existing: seq<string>, kids: seq<Node>, m: nat, kept: nat)
    requires m <= |kids| && UniqueIds(kids) && forall k | k in kids :: k.status != Split
    requires kept > 0 ==> m == |kids| && KidsFit(existing, kids)
    ensures KidsFit(existing, Thinned(kids, m, kept))
  {
    hide Cyclic, DepGraph;
    var thin := Thinned(kids, m, kept);
    forall j | 0 <= j < m ensures thin[j].status != Split { assert kids[j] in kids; }
    forall n, d | n in thin && d in n.dependsOn ensures NamesKid(existing, thin, d) {
      var j :| 0 <= j < m && thin[j] == n;
      assert j < kept && kids[j] in kids && NamesKid(existing, kids, d);
      if k :| k in kids && k.id == d {
        var i :| 0 <= i < |kids| && kids[i] == k;
        assert thin[i] in thin;
      }
    }
    ThinnedGraph(existing, kids, m, kept);
  }

  lemma {:induction false} ThinnedGraph(existing: seq<string>, kids: seq<Node>, m: nat, kept: nat)
    requires m <= |kids| && UniqueIds(kids) && (kept > 0 ==> KidsFit(existing, kids))
    ensures !Cyclic(DepGraph(Thinned(kids, m, kept)))
  {
    var thin, h := Thinned(kids, m, kept), DepGraph(Thinned(kids, m, kept));
    forall i, j | 0 <= i < j < |thin| ensures thin[i].id != thin[j].id { assert kids[i].id != kids[j].id; }
    forall id | id in h ensures h[id] == [] || (kept > 0 && id in DepGraph(kids) && h[id] == DepGraph(kids)[id]) {
      var n :| n in thin && n.id == id;
      FindMember(thin, n);
      var j :| 0 <= j < m && thin[j] == n;
      assert kids[j] in kids;
      FindMember(kids, kids[j]);
    }
    if kept > 0 {
      forall id | id in h ensures id in DepGraph(kids) { ThinnedIn(kids, m, kept, id); }
      SubgraphIsAcyclic(DepGraph(kids), h);
    } else {
      forall c ensures !IsCycle(h, c) { assert IsCycle(h, c) ==> Hop(h, c, 0); }
    }
  }

  lemma {:induction false} ThinnedIn(kids: seq<Node>, m: nat, kept: nat, id: string)
    requires m <= |kids| && id in Ids(Thinned(kids, m, kept))
    ensures id in Ids(kids)
  {
    var n :| n in Thinned(kids, m, kept) && n.id == id;
    var j :| 0 <= j < m && Thinned(kids, m, kept)[j] == n;
    assert kids[j] in kids;
  }

  lemma {:induction false} ThinnedIsFresh(nodes: seq<Node>, p: Node, kids: seq<Node>, m: nat, kept: nat)
    requires FreshKids(nodes, p, kids) && m <= |kids|
    ensures FreshKids(nodes, p, Thinned(kids, m, kept))
  {
    var r := Thinned(kids, m, kept);
    forall i, j | 0 <= i < j < |r| ensures r[i].id != r[j].id { assert kids[i].id != kids[j].id; }
    forall k | k in r
      ensures k.id !in Ids(nodes) && k.parent == Some(p.id) && k.depth == p.depth + 1
    {
      var j :| 0 <= j < m && r[j] == k;
      assert kids[j] in kids;
    }
  }

  lemma {:induction false} ThinnedIdAt(p: Node, cs: seq<Contract>, existing: seq<string>, m: nat, kept: nat, j: nat)
    requires j < m <= |cs|
    ensures Thinned(NewChildren(p, cs, existing), m, kept)[j].id == ChildIds(p.id, |existing|, m)[j]
  {
    hide ChildIds, NewChildren;
    NewChildAt(p, cs, existing, j);
    ChildIdsAt(p.id, |existing|, |cs|, j);
    ChildIdsAt(p.id, |existing|, m, j);
  }

  lemma {:induction false} ThinnedIds(p: Node, cs: seq<Contract>, existing: seq<string>, m: nat, kept: nat)
    requires m <= |cs|
    ensures IdSeq(Thinned(NewChildren(p, cs, existing), m, kept)) == ChildIds(p.id, |existing|, m)
  {
    hide ChildIds, NewChildren;
    forall j | 0 <= j < m
      ensures Thinned(NewChildren(p, cs, existing), m, kept)[j].id == ChildIds(p.id, |existing|, m)[j]
    {
      ThinnedIdAt(p, cs, existing, m, kept, j);
    }
  }

  /** The thinned split keeps the structure if and only if the children that are left fit. */
  lemma {:induction false} ThinnedGrowth(
    nodes: seq<Node>, p: Node, cs: seq<Contract>, existing: seq<string>, m: nat, kept: nat)
    requires Invariant(nodes) && p in nodes && Lists(nodes, p.id, existing) && m <= |cs|
    ensures Structured(nodes + Thinned(NewChildren(p, cs, existing), m, kept)) <==>
      KidsFit(existing, Thinned(NewChildren(p, cs, existing), m, kept))
  {
    hide SiblingDependencies, Cyclic, DepGraph, Numbered, KidsFit;
    var kids := NewChildren(p, cs, existing);
    var thin := Thinned(kids, m, kept);
    ListedCount(nodes, p, existing);
    NewChildrenAreFresh(nodes, p, cs, existing);
    ThinnedIsFresh(nodes, p, kids, m, kept);
    ThinnedIds(p, cs, existing, m, kept);
    GrowthKeepsInvariant(nodes, p, thin, existing);
    GrownSplits(nodes, p, thin);
    ThinnedPending(p, cs, existing, m, kept);
  }

  lemma {:induction false} ThinnedPending(p: Node, cs: seq<Contract>, existing: seq<string>, m: nat, kept: nat)
    requires m <= |cs|
    ensures forall k | k in NewChildren(p, cs, existing) :: k.status == Pending
    ensures forall k | k in Thinned(NewChildren(p, cs, existing), m, kept) :: k.status == Pending
  {
    var kids := NewChildren(p, cs, existing);
    forall j | 0 <= j < |kids| ensures kids[j].status == Pending { NewChildAt(p, cs, existing, j); }
  }

  lemma {:induction false} AlikeIsStructured(nodes: seq<Node>, nodes': seq<Node>)
    requires Structured(nodes) && Alike(nodes, nodes') && Tree(nodes') && nodes'[0].id == ROOT
    ensures Structured(nodes')
  {
    AlikeGraph(nodes, nodes');
    AlikeSiblings(nodes, nodes');
    AlikeNumbered(nodes, nodes');
  }

  // ---- The crash ----

  /** The split as the store writes it. */
  function PlanFor(at: Disk.Entry, cs: seq<Contract>, existing: seq<string>, grants: seq<nat>): Disk.SplitPlan {
    Disk.SplitPlan(at, ChildIds(at.id, |existing|, |cs|), StoredLists(cs, at.id, existing), grants)
  }

  /** A split may begin, under whatever names: the index is the disk, the tree is one that runs reach, and its
      node is running or pending. */
  ghost predicate Begins(w: Disk.World, at: Disk.Entry, cs: seq<Contract>, existing: seq<string>, grants: seq<nat>) {
    && Backed(w.index, w.disk) && w.charged == 0 && w.onRecord == []
    && Invariant(ReadBack(w.index, w.disk))
    && at in Entries(w.disk) && NodeOf(w.index, at).status in {Running, Pending}
    && cs != [] && |grants| == |cs| && Lists(ReadBack(w.index, w.disk), at.id, existing)
  }

  lemma {:induction false} NewIdsAreNew(nodes: seq<Node>, p: Node, cs: seq<Contract>, existing: seq<string>, id: string)
    requires Invariant(nodes) && p in nodes && Lists(nodes, p.id, existing) && id in ChildIds(p.id, |existing|, |cs|)
    ensures id !in Ids(nodes)
  {
    ListedCount(nodes, p, existing);
    NextIdsAreFresh(nodes, p.id, |existing|, id, |cs|);
  }

  /** An id that no node read back has is neither on disk nor in the index. */
  lemma {:induction false} UnreadIsAbsent(rows: Disk.Rows, d: Disk.Dir, id: string)
    requires Backed(rows, d) && id !in Ids(ReadBack(rows, d))
    ensures Disk.Count(d, id) == 0 && id !in rows
  {
    if Disk.Count(d, id) > 0 {
      var e := CountedIsListed(d, None, 1, id);
      Disk.WalkLists(d, None, 1, e);
      EntryIsRead(rows, d, e);
    }
    if id in rows {
      var e :| e in Entries(d) && e.id == id;
      EntryIsRead(rows, d, e);
    }
  }

  lemma {:induction false} BeginsReady(
    w: Disk.World, at: Disk.Entry, cs: seq<Contract>, existing: seq<string>, grants: seq<nat>)
    requires Begins(w, at, cs, existing, grants)
    ensures Disk.Ready(w, PlanFor(at, cs, existing, grants))
  {
    hide Invariant, Lists;
    var nodes, plan := ReadBack(w.index, w.disk), PlanFor(at, cs, existing, grants);
    EntryIsRead(w.index, w.disk, at);
    ChildIdsDistinct(at.id, |existing|, |cs|);
    forall id | id in plan.ids ensures Disk.Count(w.disk, id) == 0 && id !in w.index {
      NewIdsAreNew(nodes, NodeOf(w.index, at), cs, existing, id);
      UnreadIsAbsent(w.index, w.disk, id);
    }
    Disk.WalkLists(w.disk, None, 1, at);
  }

  /** The index as `reconcile` leaves it. */
  function Index(c: Disk.World): Disk.Rows {
    Disk.Reconciled(c.index, Entries(c.disk), |Entries(c.disk)|)
  }

  /** `reconcile`, then `walk`. */
  function Recovered(c: Disk.World): seq<Node> {
    ReadBack(Index(c), c.disk)
  }

  /** How many of the new rows have been written. */
  function Written(plan: Disk.SplitPlan, k: nat): nat {
    var n := |plan.ids|;
    if k <= n then 0 else if k <= 2 * n then k - n else n
  }

  lemma {:induction false} RecoveredRow(w: Disk.World, plan: Disk.SplitPlan, k: nat, e: Disk.Entry)
    requires Disk.Ready(w, plan) && k <= plan.Length() && e in Entries(Disk.Crashed(w, plan, k).disk)
    ensures e.id in Index(Disk.Crashed(w, plan, k))
    ensures Index(Disk.Crashed(w, plan, k))[e.id] == Disk.RowFor(Disk.Crashed(w, plan, k).index, e)
  {
    hide Disk.Crashed, Disk.RowFor;
    Disk.CrashedDisk(w, plan, k);
    Disk.EntryRow(Disk.Crashed(w, plan, k).index, Entries(Disk.Crashed(w, plan, k).disk), e);
  }

  lemma {:induction false} NewIdHasNoRow(w: Disk.World, plan: Disk.SplitPlan, id: string)
    requires Disk.Ready(w, plan) && Backed(w.index, w.disk) && id in plan.ids
    ensures id !in w.index
  {
    forall e | e in Entries(w.disk) ensures e.id != id {
      Disk.WalkLists(w.disk, None, 1, e);
      Disk.HasIsCounted(w.disk, None, 1, e);
    }
  }

  /** A new child reads back at its place, pending. */
  lemma {:induction false} RecoveredChild(w: Disk.World, plan: Disk.SplitPlan, k: nat, e: Disk.Entry, j: nat)
    requires Disk.Ready(w, plan) && Backed(w.index, w.disk) && k <= plan.Length()
    requires e in Entries(Disk.Crashed(w, plan, k).disk)
    requires j < |plan.ids| && e.id == plan.ids[j]
    ensures j < Disk.Made(plan, k)
    ensures NodeOf(Index(Disk.Crashed(w, plan, k)), e) == Node(
      plan.ids[j], Some(plan.at.id), plan.at.depth + 1, Pending,
      if j < Written(plan, k) then plan.deps[j] else [], map[])
  {
    hide Disk.Crashed, Disk.RowFor;
    NewIdHasNoRow(w, plan, e.id);
    RecoveredRow(w, plan, k, e);
    Disk.CrashedRow(w, plan, k, e);
    Disk.CrashedDisk(w, plan, k);
    Disk.CreatedIsLeaf(w, plan, Disk.Made(plan, k), e);
    if e.id !in plan.ids[..Disk.Made(plan, k)] {
      assert Disk.Has(w.disk, None, 1, e);
      Disk.HasIsCounted(w.disk, None, 1, e);
    } else {
      var i :| 0 <= i < Disk.Made(plan, k) && plan.ids[i] == e.id;
      assert i == j;
    }
  }

  /** Every other directory reads back as the node it was, up to its status. */
  lemma {:induction false} RecoveredOld(w: Disk.World, plan: Disk.SplitPlan, k: nat, e: Disk.Entry)
    returns (before: Disk.Entry)
    requires Disk.Ready(w, plan) && Backed(w.index, w.disk) && k <= plan.Length()
    requires e in Entries(Disk.Crashed(w, plan, k).disk) && e.id !in plan.ids
    ensures before in Entries(w.disk)
    ensures SameShape(NodeOf(Index(Disk.Crashed(w, plan, k)), e), NodeOf(w.index, before))
  {
    hide Disk.Crashed;
    RecoveredRow(w, plan, k, e);
    Disk.CrashedRow(w, plan, k, e);
    Disk.CrashedDisk(w, plan, k);
    assert Disk.Origin(w.disk, plan, Disk.Made(plan, k), e);
    before := if e.id == plan.at.id then plan.at else e;
    Disk.WalkLists(w.disk, None, 1, before);
  }

  /** A directory that was there before the split is there after the crash. */
  lemma {:induction false} OldIsRecovered(w: Disk.World, plan: Disk.SplitPlan, k: nat, e: Disk.Entry)
    returns (now: Disk.Entry)
    requires Disk.Ready(w, plan) && Backed(w.index, w.disk) && k <= plan.Length() && e in Entries(w.disk)
    ensures now in Entries(Disk.Crashed(w, plan, k).disk) && now.id == e.id && e.id !in plan.ids
    ensures SameShape(NodeOf(w.index, e), NodeOf(Index(Disk.Crashed(w, plan, k)), now))
  {
    hide Disk.Crashed;
    var m := Disk.Made(plan, k);
    Disk.WalkLists(w.disk, None, 1, e);
    Disk.HasIsCounted(w.disk, None, 1, e);
    if k > |plan.ids| { Disk.DiskUnchanged(w, plan, k); }
    Disk.CrashedKeeps(w, plan, m, e);
    now := if e.id == plan.at.id then e.(hasChildren := e.hasChildren || m > 0) else e;
    Disk.WalkLists(Disk.Crashed(w, plan, k).disk, None, 1, now);
    var source := RecoveredOld(w, plan, k, now);
    Disk.WalkLists(w.disk, None, 1, source);
    Disk.OneEntryPerId(w.disk, source, e);
  }

  lemma {:induction false} ChildIsRecovered(w: Disk.World, plan: Disk.SplitPlan, k: nat, j: nat)
    returns (now: Disk.Entry)
    requires Disk.Ready(w, plan) && k <= plan.Length() && j < Disk.Made(plan, k)
    ensures now in Entries(Disk.Crashed(w, plan, k).disk) && now.id == plan.ids[j]
  {
    hide Disk.Crashed;
    if k > |plan.ids| { Disk.DiskUnchanged(w, plan, k); }
    Disk.CrashedMakes(w, plan, Disk.Made(plan, k), j);
    now := Disk.Entry(plan.ids[j], Some(plan.at.id), plan.at.depth + 1, false);
    Disk.WalkLists(Disk.Crashed(w, plan, k).disk, None, 1, now);
  }

  lemma {:induction false} PlannedChild(at: Disk.Entry, p: Node, cs: seq<Contract>, existing: seq<string>,
                                        grants: seq<nat>, m: nat, kept: nat, j: nat)
    requires p.id == at.id && p.depth == at.depth && j < m <= |cs|
    ensures var plan, kid := PlanFor(at, cs, existing, grants), Thinned(NewChildren(p, cs, existing), m, kept)[j];
      && kid.id == plan.ids[j] && kid.parent == Some(at.id) && kid.depth == at.depth + 1
      && kid.dependsOn == if j < kept then plan.deps[j] else []
  {
    NewChildAt(p, cs, existing, j);
  }

  /** The tree a crash leads to: the old nodes, the children whose directories were made, and their
      dependencies as far as their rows were written. */
  function Survivors(w: Disk.World, at: Disk.Entry, cs: seq<Contract>, existing: seq<string>, grants: seq<nat>,
                     k: nat): seq<Node> {
    var plan := PlanFor(at, cs, existing, grants);
    ReadBack(w.index, w.disk)
    + Thinned(NewChildren(NodeOf(w.index, at), cs, existing), Disk.Made(plan, k), Written(plan, k))
  }

  /** Before the first write nothing has changed; from the last row on the split is whole. */
  lemma {:induction false} SurvivorsAtEnds(w: Disk.World, at: Disk.Entry, cs: seq<Contract>, existing: seq<string>,
                                           grants: seq<nat>, k: nat)
    ensures k == 0 ==> Survivors(w, at, cs, existing, grants, k) == ReadBack(w.index, w.disk)
    ensures k >= 2 * |cs| ==>
      Survivors(w, at, cs, existing, grants, k)
      == ReadBack(w.index, w.disk) + NewChildren(NodeOf(w.index, at), cs, existing)
  {
    var kids := NewChildren(NodeOf(w.index, at), cs, existing);
    assert Thinned(kids, |cs|, |cs|) == kids;
  }

  lemma {:induction false} RecoveredSurvives(w: Disk.World, at: Disk.Entry, cs: seq<Contract>, existing: seq<string>,
                                             grants: seq<nat>, k: nat, n: Node)
    requires Disk.Ready(w, PlanFor(at, cs, existing, grants)) && Backed(w.index, w.disk)
    requires k <= PlanFor(at, cs, existing, grants).Length()
    requires n in Recovered(Disk.Crashed(w, PlanFor(at, cs, existing, grants), k))
    ensures HasShape(Survivors(w, at, cs, existing, grants, k), n)
  {
    hide Disk.Crashed, Index, StoredLists;
    var plan := PlanFor(at, cs, existing, grants);
    var c := Disk.Crashed(w, plan, k);
    var e := ReadMember(Index(c), c.disk, n);
    var kids := Survivors(w, at, cs, existing, grants, k)[|Entries(w.disk)|..];
    if e.id in plan.ids {
      var j :| 0 <= j < |plan.ids| && plan.ids[j] == e.id;
      RecoveredChild(w, plan, k, e, j);
      PlannedChild(at, NodeOf(w.index, at), cs, existing, grants, Disk.Made(plan, k), Written(plan, k), j);
      assert SameShape(n, kids[j]) && kids[j] in Survivors(w, at, cs, existing, grants, k);
    } else {
      var source := RecoveredOld(w, plan, k, e);
      EntryIsRead(w.index, w.disk, source);
      assert NodeOf(w.index, source) in Survivors(w, at, cs, existing, grants, k);
    }
  }

  lemma {:induction false} SurvivorIsRecovered(w: Disk.World, at: Disk.Entry, cs: seq<Contract>, existing: seq<string>,
                                               grants: seq<nat>, k: nat, n: Node)
    requires Disk.Ready(w, PlanFor(at, cs, existing, grants)) && Backed(w.index, w.disk)
    requires k <= PlanFor(at, cs, existing, grants).Length() && n in Survivors(w, at, cs, existing, grants, k)
    ensures HasShape(Recovered(Disk.Crashed(w, PlanFor(at, cs, existing, grants), k)), n)
  {
    hide Disk.Crashed, Index, StoredLists;
    var plan := PlanFor(at, cs, existing, grants);
    var c := Disk.Crashed(w, plan, k);
    if n in ReadBack(w.index, w.disk) {
      var e := ReadMember(w.index, w.disk, n);
      var now := OldIsRecovered(w, plan, k, e);
      EntryIsRead(Index(c), c.disk, now);
    } else {
      var kids := Thinned(NewChildren(NodeOf(w.index, at), cs, existing), Disk.Made(plan, k), Written(plan, k));
      var j :| 0 <= j < |kids| && kids[j] == n;
      NewSurvivor(w, at, cs, existing, grants, k, j);
    }
  }

  lemma {:induction false} NewSurvivor(w: Disk.World, at: Disk.Entry, cs: seq<Contract>, existing: seq<string>,
                                       grants: seq<nat>, k: nat, j: nat)
    requires Disk.Ready(w, PlanFor(at, cs, existing, grants)) && Backed(w.index, w.disk)
    requires k <= PlanFor(at, cs, existing, grants).Length()
    requires j < Disk.Made(PlanFor(at, cs, existing, grants), k)
    ensures var plan := PlanFor(at, cs, existing, grants);
      HasShape(Recovered(Disk.Crashed(w, plan, k)),
               Thinned(NewChildren(NodeOf(w.index, at), cs, existing), Disk.Made(plan, k), Written(plan, k))[j])
  {
    hide Disk.Crashed, Index, StoredLists, NewChildren;
    var plan := PlanFor(at, cs, existing, grants);
    var c := Disk.Crashed(w, plan, k);
    var now := ChildIsRecovered(w, plan, k, j);
    RecoveredChild(w, plan, k, now, j);
    PlannedChild(at, NodeOf(w.index, at), cs, existing, grants, Disk.Made(plan, k), Written(plan, k), j);
    EntryIsRead(Index(c), c.disk, now);
  }

  lemma {:induction false} CrashIsBacked(w: Disk.World, plan: Disk.SplitPlan, k: nat)
    requires Disk.Ready(w, plan) && k <= plan.Length()
    ensures Backed(Index(Disk.Crashed(w, plan, k)), Disk.Crashed(w, plan, k).disk)
    ensures Disk.Crashed(w, plan, k).disk.name == w.disk.name
  {
    hide Disk.Crashed;
    var c, m := Disk.Crashed(w, plan, k), Disk.Made(plan, k);
    if k > |plan.ids| { Disk.DiskUnchanged(w, plan, k); }
    forall x ensures Disk.Count(c.disk, x) <= 1 { Disk.CrashedCount(w, plan, m, x); }
    Disk.CountedOnceIsUnique(c.disk, None, 1);
    Disk.ReconciledKeys(c.index, Entries(c.disk), |Entries(c.disk)|);
    forall e | e in Entries(c.disk) ensures e.id in Index(c) { RecoveredRow(w, plan, k, e); }
    RootStays(w, plan, k);
  }

  lemma {:induction false} RootStays(w: Disk.World, plan: Disk.SplitPlan, k: nat)
    requires plan.Valid() && k <= plan.Length()
    ensures Disk.Crashed(w, plan, k).disk.name == w.disk.name
  {
    if k > 0 { RootStays(w, plan, k - 1); }
  }

  /** A node that reads back as split has a child. */
  lemma {:induction false} RecoveredSplit(w: Disk.World, plan: Disk.SplitPlan, k: nat, n: Node)
    requires Disk.Ready(w, plan) && Backed(w.index, w.disk) && k <= plan.Length()
    requires n in Recovered(Disk.Crashed(w, plan, k)) && n.status == Split
    requires forall m | m in ReadBack(w.index, w.disk) && m.status == Split :: HasChild(ReadBack(w.index, w.disk), m.id)
    ensures HasChild(Recovered(Disk.Crashed(w, plan, k)), n.id)
  {
    hide Disk.Crashed;
    var c := Disk.Crashed(w, plan, k);
    var e := ReadMember(Index(c), c.disk, n);
    RecoveredRow(w, plan, k, e);
    var child: Disk.Entry;
    if e.hasChildren {
      Disk.WalkLists(c.disk, None, 1, e);
      child := ChildListed(c.disk, None, 1, e);
      Disk.WalkLists(c.disk, None, 1, child);
    } else {
      StillSplit(w, plan, k, e);
      EntryIsRead(w.index, w.disk, e);
      var kid :| kid in ReadBack(w.index, w.disk) && IsChild(kid, e.id);
      var before := ReadMember(w.index, w.disk, kid);
      child := OldIsRecovered(w, plan, k, before);
    }
    EntryIsRead(Index(c), c.disk, child);
    assert IsChild(NodeOf(Index(c), child), n.id);
  }

  /** Without a child directory only a node that was split before is split now. */
  lemma {:induction false} StillSplit(w: Disk.World, plan: Disk.SplitPlan, k: nat, e: Disk.Entry)
    requires Disk.Ready(w, plan) && Backed(w.index, w.disk) && k <= plan.Length()
    requires e in Entries(Disk.Crashed(w, plan, k).disk) && !e.hasChildren
    requires Disk.RowFor(Disk.Crashed(w, plan, k).index, e).status == Split
    ensures e in Entries(w.disk) && e.id in w.index && w.index[e.id].status == Split
  {
    hide Disk.Crashed;
    Disk.CrashedRow(w, plan, k, e);
    Disk.CrashedDisk(w, plan, k);
    assert Disk.Origin(w.disk, plan, Disk.Made(plan, k), e);
    forall j | 0 <= j < |plan.ids| ensures plan.ids[j] != e.id { NewIdHasNoRow(w, plan, plan.ids[j]); }
    Disk.WalkLists(w.disk, None, 1, e);
  }

  /** The new children that a crash leaves, with what dependencies it leaves them. */
  function Spared(
    w: Disk.World, at: Disk.Entry, cs: seq<Contract>, existing: seq<string>, grants: seq<nat>, k: nat): seq<Node>
  {
    var plan := PlanFor(at, cs, existing, grants);
    Thinned(NewChildren(NodeOf(w.index, at), cs, existing), Disk.Made(plan, k), Written(plan, k))
  }

  /** A crash at any write of any split. `reconcile` leaves an index that is the disk again, and a tree that is
      the one before the split with the children whose directories were made: it satisfies the invariant of
      whole runs if and only if those children fit. Before the first row is written, and at any time when the
      split is stored well, they do; then runs, splits and further crashes may follow. */
  lemma {:induction false} CrashKeepsInvariant(
    w: Disk.World, at: Disk.Entry, cs: seq<Contract>, existing: seq<string>, grants: seq<nat>, k: nat)
    requires Begins(w, at, cs, existing, grants) && k <= 3 * |cs| + 2
    ensures Disk.Ready(w, PlanFor(at, cs, existing, grants))
    ensures var c := Disk.Crashed(w, PlanFor(at, cs, existing, grants), k);
      && Backed(Index(c), c.disk) && Alike(Recovered(c), Survivors(w, at, cs, existing, grants, k))
      && (Invariant(Recovered(c)) <==> KidsFit(existing, Spared(w, at, cs, existing, grants, k)))
      && (k <= |cs| || WellStored(cs, at.id, existing) ==> Invariant(Recovered(c)))
  {
    hide Disk.Crashed, Lists, DepGraph, Cyclic, SiblingDependencies, Numbered, KidsFit, WellStored;
    BeginsReady(w, at, cs, existing, grants);
    var plan, nodes := PlanFor(at, cs, existing, grants), ReadBack(w.index, w.disk);
    var c, kept := Disk.Crashed(w, plan, k), Survivors(w, at, cs, existing, grants, k);
    CrashIsBacked(w, plan, k);
    RecoveredIsAlike(w, at, cs, existing, grants, k);
    EntryIsRead(w.index, w.disk, at);
    ThinnedGrowth(nodes, NodeOf(w.index, at), cs, existing, Disk.Made(plan, k), Written(plan, k));
    ReadBackIsTree(w.index, w.disk);
    ReadBackIsTree(Index(c), c.disk);
    RootIsRoot(nodes);
    if Structured(kept) { AlikeIsStructured(kept, Recovered(c)); }
    if Structured(Recovered(c)) { KeptIsTree(w, at, cs, existing, grants, k); AlikeIsStructured(Recovered(c), kept); }
    forall n | n in Recovered(c) && n.status == Split ensures HasChild(Recovered(c), n.id) {
      RecoveredSplit(w, plan, k, n);
    }
    if k <= |cs| || WellStored(cs, at.id, existing) { SparedFit(w, at, cs, existing, grants, k); }
  }

  lemma {:induction false} RecoveredIsAlike(
    w: Disk.World, at: Disk.Entry, cs: seq<Contract>, existing: seq<string>, grants: seq<nat>, k: nat)
    requires Disk.Ready(w, PlanFor(at, cs, existing, grants)) && Backed(w.index, w.disk)
    requires k <= PlanFor(at, cs, existing, grants).Length()
    ensures Alike(Recovered(Disk.Crashed(w, PlanFor(at, cs, existing, grants), k)),
                  Survivors(w, at, cs, existing, grants, k))
  {
    hide Disk.Crashed;
    var c, kept := Disk.Crashed(w, PlanFor(at, cs, existing, grants), k), Survivors(w, at, cs, existing, grants, k);
    forall n | n in Recovered(c) ensures HasShape(kept, n) {
      RecoveredSurvives(w, at, cs, existing, grants, k, n);
    }
    forall n | n in kept ensures HasShape(Recovered(c), n) {
      SurvivorIsRecovered(w, at, cs, existing, grants, k, n);
    }
  }

  lemma {:induction false} KeptIsTree(
    w: Disk.World, at: Disk.Entry, cs: seq<Contract>, existing: seq<string>, grants: seq<nat>, k: nat)
    requires Begins(w, at, cs, existing, grants)
    ensures Tree(Survivors(w, at, cs, existing, grants, k))
    ensures Survivors(w, at, cs, existing, grants, k)[0].id == ROOT
  {
    hide SiblingDependencies, Cyclic, DepGraph;
    var plan, nodes, p := PlanFor(at, cs, existing, grants), ReadBack(w.index, w.disk), NodeOf(w.index, at);
    EntryIsRead(w.index, w.disk, at);
    ListedCount(nodes, p, existing);
    NewChildrenAreFresh(nodes, p, cs, existing);
    ThinnedIsFresh(nodes, p, NewChildren(p, cs, existing), Disk.Made(plan, k), Written(plan, k));
    GrownTree(nodes, p, Thinned(NewChildren(p, cs, existing), Disk.Made(plan, k), Written(plan, k)));
  }

  lemma {:induction false} SparedFit(
    w: Disk.World, at: Disk.Entry, cs: seq<Contract>, existing: seq<string>, grants: seq<nat>, k: nat)
    requires Begins(w, at, cs, existing, grants) && (k <= |cs| || WellStored(cs, at.id, existing))
    ensures KidsFit(existing, Spared(w, at, cs, existing, grants, k))
  {
    hide SiblingDependencies, Cyclic, DepGraph, WellStored, KidsFit;
    var plan, nodes, p := PlanFor(at, cs, existing, grants), ReadBack(w.index, w.disk), NodeOf(w.index, at);
    EntryIsRead(w.index, w.disk, at);
    ListedCount(nodes, p, existing);
    NewChildrenAreFresh(nodes, p, cs, existing);
    PlainKidsFit(nodes, p, cs, existing);
    ThinnedPending(p, cs, existing, Disk.Made(plan, k), Written(plan, k));
    ThinnedFit(existing, NewChildren(p, cs, existing), Disk.Made(plan, k), Written(plan, k));
  }

  lemma {:induction false} RootIsRoot(nodes: seq<Node>)
    requires Invariant(nodes)
    ensures nodes != [] && nodes[0].id == ROOT
  {
  }
}

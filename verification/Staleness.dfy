/** Dependency fingerprints and the re-verification cascade (src/store.rs
    `complete`, `record_dependencies`, `stale_ids`). */
module Staleness {
  import opened Text
  import opened Nodes
  import opened Graph
  import opened Selection
  import opened Runs

  /** The tree's rows and the fingerprint of every node's current deliverable. */
  datatype Snapshot = Snapshot(nodes: seq<Node>, fps: map<string, string>)

  function Fingerprint(fps: map<string, string>, id: string): string {
    if id in fps then fps[id] else ""
  }

  /** What acceptance records: the current fingerprint of each dependency that exists. */
  function Recorded(nodes: seq<Node>, fps: map<string, string>, deps: seq<string>): map<string, string> {
    map d | d in deps :: if Find(nodes, d).Some? then Fingerprint(fps, d) else ""
  }

  /** Dependency `d` exists and is not what `n` was accepted against. */
  predicate Mismatch(n: Node, nodes: seq<Node>, fps: map<string, string>, d: string) {
    Find(nodes, d).Some? && (d !in n.depFp || n.depFp[d] != Fingerprint(fps, d))
  }

  predicate IsStale(n: Node, nodes: seq<Node>, fps: map<string, string>) {
    n.status == Complete && exists k :: 0 <= k < |n.dependsOn| && Mismatch(n, nodes, fps, n.dependsOn[k])
  }

  ghost function Stale(t: Snapshot): set<string> {
    set n | n in t.nodes && IsStale(n, t.nodes, t.fps) :: n.id
  }

  /** A complete node is stale exactly when it names a node of the tree that it has on record with no
      fingerprint, or with another one than that node has now (none at all counts as the empty one). */
  lemma {:induction false} StaleMeans(t: Snapshot, id: string)
    ensures id in Stale(t) <==>
      exists n, d :: n in t.nodes && n.id == id && n.status == Complete && d in n.dependsOn
        && (exists m :: m in t.nodes && m.id == d)
        && (d in n.depFp ==> n.depFp[d] != if d in t.fps then t.fps[d] else "")
  {
    forall n, d | n in t.nodes && n.id == id && n.status == Complete && d in n.dependsOn
        && (exists m :: m in t.nodes && m.id == d)
        && (d in n.depFp ==> n.depFp[d] != if d in t.fps then t.fps[d] else "")
      ensures id in Stale(t)
    {
      var k :| 0 <= k < |n.dependsOn| && n.dependsOn[k] == d;
      assert Mismatch(n, t.nodes, t.fps, n.dependsOn[k]);
    }
    if id in Stale(t) {
      var n :| n in t.nodes && IsStale(n, t.nodes, t.fps) && n.id == id;
      var k :| 0 <= k < |n.dependsOn| && Mismatch(n, t.nodes, t.fps, n.dependsOn[k]);
      var d := n.dependsOn[k];
      var m := Find(t.nodes, d).value;
      assert n in t.nodes && d in n.dependsOn && m in t.nodes && m.id == d;
    }
  }

  /** `complete` and `record_dependencies` keep one entry per dependency: what that node is worth now, and
      the empty fingerprint where there is no such node or it has no deliverable. */
  lemma {:induction false} RecordedMeans(nodes: seq<Node>, fps: map<string, string>, deps: seq<string>)
    ensures forall d :: d in Recorded(nodes, fps, deps) <==> d in deps
    ensures forall d | d in deps && (exists m :: m in nodes && m.id == d) && d in fps ::
      Recorded(nodes, fps, deps)[d] == fps[d]
    ensures forall d | d in deps && !((exists m :: m in nodes && m.id == d) && d in fps) ::
      Recorded(nodes, fps, deps)[d] == ""
  {
    forall d, m | m in nodes && m.id == d ensures Find(nodes, d).Some? {}
  }

  /** The `nodes` table and the artifact archive, updated in place. */
  class Index {
    var nodes: seq<Node>
    var fps: map<string, string>

    constructor (nodes: seq<Node>, fps: map<string, string>)
      ensures this.nodes == nodes && this.fps == fps
    {
      this.nodes, this.fps := nodes, fps;
    }

    method RecordDependencies(i: nat)
      requires i < |nodes|
      modifies this`nodes
      ensures nodes == old(nodes)[i := old(nodes)[i].(depFp :=
        if old(nodes)[i].dependsOn == [] then old(nodes)[i].depFp
        else Recorded(old(nodes), fps, old(nodes)[i].dependsOn))]
      ensures forall d | nodes[i].dependsOn != [] :: d in nodes[i].depFp <==> d in nodes[i].dependsOn
      ensures forall d | d in nodes[i].dependsOn && (exists m :: m in old(nodes) && m.id == d) && d in fps ::
        d in nodes[i].depFp && nodes[i].depFp[d] == fps[d]
    {
      var deps := nodes[i].dependsOn;
      if deps == [] { return; }
      var current: map<string, string> := map[];
      for k := 0 to |deps|
        invariant current == Recorded(nodes, fps, deps[..k])
      {
        var fp := if Find(nodes, deps[k]).Some? then Fingerprint(fps, deps[k]) else "";
        current := current[deps[k] := fp];
      }
      assert deps[..|deps|] == deps;
      RecordedMeans(nodes, fps, deps);
      nodes := nodes[i := nodes[i].(depFp := current)];
    }

    /** Acceptance: the node is complete with a deliverable of fingerprint `fp`; what its dependencies are
        worth now is on record, so it is not stale; nobody else changes. */
    method CompleteNode(i: nat, fp: string)
      requires i < |nodes| && UniqueIds(nodes)
      modifies this
      ensures fps == old(fps)[old(nodes)[i].id := fp]
      ensures |nodes| == |old(nodes)| && nodes[i].status == Complete && !IsStale(nodes[i], nodes, fps)
      ensures SameShape(nodes[i], old(nodes)[i])
      ensures nodes[i].depFp == if nodes[i].dependsOn == [] then old(nodes)[i].depFp
                                else Recorded(nodes, fps, nodes[i].dependsOn)
      ensures forall j | 0 <= j < |nodes| && j != i :: nodes[j] == old(nodes)[j]
      ensures Rerun(Snapshot(old(nodes), old(fps)), old(nodes)[i].id, Snapshot(nodes, fps))
    {
      var n := nodes[i];
      fps := fps[n.id := fp];
      nodes := nodes[i := n.(status := Complete)];
      RecordDependencies(i);
      AcceptedIsFresh(old(nodes)[i := n.(status := Complete)], nodes, fps, i);
      RecordedByIds(old(nodes)[i := n.(status := Complete)], nodes, fps, n.dependsOn);
      CompletionIsRerun(old(nodes), old(fps), i, nodes, fps);
    }

    /** The stale set: every complete node some dependency of which has changed. */
    method StaleIds() returns (stale: set<string>)
      ensures stale == Stale(Snapshot(nodes, fps))
      ensures forall id :: id in stale <==>
        exists n, d :: n in nodes && n.id == id && n.status == Complete && d in n.dependsOn
          && (exists m :: m in nodes && m.id == d)
          && (d in n.depFp ==> n.depFp[d] != if d in fps then fps[d] else "")
    {
      forall id { StaleMeans(Snapshot(nodes, fps), id); }
      stale := {};
      for i := 0 to |nodes|
        invariant stale == set k | 0 <= k < i && IsStale(nodes[k], nodes, fps) :: nodes[k].id
      {
        var n := nodes[i];
        if n.status == Complete && n.dependsOn != [] {
          var found := false;
          for k := 0 to |n.dependsOn|
            invariant found ==> IsStale(n, nodes, fps)
            invariant !found ==> forall j | 0 <= j < k :: !Mismatch(n, nodes, fps, n.dependsOn[j])
          {
            if Mismatch(n, nodes, fps, n.dependsOn[k]) { found := true; break; }
          }
          if found { stale := stale + {n.id}; }
        }
      }
    }
  }

  lemma {:induction false} FindUpdated(a: seq<Node>, b: seq<Node>, d: string)
    requires |a| == |b| && forall i | 0 <= i < |a| :: a[i].id == b[i].id
    ensures Find(a, d).Some? <==> Find(b, d).Some?
  {
    if Find(a, d).Some? {
      var i :| 0 <= i < |a| && a[i] == Find(a, d).value;
      assert b[i] in b;
    }
    if Find(b, d).Some? {
      var i :| 0 <= i < |b| && b[i] == Find(b, d).value;
      assert a[i] in a;
    }
  }

  /** What is recorded depends only on which ids there are. */
  lemma {:induction false} RecordedByIds(a: seq<Node>, b: seq<Node>, fps: map<string, string>, deps: seq<string>)
    requires |a| == |b| && forall i | 0 <= i < |a| :: a[i].id == b[i].id
    ensures Recorded(a, fps, deps) == Recorded(b, fps, deps)
  {
    forall d | d in deps ensures Find(a, d).Some? <==> Find(b, d).Some? {
      FindUpdated(a, b, d);
    }
  }

  lemma {:induction false} CompletionIsRerun(
    before: seq<Node>, was: map<string, string>, i: nat, after: seq<Node>, fps: map<string, string>)
    requires i < |before| == |after| && UniqueIds(before) && SameShape(before[i], after[i])
    requires forall j | 0 <= j < |after| && j != i :: after[j] == before[j]
    requires forall d | d != before[i].id :: Fingerprint(fps, d) == Fingerprint(was, d)
    requires after[i].dependsOn != [] ==> after[i].depFp == Recorded(after, fps, after[i].dependsOn)
    ensures Rerun(Snapshot(before, was), before[i].id, Snapshot(after, fps))
  {
    forall j | 0 <= j < |before| ensures RerunRow(Snapshot(before, was), before[i].id, Snapshot(after, fps), j) {
      assert j != i ==> before[j].id != before[i].id;
    }
  }

  lemma {:induction false} AcceptedIsFresh(before: seq<Node>, after: seq<Node>, fps: map<string, string>, i: nat)
    requires i < |before| == |after|
    requires before[i].dependsOn != [] ==>
      after == before[i := before[i].(depFp := Recorded(before, fps, before[i].dependsOn))]
    requires before[i].dependsOn == [] ==> after == before
    ensures !IsStale(after[i], after, fps)
  {
    var n := after[i];
    forall k | 0 <= k < |n.dependsOn| ensures !Mismatch(n, after, fps, n.dependsOn[k]) {
      FindUpdated(before, after, n.dependsOn[k]);
    }
  }

  // ---- The cascade ----

  /** `id` was run again. It may end in any status with any deliverable, but if it is
      accepted its dependencies are recorded; other nodes may lose their acceptance
      (reopened or suspended) and new ones may appear that are not accepted yet. */
  ghost predicate Rerun(t: Snapshot, id: string, t': Snapshot) {
    && |t.nodes| <= |t'.nodes| && UniqueIds(t'.nodes)
    && (forall i | 0 <= i < |t.nodes| :: RerunRow(t, id, t', i))
    && (forall i | |t.nodes| <= i < |t'.nodes| :: t'.nodes[i].status != Complete)
    && (forall d | d != id :: Fingerprint(t'.fps, d) == Fingerprint(t.fps, d))
  }

  ghost predicate RerunRow(t: Snapshot, id: string, t': Snapshot, i: nat)
    requires i < |t.nodes| && i < |t'.nodes|
  {
    var n, n' := t.nodes[i], t'.nodes[i];
    && SameShape(n, n')
    && (n.id != id ==> n'.status != Complete || n' == n)
    && (n.id == id && n'.status == Complete && n'.dependsOn != [] ==>
          n'.depFp == Recorded(t'.nodes, t'.fps, n'.dependsOn))
  }

  /** After a rerun the node itself is not stale, and only its direct dependents can
      have become stale. */
  lemma {:induction false} RerunSpreadsOneStep(t: Snapshot, id: string, t': Snapshot, x: string)
    requires Rerun(t, id, t') && UniqueIds(t.nodes) && SiblingDependencies(t.nodes)
    requires x in Stale(t')
    ensures x != id && x in Ids(t.nodes)
    ensures x in Stale(t) || id in DepGraph(t.nodes)[x]
  {
    var n' :| n' in t'.nodes && IsStale(n', t'.nodes, t'.fps) && n'.id == x;
    var i :| 0 <= i < |t'.nodes| && t'.nodes[i] == n';
    assert RerunRow(t, id, t', i);
    var n := t.nodes[i];
    FindMember(t.nodes, n);
    var k :| 0 <= k < |n'.dependsOn| && Mismatch(n', t'.nodes, t'.fps, n'.dependsOn[k]);
    var d := n'.dependsOn[k];
    if n.id != id && d != id {
      assert NamesSibling(t.nodes, n, d);
      assert Mismatch(n, t.nodes, t.fps, n.dependsOn[k]);
    }
  }

  /** The other way round: of the nodes that were not stale and are still as they were, exactly those that
      depend on the rerun node go stale which have something else on record than it is worth now. */
  lemma {:induction false} RerunStalesDependents(t: Snapshot, id: string, t': Snapshot, n: Node)
    requires Rerun(t, id, t') && UniqueIds(t.nodes) && SiblingDependencies(t.nodes)
    requires n in t.nodes && n in t'.nodes && n.id != id && n.status == Complete && n.id !in Stale(t)
    ensures n.id in Stale(t') <==>
      id in n.dependsOn && (id in n.depFp ==> n.depFp[id] != if id in t'.fps then t'.fps[id] else "")
  {
    if n.id in Stale(t') {
      var n' :| n' in t'.nodes && IsStale(n', t'.nodes, t'.fps) && n'.id == n.id;
      FindMember(t'.nodes, n');
      FindMember(t'.nodes, n);
      var k :| 0 <= k < |n.dependsOn| && Mismatch(n, t'.nodes, t'.fps, n.dependsOn[k]);
      var d := n.dependsOn[k];
      assert NamesSibling(t.nodes, n, d);
      assert !IsStale(n, t.nodes, t.fps);
      assert !Mismatch(n, t.nodes, t.fps, d);
      assert Find(t.nodes, d).Some? && Fingerprint(t'.fps, d) != Fingerprint(t.fps, d);
    }
    if id in n.dependsOn && (id in n.depFp ==> n.depFp[id] != if id in t'.fps then t'.fps[id] else "") {
      assert NamesSibling(t.nodes, n, id);
      var m :| m in t.nodes && m.id == id;
      var i :| 0 <= i < |t.nodes| && t.nodes[i] == m;
      assert RerunRow(t, id, t', i) && t'.nodes[i] in t'.nodes;
      StaleMeans(t', n.id);
    }
  }

  /** `fps'` differs from `fps` for the deliverable of `id` alone. */
  ghost predicate OnlyMoves(fps: map<string, string>, fps': map<string, string>, id: string) {
    forall d | d != id :: Fingerprint(fps', d) == Fingerprint(fps, d)
  }

  /** A step of a run, but a replan or a split that meets a complete row, with the deliverable of one node
      rewritten, is a rerun of that node in the sense of the cascade: either the node completes, recorded as
      `complete` records it, or it is not complete afterwards. */
  lemma {:induction false} RunStepIsRerun(
    nodes: seq<Node>, stale: set<string>, step: Step, fps: map<string, string>, fps': map<string, string>, id: string)
    requires Invariant(nodes) && Enabled(nodes, stale, step) && OnlyMoves(fps, fps', id)
    requires RerunBy(nodes, step, fps', id)
    ensures Rerun(Snapshot(nodes, fps), id, Snapshot(Runs.After(nodes, step), fps'))
    ensures UniqueIds(nodes) && SiblingDependencies(nodes) && GraphGrows(nodes, Runs.After(nodes, step))
  {
    hide Recorded;
    var after := Runs.After(nodes, step);
    StepKeepsInvariant(nodes, stale, step);
    StepShape(nodes, step, fps', id, after);
    GraphOfPrefix(nodes, after);
    ShapeIsRerun(nodes, after, fps, fps', id);
  }

  ghost predicate RerunBy(nodes: seq<Node>, step: Step, fps: map<string, string>, id: string)
    requires step.Grow? ==> step.id in Ids(nodes)
  {
    && !step.Replan? && (step.Turn? ==> step.status != Complete)
    && (step.Grow? ==> forall k | k in step.left :: step.left[k].status != Complete)
    && if step.Finish? then step.id == id && RecordsItself(nodes, step, fps)
       else forall n | n in Runs.After(nodes, step) && n.id == id :: n.status != Complete
  }

  lemma {:induction false} ShapeIsRerun(
    nodes: seq<Node>, after: seq<Node>, fps: map<string, string>, fps': map<string, string>, id: string)
    requires |nodes| <= |after| && UniqueIds(after) && OnlyMoves(fps, fps', id)
    requires forall i | |nodes| <= i < |after| :: after[i].status != Complete
    requires forall i | 0 <= i < |nodes| :: RerunRow(Snapshot(nodes, fps), id, Snapshot(after, fps'), i)
    ensures Rerun(Snapshot(nodes, fps), id, Snapshot(after, fps'))
  {
  }

  /** The completing step records the fingerprints that its node's dependencies have now. */
  ghost predicate RecordsItself(nodes: seq<Node>, step: Step, fps: map<string, string>)
    requires step.Finish?
  {
    forall n | n in nodes && n.id == step.id && n.dependsOn != [] ::
      step.fps == Recorded(Runs.After(nodes, step), fps, n.dependsOn)
  }

  lemma {:induction false} NewRowsAreOpen(nodes: seq<Node>, step: Step, after: seq<Node>, i: nat)
    requires step.Grow? && step.id in Ids(nodes) && after == Runs.After(nodes, step)
    requires forall k | k in step.left :: step.left[k].status != Complete
    requires |nodes| <= i < |after|
    ensures after[i].status != Complete
  {
    hide NewChildren;
    NewChildAt(Find(nodes, step.id).value, step.cs, step.existing, i - |nodes|);
  }

  lemma {:induction false} OldRowIsRerun(
    nodes: seq<Node>, step: Step, fps: map<string, string>, id: string, after: seq<Node>,
    was: map<string, string>, i: nat)
    requires (step.Grow? ==> step.id in Ids(nodes)) && after == Runs.After(nodes, step)
    requires RerunBy(nodes, step, fps, id) && i < |nodes| && |nodes| <= |after|
    ensures SameShape(nodes[i], after[i]) && RerunRow(Snapshot(nodes, was), id, Snapshot(after, fps), i)
  {
    hide Kids, Recorded;
    assert nodes[i] in nodes && after[i] in after;
  }

  /** Old rows stay first and keep their shape; only the finished one can become complete. */
  lemma {:induction false} StepShape(
    nodes: seq<Node>, step: Step, fps: map<string, string>, id: string, after: seq<Node>)
    requires (step.Grow? ==> step.id in Ids(nodes)) && after == Runs.After(nodes, step)
    requires RerunBy(nodes, step, fps, id)
    ensures |nodes| <= |after|
    ensures forall i | |nodes| <= i < |after| :: after[i].status != Complete
    ensures forall i | 0 <= i < |nodes| :: SameShape(nodes[i], after[i])
    ensures forall was, i | 0 <= i < |nodes| :: RerunRow(Snapshot(nodes, was), id, Snapshot(after, fps), i)
  {
    StepLength(nodes, step, fps, id);
    hide RerunRow, SameShape, RerunBy, Runs.After;
    if step.Grow? {
      forall i | |nodes| <= i < |after| ensures after[i].status != Complete { NewRowsAreOpen(nodes, step, after, i); }
    }
    forall was, i | 0 <= i < |nodes|
      ensures SameShape(nodes[i], after[i]) && RerunRow(Snapshot(nodes, was), id, Snapshot(after, fps), i)
    {
      OldRowIsRerun(nodes, step, fps, id, after, was, i);
    }
  }

  lemma {:induction false} StepLength(nodes: seq<Node>, step: Step, fps: map<string, string>, id: string)
    requires (step.Grow? ==> step.id in Ids(nodes)) && RerunBy(nodes, step, fps, id)
    ensures |nodes| <= |Runs.After(nodes, step)| && (!step.Grow? ==> |Runs.After(nodes, step)| == |nodes|)
    ensures step.Grow? ==> forall k | k in step.left :: step.left[k].status != Complete
  {
  }

  /** Rows of the same shape at the front give the same entries. */
  lemma {:induction false} GraphOfPrefix(nodes: seq<Node>, after: seq<Node>)
    requires UniqueIds(nodes) && UniqueIds(after) && |nodes| <= |after|
    requires forall i | 0 <= i < |nodes| :: SameShape(nodes[i], after[i])
    ensures GraphGrows(nodes, after)
  {
    forall x | x in Ids(nodes) ensures x in Ids(after) && DepGraph(after)[x] == DepGraph(nodes)[x] {
      var n :| n in nodes && n.id == x;
      var i :| 0 <= i < |nodes| && nodes[i] == n;
      assert after[i] in after;
      FindMember(nodes, n);
      FindMember(after, after[i]);
    }
  }

  function Pow2(n: nat): (p: nat)
    ensures p > 0
    decreases n
  {
    if n == 0 then 1 else 2 * Pow2(n - 1)
  }

  /** The stale set read as a binary number, the earliest node of `order` its top bit. */
  function Weight(order: seq<string>, stale: set<string>): (w: nat)
    ensures w < Pow2(|order|)
  {
    if order == [] then 0
    else (if order[0] in stale then Pow2(|order| - 1) else 0) + Weight(order[1..], stale)
  }

  /** Clearing a bit outweighs setting any later ones. */
  lemma {:induction false} WeightDrops(order: seq<string>, stale: set<string>, stale': set<string>, b: nat)
    requires b < |order| && order[b] in stale && order[b] !in stale'
    requires forall j | 0 <= j < b && order[j] in stale' :: order[j] in stale
    ensures Weight(order, stale') < Weight(order, stale)
  {
    if b > 0 {
      WeightDrops(order[1..], stale, stale', b - 1);
    }
  }

  /** The nodes of a batch, run one after the other. */
  ghost predicate BatchRun(states: seq<Snapshot>, batch: seq<string>) {
    |states| == |batch| + 1 && forall k | 0 <= k < |batch| :: BatchStep(states, batch, k)
  }

  ghost predicate BatchStep(states: seq<Snapshot>, batch: seq<string>, k: nat)
    requires k < |batch| < |states|
  {
    && Rerun(states[k], batch[k], states[k + 1])
    && UniqueIds(states[k].nodes) && SiblingDependencies(states[k].nodes)
    && GraphGrows(states[k].nodes, states[k + 1].nodes)
  }

  ghost predicate GraphGrows(nodes: seq<Node>, nodes': seq<Node>) {
    forall x | x in Ids(nodes) :: x in Ids(nodes') && DepGraph(nodes')[x] == DepGraph(nodes)[x]
  }

  /** `order` lists some nodes of the tree, each after its dependencies. */
  ghost predicate Ordered(nodes: seq<Node>, order: seq<string>) {
    && (forall x | x in order :: x in Ids(nodes))
    && forall i, d | 0 <= i < |order| && d in DepGraph(nodes)[order[i]] :: d in order[..i]
  }

  lemma {:induction false} OrderKept(nodes: seq<Node>, nodes': seq<Node>, order: seq<string>)
    requires Ordered(nodes, order) && GraphGrows(nodes, nodes')
    ensures Ordered(nodes', order)
  {
    forall i, d | 0 <= i < |order| && d in DepGraph(nodes')[order[i]] ensures d in order[..i] {
      assert order[i] in order;
    }
  }

  /** Before position `b` nothing goes stale while only nodes from `b` on are run. */
  lemma {:induction false} EarlierBitsOnlyClear(
    states: seq<Snapshot>, batch: seq<string>, order: seq<string>, b: nat, k: nat, j: nat)
    requires BatchRun(states, batch) && Ordered(states[0].nodes, order) && b <= |order| && j < b && k <= |batch|
    requires forall n | n in batch :: n !in order[..b]
    requires order[j] in Stale(states[k])
    ensures order[j] in Stale(states[0])
  {
    hide Stale, Rerun, GraphGrows;
    OrderKeptThrough(states, batch, order, k);
    if k > 0 {
      assert BatchStep(states, batch, k - 1);
      OrderKeptThrough(states, batch, order, k - 1);
      assert batch[k - 1] in batch && order[j] in order;
      assert forall d | d in order[..j] :: d in order[..b];
      assert batch[k - 1] !in DepGraph(states[k - 1].nodes)[order[j]];
      RerunSpreadsOneStep(states[k - 1], batch[k - 1], states[k], order[j]);
      EarlierBitsOnlyClear(states, batch, order, b, k - 1, j);
    }
  }

  lemma {:induction false} OrderKeptThrough(states: seq<Snapshot>, batch: seq<string>, order: seq<string>, k: nat)
    requires BatchRun(states, batch) && Ordered(states[0].nodes, order) && k <= |batch|
    ensures Ordered(states[k].nodes, order)
  {
    if k > 0 {
      OrderKeptThrough(states, batch, order, k - 1);
      assert BatchStep(states, batch, k - 1);
      OrderKept(states[k - 1].nodes, states[k].nodes, order);
    }
  }

  /** Once the batch's earliest node has run, it does not go stale again in this batch. */
  lemma {:induction false} EarliestStaysFresh(
    states: seq<Snapshot>, batch: seq<string>, order: seq<string>, b: nat, at: nat, k: nat)
    requires BatchRun(states, batch) && Ordered(states[0].nodes, order) && b < |order|
    requires forall n | n in batch :: n !in order[..b]
    requires at < k <= |batch| && batch[at] == order[b]
    ensures order[b] !in Stale(states[k])
  {
    hide Stale, Ordered, Rerun, GraphGrows;
    var x, n := order[b], batch[k - 1];
    assert BatchStep(states, batch, k - 1);
    OrderKeptThrough(states, batch, order, k - 1);
    assert n in batch && x in order;
    assert n !in DepGraph(states[k - 1].nodes)[x];
    if at < k - 1 { EarliestStaysFresh(states, batch, order, b, at, k - 1); }
    if x in Stale(states[k]) {
      RerunSpreadsOneStep(states[k - 1], n, states[k], x);
    }
  }

  /** The first position of `order` that the batch runs. */
  lemma {:induction false} EarliestOf(batch: seq<string>, order: seq<string>) returns (b: nat)
    requires exists n :: n in batch && n in order
    ensures b < |order| && order[b] in batch && forall n | n in batch :: n !in order[..b]
  {
    var n :| n in batch && n in order;
    var i: nat :| i < |order| && order[i] == n;
    b := 0;
    while order[b] !in batch
      invariant b <= i && forall m | m in batch :: m !in order[..b]
      decreases i - b
    {
      assert order[..b + 1] == order[..b] + [order[b]];
      b := b + 1;
    }
  }

  /** Running any non-empty batch of stale nodes, in any order, however each ends,
      lowers the weight of the stale set. */
  lemma {:induction false} BatchLowersWeight(states: seq<Snapshot>, batch: seq<string>, order: seq<string>)
    requires BatchRun(states, batch) && Ordered(states[0].nodes, order)
    requires batch != [] && forall n | n in batch :: n in Stale(states[0]) && n in order
    ensures Weight(order, Stale(states[|batch|])) < Weight(order, Stale(states[0]))
  {
    assert batch[0] in batch && batch[0] in order;
    var b := EarliestOf(batch, order);
    var at :| 0 <= at < |batch| && batch[at] == order[b];
    EarliestStaysFresh(states, batch, order, b, at, |batch|);
    forall j | 0 <= j < b && order[j] in Stale(states[|batch|]) ensures order[j] in Stale(states[0]) {
      EarlierBitsOnlyClear(states, batch, order, b, |batch|, j);
    }
    WeightDrops(order, Stale(states[0]), Stale(states[|batch|]), b);
  }

  /** Batch after batch of stale nodes; `runs[b]` holds the trees the b-th batch goes through. */
  ghost predicate Cascade(runs: seq<seq<Snapshot>>, batches: seq<seq<string>>, order: seq<string>) {
    |runs| == |batches| && forall b | 0 <= b < |batches| :: CascadeStep(runs, batches, order, b)
  }

  ghost predicate CascadeStep(runs: seq<seq<Snapshot>>, batches: seq<seq<string>>, order: seq<string>, b: nat)
    requires b < |batches| == |runs|
  {
    && BatchRun(runs[b], batches[b]) && batches[b] != []
    && (forall n | n in batches[b] :: n in Stale(runs[b][0]) && n in order)
    && (b > 0 ==> runs[b - 1] != [] && runs[b][0] == runs[b - 1][|runs[b - 1]| - 1])
  }

  /** The re-verification cascade terminates: the number of batches is at most the
      weight of the stale set it starts from, below two to the number of nodes. */
  lemma {:induction false} CascadeTerminates(runs: seq<seq<Snapshot>>, batches: seq<seq<string>>, order: seq<string>)
    requires Cascade(runs, batches, order)
    requires runs != [] ==> runs[0] != [] && Ordered(runs[0][0].nodes, order)
    ensures runs != [] ==> |batches| <= Weight(order, Stale(runs[0][0])) < Pow2(|order|)
  {
    if runs != [] {
      var w := CascadePrefix(runs, batches, order, |batches|);
    }
  }

  lemma {:induction false} CascadePrefix(
    runs: seq<seq<Snapshot>>, batches: seq<seq<string>>, order: seq<string>, n: nat)
    returns (w: nat)
    requires Cascade(runs, batches, order) && 0 < n <= |batches|
    requires runs[0] != [] && Ordered(runs[0][0].nodes, order)
    ensures runs[n - 1] != [] && w == Weight(order, Stale(runs[n - 1][|runs[n - 1]| - 1]))
    ensures n + w <= Weight(order, Stale(runs[0][0]))
    ensures Ordered(runs[n - 1][|runs[n - 1]| - 1].nodes, order)
  {
    assert CascadeStep(runs, batches, order, n - 1);
    var states, batch := runs[n - 1], batches[n - 1];
    if n > 1 {
      var v := CascadePrefix(runs, batches, order, n - 1);
    }
    BatchLowersWeight(states, batch, order);
    OrderKeptThrough(states, batch, order, |batch|);
    w := Weight(order, Stale(states[|batch|]));
  }

  /** Such an order exists whenever sibling dependencies are acyclic. */
  lemma {:induction false} OrderExists(nodes: seq<Node>) returns (order: seq<string>)
    requires UniqueIds(nodes) && SiblingDependencies(nodes) && !Cyclic(DepGraph(nodes))
    ensures Ordered(nodes, order) && forall x :: x in order <==> x in Ids(nodes)
  {
    var g := DepGraph(nodes);
    SiblingGraphIsClosed(nodes);
    order := AcyclicIsOrdered(g);
    forall i, d | 0 <= i < |order| && d in g[order[i]] ensures d in order[..i] {
      assert order[i] in order;
      var k :| 0 <= k < |g[order[i]]| && g[order[i]][k] == d;
      assert Edge(g, order[i], d);
    }
  }
}

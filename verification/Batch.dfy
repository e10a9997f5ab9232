/** Parallel batches (src/scheduler.rs `run_batch_parallel`, src/git.rs `integrate_commit`): every node
    works in its own worktree off the same shared head; afterwards the commits are picked onto the
    shared tree in batch order. */
module Batch {
  import opened Text
  import opened Nodes
  import opened Selection
  import Attempts

  // ---- Integration ----

  type Tree = map<string, string>

  /** What `git cherry-pick` makes of a tree and a commit: the new tree, or none when it refuses. */
  type Git = (Tree, string) -> Option<Tree>

  /** How a worker came back: with its report, or not at all. */
  datatype Result = Finished(report: Attempts.Report) | Broken

  predicate Succeeded(r: Result) { r.Finished? && r.report.failed == 0 }

  function ShaOf(r: Result): Option<string> { if r.Finished? then r.report.lastCommit else None }

  /** What the batch works on: the shared history, its tree, and the node statuses. */
  datatype Shared = Shared(history: seq<string>, tree: Tree, status: map<string, Status>)

  predicate Picks(s: Shared, r: Result, git: Git) {
    ShaOf(r).Some? && git(s.tree, ShaOf(r).value).Some?
  }

  /** The state after one worker's result. */
  function Integrated(s: Shared, id: string, r: Result, git: Git): Shared {
    if r.Broken? then s.(status := s.status[id := Failed])
    else if ShaOf(r).None? then s
    else if Picks(s, r, git) then
      Shared(s.history + [ShaOf(r).value], git(s.tree, ShaOf(r).value).value,
             if Succeeded(r) then s.status[id := Complete] else s.status)
    else s.(status := s.status[id := Failed])
  }

  function After(s: Shared, ids: seq<string>, results: seq<Result>, git: Git, n: nat): Shared
    requires n <= |ids| && n <= |results|
    decreases n
  {
    if n == 0 then s
    else Integrated(After(s, ids, results, git, n - 1), ids[n - 1], results[n - 1], git)
  }

  class Repository {
    var history: seq<string>
    var tree: Tree
    var status: map<string, Status>

    function State(): Shared
      reads this
    {
      Shared(history, tree, status)
    }

    /** `integrate_commit`: a refused pick is aborted and leaves everything as it was. */
    method IntegrateCommit(sha: string, git: Git) returns (ok: bool)
      modifies this`history, this`tree
      ensures ok <==> git(old(tree), sha).Some?
      ensures ok ==> history == old(history) + [sha] && Some(tree) == git(old(tree), sha)
      ensures !ok ==> history == old(history) && tree == old(tree)
    {
      var picked := git(tree, sha);
      ok := picked.Some?;
      if ok {
        history := history + [sha];
        tree := picked.value;
      }
    }

    /** The loop over the joined workers. */
    method IntegrateBatch(ids: seq<string>, results: seq<Result>, git: Git) returns (failed: nat)
      requires |ids| == |results|
      modifies this
      ensures State() == After(old(State()), ids, results, git, |ids|)
      ensures failed == Failures(old(State()), ids, results, git, |ids|)
    {
      ghost var was := State();
      failed := 0;
      for i := 0 to |ids|
        invariant State() == After(was, ids, results, git, i)
        invariant failed == Failures(was, ids, results, git, i)
      {
        match results[i]
        case Finished(report) =>
          failed := failed + report.failed;
          if report.lastCommit.Some? {
            var ok := IntegrateCommit(report.lastCommit.value, git);
            if ok {
              if report.failed == 0 { status := status[ids[i] := Complete]; }
            } else {
              status := status[ids[i] := Failed];
              failed := failed + 1;
            }
          }
        case Broken =>
          status := status[ids[i] := Failed];
          failed := failed + 1;
      }
    }
  }

  function Failures(s: Shared, ids: seq<string>, results: seq<Result>, git: Git, n: nat): nat
    requires n <= |ids| && n <= |results|
    decreases n
  {
    if n == 0 then 0
    else
      var before, r := After(s, ids, results, git, n - 1), results[n - 1];
      Failures(s, ids, results, git, n - 1)
      + (if r.Broken? then 1 else r.report.failed + if ShaOf(r).Some? && !Picks(before, r, git) then 1 else 0)
  }

  // ---- What a batch leaves, whatever git does ----

  /** The `i`-th worker's commit was picked. */
  predicate Picked(s: Shared, ids: seq<string>, results: seq<Result>, git: Git, i: nat)
    requires i < |ids| && |ids| == |results|
  {
    Picks(After(s, ids, results, git, i), results[i], git)
  }

  /** The shas of the picked commits, in batch order. */
  function PickedShas(s: Shared, ids: seq<string>, results: seq<Result>, git: Git, n: nat): seq<string>
    requires n <= |ids| && |ids| == |results|
    decreases n
  {
    if n == 0 then []
    else
      PickedShas(s, ids, results, git, n - 1)
      + if Picked(s, ids, results, git, n - 1) then [ShaOf(results[n - 1]).value] else []
  }

  /** History only grows, by exactly the picked commits, in batch order. */
  lemma {:induction false} HistoryIsPicked(s: Shared, ids: seq<string>, results: seq<Result>, git: Git, n: nat)
    requires n <= |ids| && |ids| == |results|
    ensures After(s, ids, results, git, n).history == s.history + PickedShas(s, ids, results, git, n)
  {
    if n > 0 { HistoryIsPicked(s, ids, results, git, n - 1); }
  }

  ghost predicate DistinctIds(ids: seq<string>) { forall i, j | 0 <= i < j < |ids| :: ids[i] != ids[j] }

  /** A node's status after the batch is what its own worker's turn made it. */
  lemma {:induction false} StatusIsOwn(
    s: Shared, ids: seq<string>, results: seq<Result>, git: Git, i: nat, n: nat)
    requires i < n <= |ids| && |ids| == |results| && DistinctIds(ids) && ids[i] in s.status
    ensures ids[i] in After(s, ids, results, git, n).status
    ensures After(s, ids, results, git, n).status[ids[i]] ==
      if results[i].Broken? then Failed
      else if ShaOf(results[i]).None? then s.status[ids[i]]
      else if !Picked(s, ids, results, git, i) then Failed
      else if Succeeded(results[i]) then Complete else s.status[ids[i]]
  {
    if i < n - 1 {
      StatusIsOwn(s, ids, results, git, i, n - 1);
    } else {
      StatusIsUntouched(s, ids, results, git, ids[i], i);
    }
  }

  lemma {:induction false} StatusIsUntouched(
    s: Shared, ids: seq<string>, results: seq<Result>, git: Git, id: string, n: nat)
    requires n <= |ids| && |ids| == |results| && id in s.status && forall k | 0 <= k < n :: ids[k] != id
    ensures id in After(s, ids, results, git, n).status
    ensures After(s, ids, results, git, n).status[id] == s.status[id]
  {
    if n > 0 { StatusIsUntouched(s, ids, results, git, id, n - 1); }
  }

  /** What the attempt loop guarantees of a worker in a batch (module Attempts): a success with a commit is
      left running, a commit of a failed node is a checkpoint. */
  predicate FromWorker(r: Result, status: Status) {
    r.Finished? ==>
      && r.report.fate == Attempts.At(status)
      && r.report.failed == (if status == Failed then 1 else 0)
      && (r.report.lastCommit.Some? ==>
            && (status == Running <==> r.report.failed == 0)
            && (r.report.checkpoint <==> status == Failed))
  }

  /** The attempt loop delivers just that, whatever the executor, the gates and the critic answer, interrupted
      or not; without an interruption only a worker with a commit is left running. */
  lemma {:induction false} AttemptsGiveWorkers(
    ctx: Attempts.Context, max: nat, replies: nat -> Attempts.Reply, interrupted: nat -> bool,
    remaining: nat -> int, leftover: Attempts.Commit, rep: Attempts.Report)
    requires Attempts.Ran(ctx, max, replies, interrupted, remaining, leftover, rep)
    requires ctx.parallel && rep.fate.At?
    ensures FromWorker(Finished(rep), rep.fate.status)
    ensures rep.fate.status == Running ==>
      rep.lastCommit.Some? || Attempts.Interrupted(ctx, max, replies, interrupted, remaining, rep)
  {
    Attempts.NodeIsSettled(ctx, max, replies, interrupted, remaining, leftover, rep);
    if rep.lastCommit.Some? {
      Attempts.CommitsAreEarned(ctx, max, replies, interrupted, remaining, leftover, rep);
    }
  }

  /** Main result, at the batch boundary, whatever git accepts. A node that succeeded with a commit is complete
      exactly when that commit was picked, and failed otherwise; a checkpoint never completes its node; only a
      node that was left running without a commit is still running. */
  lemma {:induction false} BatchIsHonest(
    s: Shared, ids: seq<string>, results: seq<Result>, git: Git, i: nat)
    requires i < |ids| && |ids| == |results| && DistinctIds(ids) && ids[i] in s.status
    requires FromWorker(results[i], s.status[ids[i]])
    ensures ids[i] in After(s, ids, results, git, |ids|).status
    ensures var after, r := After(s, ids, results, git, |ids|), results[i];
            after.status[ids[i]] == Running <==>
              r.Finished? && ShaOf(r).None? && r.report.fate == Attempts.At(Running)
    ensures var after, r := After(s, ids, results, git, |ids|), results[i];
            Succeeded(r) && ShaOf(r).Some? ==>
              after.status[ids[i]] == if Picked(s, ids, results, git, i) then Complete else Failed
    ensures var after, r := After(s, ids, results, git, |ids|), results[i];
            r.Finished? && r.report.checkpoint && ShaOf(r).Some? ==> after.status[ids[i]] == Failed
    ensures results[i].Broken? ==> After(s, ids, results, git, |ids|).status[ids[i]] == Failed
  {
    StatusIsOwn(s, ids, results, git, i, |ids|);
  }

  /** And it is complete exactly when one of its attempts was verified and its commit, if it made one, was
      picked. */
  lemma {:induction false} CompleteIsVerified(
    s: Shared, ids: seq<string>, results: seq<Result>, git: Git, i: nat,
    ctx: Attempts.Context, max: nat, replies: nat -> Attempts.Reply, interrupted: nat -> bool,
    remaining: nat -> int, leftover: Attempts.Commit, rep: Attempts.Report)
    requires i < |ids| && |ids| == |results| && DistinctIds(ids) && ids[i] in s.status
    requires Attempts.Ran(ctx, max, replies, interrupted, remaining, leftover, rep) && ctx.parallel
    requires results[i] == Finished(rep) && rep.fate == Attempts.At(s.status[ids[i]])
    ensures ids[i] in After(s, ids, results, git, |ids|).status
    ensures After(s, ids, results, git, |ids|).status[ids[i]] == Complete <==>
      Attempts.SomeVerified(ctx, replies, rep.calls) && (rep.lastCommit.Some? ==> Picked(s, ids, results, git, i))
  {
    AttemptsGiveWorkers(ctx, max, replies, interrupted, remaining, leftover, rep);
    StatusIsOwn(s, ids, results, git, i, |ids|);
    Attempts.CompleteMeansVerified(ctx, max, replies, interrupted, remaining, leftover, rep);
  }

  // ---- What is counted ----

  /** The first `n` nodes that the given statuses call failed. */
  ghost function FailedNodes(ids: seq<string>, status: map<string, Status>, n: nat): set<nat>
    requires n <= |ids|
  {
    set i: nat | i < n && ids[i] in status && status[ids[i]] == Failed
  }

  /** Of the first `n` workers, those that failed and whose checkpoint was refused. */
  ghost function LostCheckpoints(
    s: Shared, ids: seq<string>, results: seq<Result>, git: Git, n: nat): set<nat>
    requires n <= |ids| && |ids| == |results|
  {
    set i: nat | i < n && results[i].Finished? && results[i].report.failed > 0
              && results[i].report.lastCommit.Some? && !Picked(s, ids, results, git, i)
  }

  /** The number of failures a batch reports is the number of its nodes that end failed, and one more for every
      failed node whose checkpoint was refused: it is counted once by its worker and once by the batch. */
  lemma {:induction false} FailuresMean(s: Shared, ids: seq<string>, results: seq<Result>, git: Git, n: nat)
    requires n <= |ids| && |ids| == |results| && DistinctIds(ids)
    requires forall i | 0 <= i < |ids| :: ids[i] in s.status && FromWorker(results[i], s.status[ids[i]])
    ensures Failures(s, ids, results, git, n) ==
      |FailedNodes(ids, After(s, ids, results, git, n).status, n)| + |LostCheckpoints(s, ids, results, git, n)|
  {
    if n > 0 {
      var m: nat := n - 1;
      FailuresMean(s, ids, results, git, m);
      StatusIsOwn(s, ids, results, git, m, n);
      forall i: nat | i < m
        ensures ids[i] in After(s, ids, results, git, n).status && ids[i] in After(s, ids, results, git, m).status
        ensures After(s, ids, results, git, n).status[ids[i]] == After(s, ids, results, git, m).status[ids[i]]
      {
        StatusIsOwn(s, ids, results, git, i, m);
        StatusIsOwn(s, ids, results, git, i, n);
      }
      hide After, Picked;
      OneMoreNode(ids, After(s, ids, results, git, m).status, After(s, ids, results, git, n).status, m, n);
      OneMoreCheckpoint(s, ids, results, git, m, n);
      OneMoreFailure(s, ids, results, git, m, n);
    }
  }

  lemma {:induction false} OneMoreNode(
    ids: seq<string>, status: map<string, Status>, status': map<string, Status>, m: nat, n: nat)
    requires n == m + 1 && n <= |ids| && ids[m] in status'
    requires forall i: nat | i < m :: ids[i] in status && ids[i] in status' && status'[ids[i]] == status[ids[i]]
    ensures |FailedNodes(ids, status', n)| ==
      |FailedNodes(ids, status, m)| + if status'[ids[m]] == Failed then 1 else 0
  {
    assert FailedNodes(ids, status', n) ==
      FailedNodes(ids, status, m) + if status'[ids[m]] == Failed then {m} else {};
  }

  lemma {:induction false} OneMoreCheckpoint(
    s: Shared, ids: seq<string>, results: seq<Result>, git: Git, m: nat, n: nat)
    requires n == m + 1 && n <= |ids| && |ids| == |results|
    ensures |LostCheckpoints(s, ids, results, git, n)| == |LostCheckpoints(s, ids, results, git, m)|
      + if results[m].Finished? && results[m].report.failed > 0 && results[m].report.lastCommit.Some?
           && !Picked(s, ids, results, git, m) then 1 else 0
  {
    hide Picked;
    var lost := results[m].Finished? && results[m].report.failed > 0 && results[m].report.lastCommit.Some?
             && !Picked(s, ids, results, git, m);
    assert LostCheckpoints(s, ids, results, git, n) ==
      LostCheckpoints(s, ids, results, git, m) + if lost then {m} else {};
  }

  lemma {:induction false} OneMoreFailure(
    s: Shared, ids: seq<string>, results: seq<Result>, git: Git, m: nat, n: nat)
    requires n == m + 1 && n <= |ids| && |ids| == |results|
    ensures Failures(s, ids, results, git, n) == Failures(s, ids, results, git, m)
      + if results[m].Broken? then 1
        else results[m].report.failed
             + if results[m].report.lastCommit.Some? && !Picked(s, ids, results, git, m) then 1 else 0
  {
  }

  // ---- Commits, file by file ----

  function FileAt(t: Tree, path: string): Option<string> { if path in t then Some(t[path]) else None }

  /** A commit: the tree it was made on and the tree it left. */
  datatype Commit = Commit(base: Tree, result: Tree)

  /** The paths a commit changes. */
  function Footprint(c: Commit): set<string> {
    set p | p in c.base.Keys + c.result.Keys && FileAt(c.base, p) != FileAt(c.result, p)
  }

  /** Nobody else has changed what the commit changes. */
  predicate Untouched(c: Commit, tree: Tree) {
    forall p | p in Footprint(c) :: FileAt(tree, p) == FileAt(c.base, p)
  }

  /** The tree with the commit's changes. */
  function Overlay(c: Commit, tree: Tree): Tree {
    var keep := tree - Footprint(c);
    keep + map p | p in c.result && p in Footprint(c) :: c.result[p]
  }

  /** All that is asked of git: a commit whose files nobody else has changed is picked, and changes just them.
      What it does with other commits, within a file or with an empty outcome, is left open. */
  ghost predicate PicksClean(git: Git, commits: map<string, Commit>) {
    forall t, sha | sha in commits && Untouched(commits[sha], t) :: git(t, sha) == Some(Overlay(commits[sha], t))
  }

  lemma {:induction false} OverlayAt(c: Commit, tree: Tree, path: string)
    ensures FileAt(Overlay(c, tree), path) ==
      if path in Footprint(c) then FileAt(c.result, path) else FileAt(tree, path)
  {
  }

  lemma {:induction false} SameTree(a: Tree, b: Tree)
    requires forall p :: FileAt(a, p) == FileAt(b, p)
    ensures a == b
  {
    forall p ensures p in a <==> p in b { assert FileAt(a, p) == FileAt(b, p); }
    forall p | p in a ensures a[p] == b[p] { assert FileAt(a, p) == FileAt(b, p); }
  }

  // ---- Disjoint work ----

  /** Picking commits one after the other; none when one of them is refused. */
  function PickAll(git: Git, tree: Tree, shas: seq<string>, n: nat): Option<Tree>
    requires n <= |shas|
    decreases n
  {
    if n == 0 then Some(tree)
    else
      var before := PickAll(git, tree, shas, n - 1);
      if before.None? then None else git(before.value, shas[n - 1])
  }

  /** Made on the same tree, changing different paths. */
  ghost predicate DisjointWork(tree: Tree, shas: seq<string>, commits: map<string, Commit>) {
    && (forall i | 0 <= i < |shas| :: shas[i] in commits && commits[shas[i]].base == tree)
    && (forall i, j | 0 <= i < j < |shas| :: Footprint(commits[shas[i]]) !! Footprint(commits[shas[j]]))
  }

  /** What a path holds once the commits are in: its one author's version, or what was there. */
  ghost predicate HoldsWork(
    tree: Tree, shas: seq<string>, commits: map<string, Commit>, n: nat, after: Tree, path: string)
    requires n <= |shas| && forall i | 0 <= i < |shas| :: shas[i] in commits
  {
    && (forall i | 0 <= i < n && path in Footprint(commits[shas[i]]) ::
          FileAt(after, path) == FileAt(commits[shas[i]].result, path))
    && ((forall i | 0 <= i < n :: path !in Footprint(commits[shas[i]])) ==> FileAt(after, path) == FileAt(tree, path))
  }

  ghost predicate HoldsAllWork(tree: Tree, shas: seq<string>, commits: map<string, Commit>, n: nat, after: Tree)
    requires n <= |shas| && forall i | 0 <= i < |shas| :: shas[i] in commits
  {
    forall p :: HoldsWork(tree, shas, commits, n, after, p)
  }

  lemma {:induction false} PickStep(
    tree: Tree, shas: seq<string>, commits: map<string, Commit>, n: nat, before: Tree, m: nat, after: Tree)
    requires m == n + 1 && n < |shas| && DisjointWork(tree, shas, commits)
    requires HoldsAllWork(tree, shas, commits, n, before) && after == Overlay(commits[shas[n]], before)
    ensures Untouched(commits[shas[n]], before) && HoldsAllWork(tree, shas, commits, m, after)
  {
    var c := commits[shas[n]];
    forall p | p in Footprint(c) ensures FileAt(before, p) == FileAt(c.base, p) {
      assert HoldsWork(tree, shas, commits, n, before, p);
      forall i | 0 <= i < n ensures p !in Footprint(commits[shas[i]]) {
        assert Footprint(commits[shas[i]]) !! Footprint(c);
      }
    }
    forall p ensures HoldsWork(tree, shas, commits, m, after, p) {
      OverlayAt(c, before, p);
      assert HoldsWork(tree, shas, commits, n, before, p);
      forall i | 0 <= i < n && p in Footprint(commits[shas[i]]) ensures p !in Footprint(c) {
        assert Footprint(commits[shas[i]]) !! Footprint(c);
      }
    }
  }

  /** Disjoint footprints all integrate, and the tree holds everybody's work. */
  lemma {:induction false} DisjointWorkIntegrates(
    git: Git, tree: Tree, shas: seq<string>, commits: map<string, Commit>, n: nat)
    requires n <= |shas| && PicksClean(git, commits) && DisjointWork(tree, shas, commits)
    ensures PickAll(git, tree, shas, n).Some?
    ensures HoldsAllWork(tree, shas, commits, n, PickAll(git, tree, shas, n).value)
  {
    if n > 0 {
      hide HoldsAllWork, DisjointWork;
      DisjointWorkIntegrates(git, tree, shas, commits, n - 1);
      var before := PickAll(git, tree, shas, n - 1).value;
      PickStep(tree, shas, commits, n - 1, before, n, Overlay(commits[shas[n - 1]], before));
    }
  }

  /** Main result: the order in which disjoint work is integrated does not matter. */
  lemma {:induction false} OrderDoesNotMatter(
    git: Git, tree: Tree, a: seq<string>, b: seq<string>, commits: map<string, Commit>)
    requires PicksClean(git, commits) && DisjointWork(tree, a, commits) && DisjointWork(tree, b, commits)
    requires forall sha :: sha in a <==> sha in b
    ensures PickAll(git, tree, a, |a|).Some? && PickAll(git, tree, a, |a|) == PickAll(git, tree, b, |b|)
  {
    DisjointWorkIntegrates(git, tree, a, commits, |a|);
    DisjointWorkIntegrates(git, tree, b, commits, |b|);
    var x, y := PickAll(git, tree, a, |a|).value, PickAll(git, tree, b, |b|).value;
    forall p ensures FileAt(x, p) == FileAt(y, p) {
      assert HoldsWork(tree, a, commits, |a|, x, p) && HoldsWork(tree, b, commits, |b|, y, p);
      assert forall j | 0 <= j < |b| :: b[j] in a;
      if i :| 0 <= i < |a| && p in Footprint(commits[a[i]]) {
        assert a[i] in b;
        var j :| 0 <= j < |b| && b[j] == a[i];
      }
    }
    SameTree(x, y);
  }

  /** The commits that the first `n` workers brought; the others split, failed, were interrupted or broke. */
  function Work(results: seq<Result>, n: nat): seq<string>
    requires n <= |results|
    decreases n
  {
    if n == 0 then []
    else Work(results, n - 1) + if ShaOf(results[n - 1]).Some? then [ShaOf(results[n - 1]).value] else []
  }

  lemma {:induction false} WorkPrefix(results: seq<Result>, n: nat, m: nat)
    requires n <= m <= |results|
    ensures Work(results, n) <= Work(results, m)
  {
    if n < m { WorkPrefix(results, n, m - 1); }
  }

  lemma {:induction false} PickAllPrefix(git: Git, tree: Tree, a: seq<string>, b: seq<string>, n: nat)
    requires a <= b && n <= |a|
    ensures PickAll(git, tree, a, n) == PickAll(git, tree, b, n)
  {
    if n > 0 { PickAllPrefix(git, tree, a, b, n - 1); }
  }

  lemma {:induction false} PickOneMore(git: Git, tree: Tree, shas: seq<string>, sha: string)
    ensures PickAll(git, tree, shas + [sha], |shas| + 1) ==
      var before := PickAll(git, tree, shas, |shas|);
      if before.None? then None else git(before.value, sha)
  {
    PickAllPrefix(git, tree, shas, shas + [sha], |shas|);
  }

  /** What disjointness gives of each turn: the commits so far are all picked. */
  lemma {:induction false} WorkIsPicked(
    git: Git, tree: Tree, results: seq<Result>, commits: map<string, Commit>, n: nat)
    requires n <= |results| && PicksClean(git, commits) && DisjointWork(tree, Work(results, |results|), commits)
    ensures PickAll(git, tree, Work(results, n), |Work(results, n)|).Some?
  {
    hide DisjointWork, PicksClean, PickAll, Work;
    WorkPrefix(results, n, |results|);
    DisjointWorkIntegrates(git, tree, Work(results, |results|), commits, |Work(results, n)|);
    PickAllPrefix(git, tree, Work(results, n), Work(results, |results|), |Work(results, n)|);
  }

  lemma {:induction false} TurnFollowsWork(
    before: Shared, id: string, r: Result, git: Git, tree: Tree, work: seq<string>)
    requires PickAll(git, tree, work, |work|) == Some(before.tree)
    requires ShaOf(r).Some? ==> PickAll(git, tree, work + [ShaOf(r).value], |work| + 1).Some?
    ensures ShaOf(r).None? ==> Integrated(before, id, r, git).tree == before.tree
    ensures ShaOf(r).Some? ==>
      && Picks(before, r, git)
      && PickAll(git, tree, work + [ShaOf(r).value], |work| + 1) == Some(Integrated(before, id, r, git).tree)
  {
    if ShaOf(r).Some? { PickOneMore(git, tree, work, ShaOf(r).value); }
  }

  /** Whatever git refuses, the tree is that of the picked commits, one on top of the other. */
  lemma {:induction false} TreeIsPicked(s: Shared, ids: seq<string>, results: seq<Result>, git: Git, n: nat)
    requires n <= |ids| && |ids| == |results|
    ensures var picked := PickedShas(s, ids, results, git, n);
      PickAll(git, s.tree, picked, |picked|) == Some(After(s, ids, results, git, n).tree)
  {
    if n > 0 {
      TreeIsPicked(s, ids, results, git, n - 1);
      var before := PickedShas(s, ids, results, git, n - 1);
      if Picked(s, ids, results, git, n - 1) {
        PickOneMore(git, s.tree, before, ShaOf(results[n - 1]).value);
      } else {
        assert PickedShas(s, ids, results, git, n) == before;
      }
    }
  }

  /** So a batch whose commits touch different files loses nobody's work, whoever else brought none: after any
      number of turns the tree is that of the commits so far, and each of them was picked. */
  lemma {:induction false} DisjointBatchIntegrates(
    s: Shared, ids: seq<string>, results: seq<Result>, git: Git, commits: map<string, Commit>, n: nat)
    requires n <= |ids| && |ids| == |results|
    requires PicksClean(git, commits) && DisjointWork(s.tree, Work(results, |results|), commits)
    ensures PickAll(git, s.tree, Work(results, n), |Work(results, n)|) == Some(After(s, ids, results, git, n).tree)
    ensures forall i | 0 <= i < n && ShaOf(results[i]).Some? :: Picked(s, ids, results, git, i)
  {
    if n > 0 {
      hide DisjointWork, PicksClean, PickAll, Integrated;
      DisjointBatchIntegrates(s, ids, results, git, commits, n - 1);
      WorkIsPicked(git, s.tree, results, commits, n);
      assert Work(results, n - 1) + [] == Work(results, n - 1);
      TurnFollowsWork(
        After(s, ids, results, git, n - 1), ids[n - 1], results[n - 1], git, s.tree, Work(results, n - 1));
    }
  }

  // ---- Which batches run in parallel ----

  /** `batch_is_independent`. */
  predicate BatchIsIndependent(batch: seq<Node>): (independent: bool)
    ensures independent <==> forall a, b | a in batch && b in batch :: b.id !in a.dependsOn
  {
    forall i, j | 0 <= i < |batch| && 0 <= j < |batch| :: batch[j].id !in batch[i].dependsOn
  }

  /** A batch of ready nodes is always independent: whoever depends on a pending node is not ready. */
  lemma {:induction false} ReadyBatchIsIndependent(nodes: seq<Node>, stale: set<string>, batch: seq<Node>)
    requires UniqueIds(nodes) && forall n | n in batch :: n in PendingTier(nodes, stale)
    ensures BatchIsIndependent(batch)
  {
    forall i, j | 0 <= i < |batch| && 0 <= j < |batch| ensures batch[j].id !in batch[i].dependsOn {
      assert batch[i] in PendingTier(nodes, stale) && batch[j] in PendingTier(nodes, stale);
      FindMember(nodes, batch[j]);
    }
  }
}

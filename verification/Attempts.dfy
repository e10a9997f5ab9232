/** The attempt loop of one node (src/scheduler.rs `run_one_node`). The executor, the owner of an
    escalation, the gates, the critic and git are answers given from outside. */
module Attempts {
  import opened Text
  import opened Contracts
  import opened Nodes
  import opened SplitTopology
  import opened Gates
  import Escalation
  import Ledger

  // ---- What the outside answers ----

  datatype Verdict = Pass | Rejected | VerifierError

  datatype Commit = Committed(sha: string) | NothingToCommit | CommitFailed

  /** One executor run and everything that is asked on account of it. */
  datatype Reply =
    | RunnerError(interrupted: bool)
    | NoteGlobal
    | Escalate(owned: bool, ruling: Escalation.Ruling)
    | EscalateResolve
    | ProposeSplit(subtasks: seq<Contract>, gatesRunnable: bool, stored: bool)
    | Complete(blank: bool, changed: bool, detected: seq<string>, run: nat -> Run, verdict: Verdict, commit: Commit)
    | Reopen(blankReason: bool, matched: bool)
    | UnknownVerb

  /** What is fixed when the node is taken up. */
  datatype Context = Context(
    wasSplit: bool,
    hasChildren: bool,
    hasParent: bool,
    depth: nat,
    existing: seq<string>,
    gates: seq<string>,
    budget: bool,
    fee: nat,
    parallel: bool)
  {
    predicate Aggregating() { wasSplit || hasChildren }
  }

  /** Where the node ends: a status, or deleted with its siblings by a replan. */
  datatype Fate = At(status: Status) | Removed

  datatype Report = Report(
    fate: Fate,
    calls: nat,
    completed: nat,
    splits: nat,
    failed: nat,
    lastCommit: Option<string>,
    checkpoint: bool)

  const MAX_DEPTH := 4

  // ---- What an attempt is worth ----

  function GatesOf(ctx: Context, r: Reply): seq<string>
    requires r.Complete?
  {
    ResolveGates(ctx.gates, r.detected, GateScope(ctx.hasParent, ctx.Aggregating()))
  }

  /** The answer says something, and children, a change on disk or a gate can bear it out. */
  predicate Substantial(ctx: Context, r: Reply) {
    r.Complete? && (ctx.hasChildren || !r.blank) && (ctx.hasChildren || r.changed || GatesOf(ctx, r) != [])
  }

  /** A completion that holds: every gate passed or is manual, and the critic said PASS. */
  predicate Verified(ctx: Context, r: Reply) {
    Substantial(ctx, r) && AllAccepted(GatesOf(ctx, r), r.run) && r.verdict == Pass
  }

  /** The gates accepted the work and only the critic rejected it. */
  predicate Contested(ctx: Context, r: Reply) {
    Substantial(ctx, r) && AllAccepted(GatesOf(ctx, r), r.run) && r.verdict == Rejected
  }

  /** A gate was reached that could not be executed. */
  ghost predicate ManualSeen(ctx: Context, r: Reply) {
    Substantial(ctx, r) && ManualReached(GatesOf(ctx, r), r.run)
  }

  function Allocations(cs: seq<Contract>): (r: seq<int>)
    ensures |r| == |cs| && forall i | 0 <= i < |cs| :: r[i] == cs[i].allocation
  {
    seq(|cs|, i requires 0 <= i < |cs| => cs[i].allocation)
  }

  /** Everything the scheduler asks of a split. */
  ghost predicate Approved(ctx: Context, r: Reply, remaining: int) {
    && r.ProposeSplit? && !ctx.Aggregating() && ctx.depth < MAX_DEPTH && r.subtasks != []
    && Accepted(r.subtasks, ctx.existing) && r.gatesRunnable
    && (ctx.budget ==> ctx.fee + Ledger.ExplicitTotal(Allocations(r.subtasks)) <= remaining)
  }

  predicate SentBack(ctx: Context, r: Reply) {
    r.Reopen? && ctx.hasChildren && !r.blankReason && r.matched
  }

  /** The attempts after which the node is not tried again. */
  ghost predicate Ends(ctx: Context, r: Reply, remaining: int) {
    match r
    case RunnerError(interrupted) => interrupted
    case Escalate(owned, ruling) =>
      !owned || ruling in {Escalation.DependsOn, Escalation.ReplanAgreed, Escalation.Unusable}
    case EscalateResolve => true
    case ProposeSplit(_, _, stored) => Approved(ctx, r, remaining) && stored
    case Complete(_, _, _, _, _, _) => Verified(ctx, r)
    case Reopen(_, _) => SentBack(ctx, r)
    case _ => false
  }

  function NewCommit(c: Commit): Option<string> { if c.Committed? then Some(c.sha) else None }

  /** How the node stands after an attempt that ends it, in its `calls`-th executor run. */
  function Ended(ctx: Context, r: Reply, calls: nat): Report {
    match r
    case Escalate(owned, ruling) =>
      if !owned || ruling == Escalation.Unusable then Report(At(Failed), calls, 0, 0, 1, None, false)
      else if ruling == Escalation.DependsOn then Report(At(Pending), calls, 0, 0, 0, None, false)
      else Report(Removed, calls, 0, 0, 0, None, false)
    case EscalateResolve => Report(At(Failed), calls, 0, 0, 1, None, false)
    case ProposeSplit(_, _, _) => Report(At(Split), calls, 0, 1, 0, None, false)
    case Complete(_, _, _, _, _, commit) =>
      Report(
        At(if ctx.parallel && commit.Committed? then Running else Status.Complete),
        calls, 1, 0, 0, NewCommit(commit), false)
    case Reopen(_, _) => Report(At(Split), calls, 0, 1, 0, None, false)
    case _ => Report(At(Running), calls, 0, 0, 0, None, false)
  }

  // ---- The loop ----

  /** Where an attempt leaves the loop. */
  datatype Step = Again(contested: bool, manual: bool) | End

  ghost predicate Steps(ctx: Context, r: Reply, remaining: int, step: Step) {
    if Ends(ctx, r, remaining) then step.End?
    else step.Again? && (step.contested <==> Contested(ctx, r)) && (step.manual <==> ManualSeen(ctx, r))
  }

  /** The checks on a proposed split, in the scheduler's order. */
  method AttemptSplit(ctx: Context, r: Reply, remaining: int) returns (step: Step)
    requires r.ProposeSplit?
    ensures Steps(ctx, r, remaining, step)
  {
    step := Again(false, false);
    if ctx.Aggregating() || ctx.depth >= MAX_DEPTH || r.subtasks == [] { return; }
    var accepted := TopologyAccepted(r.subtasks, ctx.existing);
    if !accepted || !r.gatesRunnable { return; }
    if ctx.budget && ctx.fee + Ledger.ExplicitTotal(Allocations(r.subtasks)) > remaining { return; }
    if r.stored { step := End; }
  }

  /** The topology check, reduced to its verdict. */
  method TopologyAccepted(subtasks: seq<Contract>, existing: seq<string>) returns (accepted: bool)
    ensures accepted <==> Accepted(subtasks, existing)
  {
    var rejection := RejectSplitTopology(subtasks, existing);
    accepted := rejection.None?;
  }

  /** A claimed completion: refused when blank or without evidence, then gates, then the critic. */
  method AttemptComplete(ctx: Context, r: Reply, remaining: int) returns (step: Step)
    requires r.Complete?
    ensures Steps(ctx, r, remaining, step)
  {
    if !ctx.hasChildren && r.blank { return Again(false, false); }
    var gates := ResolveGates(ctx.gates, r.detected, GateScope(ctx.hasParent, ctx.Aggregating()));
    if !ctx.hasChildren && !r.changed && gates == [] { return Again(false, false); }
    var accepted, manual := JudgeGates(gates, r.run);
    if !accepted { return Again(false, manual); }
    match r.verdict
    case Pass => step := End;
    case Rejected => step := Again(true, manual);
    case VerifierError => step := Again(false, manual);
  }

  ghost predicate ManualReached(gates: seq<string>, run: nat -> Run) {
    exists k | 0 <= k < |gates| :: run(k).manual && AllAccepted(gates[..k], run)
  }

  /** The gates of a completion: run, look for manual ones, look for failures. */
  method JudgeGates(gates: seq<string>, run: nat -> Run) returns (accepted: bool, manual: bool)
    ensures accepted <==> AllAccepted(gates, run)
    ensures manual <==> ManualReached(gates, run)
  {
    var outcomes := RunGates(gates, run);
    NoFailureMeansAccepted(gates, run, outcomes);
    ManualOutcomes(gates, run, outcomes);
    manual := exists k | 0 <= k < |outcomes| :: outcomes[k].run.manual;
    var failures := FormatFailures(outcomes);
    accepted := failures.None?;
  }

  /** A manual gate among the outcomes is a manual gate that was reached. */
  lemma {:induction false} ManualOutcomes(gates: seq<string>, run: nat -> Run, outcomes: seq<Outcome>)
    requires StopsAtFailure(gates, run, outcomes)
    ensures (exists k | 0 <= k < |outcomes| :: outcomes[k].run.manual)
       <==> ManualReached(gates, run)
  {
    forall k | 0 <= k < |outcomes| && outcomes[k].run.manual ensures run(k).manual && AllAccepted(gates[..k], run) {
      assert outcomes[k] == Outcome(gates[k], run(k));
      forall j | 0 <= j < k ensures run(j).passed || run(j).manual {
        assert outcomes[j] == Outcome(gates[j], run(j)) && !Gates.Failed(outcomes[j]);
      }
    }
    forall k | 0 <= k < |gates| && run(k).manual && AllAccepted(gates[..k], run)
      ensures k < |outcomes| && outcomes[k].run.manual
    {
      if |outcomes| < |gates| { LastFailed(gates, run, outcomes, k); }
    }
  }

  lemma {:induction false} LastFailed(gates: seq<string>, run: nat -> Run, outcomes: seq<Outcome>, k: nat)
    requires StopsAtFailure(gates, run, outcomes) && |outcomes| < |gates|
    requires k < |gates| && AllAccepted(gates[..k], run)
    ensures k < |outcomes|
  {
    var last := |outcomes| - 1;
    assert outcomes[last] == Outcome(gates[last], run(last)) && Gates.Failed(outcomes[last]);
    assert !(run(last).passed || run(last).manual);
  }

  method Attempt(ctx: Context, r: Reply, remaining: int) returns (step: Step)
    ensures Steps(ctx, r, remaining, step)
  {
    match r
    case RunnerError(interrupted) => step := if interrupted then End else Again(false, false);
    case Escalate(owned, ruling) =>
      step := if owned && (ruling.Amend? || ruling.Overrule? || ruling.ReplanRefused?)
        then Again(false, false) else End;
    case EscalateResolve => step := End;
    case ProposeSplit(_, _, _) => step := AttemptSplit(ctx, r, remaining);
    case Complete(_, _, _, _, _, _) => step := AttemptComplete(ctx, r, remaining);
    case Reopen(blankReason, matched) =>
      step := if !ctx.hasChildren || blankReason || !matched then Again(false, false) else End;
    case _ => step := Again(false, false);
  }

  /** An attempt of an oracle of replies. */
  ghost predicate EndsAt(ctx: Context, replies: nat -> Reply, remaining: nat -> int, i: nat) {
    Ends(ctx, replies(i), remaining(i))
  }

  ghost predicate Preserved(ctx: Context, replies: nat -> Reply, n: nat) {
    exists i | 0 <= i < n :: Contested(ctx, replies(i)) || ManualSeen(ctx, replies(i))
  }

  /** The node ran out of attempts: it fails, its contested work kept as a checkpoint if any is left. */
  function Exhausted(calls: nat, preserved: bool, leftover: Commit): Report {
    Report(
      At(Failed), calls, 0, 0, 1, if preserved then NewCommit(leftover) else None, preserved && leftover.Committed?)
  }

  /** Everything one run of a node can be. */
  ghost predicate Ran(
    ctx: Context, max: nat, replies: nat -> Reply, interrupted: nat -> bool, remaining: nat -> int, leftover: Commit,
    rep: Report)
  {
    if !ctx.Aggregating() && ctx.budget && remaining(0) <= 0 then rep == Report(At(Failed), 0, 0, 0, 1, None, false)
    else
      && rep.calls <= max
      && (forall i | 0 <= i < rep.calls :: !interrupted(i))
      && (forall i | 0 <= i < rep.calls - 1 :: !EndsAt(ctx, replies, remaining, i))
      && if rep.calls > 0 && EndsAt(ctx, replies, remaining, rep.calls - 1)
         then rep == Ended(ctx, replies(rep.calls - 1), rep.calls)
         else if rep.calls < max
         then interrupted(rep.calls) && rep == Report(At(Running), rep.calls, 0, 0, 0, None, false)
         else rep == Exhausted(max, Preserved(ctx, replies, max), leftover)
  }

  /** The loop. `interrupted(i)` is the flag read before the `i`-th attempt, `remaining(i)` the allowance
      read then, and `leftover` what committing the uncommitted rest would give. */
  method RunOneNode(
    ctx: Context, max: nat, replies: nat -> Reply, interrupted: nat -> bool, remaining: nat -> int, leftover: Commit)
    returns (rep: Report)
    ensures Ran(ctx, max, replies, interrupted, remaining, leftover, rep)
  {
    if !ctx.Aggregating() && ctx.budget && remaining(0) <= 0 {
      return Report(At(Failed), 0, 0, 0, 1, None, false);
    }
    var contested, manual := false, false;
    for attempt := 0 to max
      invariant forall i | 0 <= i < attempt :: !interrupted(i) && !EndsAt(ctx, replies, remaining, i)
      invariant contested || manual <==> Preserved(ctx, replies, attempt)
    {
      if interrupted(attempt) {
        return Report(At(Running), attempt, 0, 0, 0, None, false);
      }
      var step := Attempt(ctx, replies(attempt), remaining(attempt));
      if step.End? {
        return Ended(ctx, replies(attempt), attempt + 1);
      }
      contested, manual := contested || step.contested, manual || step.manual;
    }
    rep := Exhausted(max, contested || manual, leftover);
  }

  // ---- What a run of a node guarantees ----

  /** The allowance was used up before the first attempt; a node that aggregates is exempt. */
  ghost predicate NoAllowance(ctx: Context, remaining: nat -> int) {
    ctx.budget && !ctx.wasSplit && !ctx.hasChildren && remaining(0) <= 0
  }

  /** The gates a completion answers to: the node's own; without any, the detected suite unless it is a leaf
      below the root. */
  ghost function Asked(ctx: Context, r: Reply): seq<string>
    requires r.Complete?
  {
    if ctx.gates == [] && ctx.hasParent && !ctx.wasSplit && !ctx.hasChildren then []
    else if ctx.gates == [] then r.detected
    else ctx.gates
  }

  /** A completion whose gates are run: with children, or with something to say and something to show. */
  ghost predicate Examined(ctx: Context, r: Reply) {
    r.Complete? && (ctx.hasChildren || (!r.blank && (r.changed || Asked(ctx, r) != [])))
  }

  /** A completion that got as far as the critic: every gate passed, or could not be executed. */
  ghost predicate Judged(ctx: Context, r: Reply) {
    Examined(ctx, r) && forall k | 0 <= k < |Asked(ctx, r)| && !r.run(k).passed :: r.run(k).manual
  }

  /** A completion with a gate that could not be executed, reached because nothing before it failed. */
  ghost predicate Unexecutable(ctx: Context, r: Reply) {
    Examined(ctx, r) && exists k | 0 <= k < |Asked(ctx, r)| ::
      r.run(k).manual && forall j | 0 <= j < k && !r.run(j).passed :: r.run(j).manual
  }

  /** The replies after which the loop goes on, field by field. */
  ghost predicate TriedAgain(ctx: Context, r: Reply, remaining: int) {
    match r
    case RunnerError(interrupted) => !interrupted
    case NoteGlobal => true
    case UnknownVerb => true
    case Escalate(owned, ruling) =>
      owned && (ruling.Amend? || ruling.Overrule? || ruling.ReplanRefused?)
    case EscalateResolve => false
    case ProposeSplit(subtasks, gatesRunnable, stored) =>
      || ctx.wasSplit || ctx.hasChildren || ctx.depth >= 4 || subtasks == [] || !Accepted(subtasks, ctx.existing)
      || !gatesRunnable || !stored
      || (ctx.budget && ctx.fee + Ledger.ExplicitTotal(Allocations(subtasks)) > remaining)
    case Complete(_, _, _, _, verdict, _) => !Judged(ctx, r) || verdict == Rejected || verdict == VerifierError
    case Reopen(blankReason, matched) => !ctx.hasChildren || blankReason || !matched
  }

  lemma {:induction false} JudgedMeans(ctx: Context, r: Reply)
    ensures r.Complete? ==> GatesOf(ctx, r) == Asked(ctx, r)
    ensures Examined(ctx, r) <==> Substantial(ctx, r)
    ensures Judged(ctx, r) <==> Substantial(ctx, r) && AllAccepted(GatesOf(ctx, r), r.run)
  {
  }

  lemma {:induction false} UnexecutableMeans(ctx: Context, r: Reply)
    ensures Unexecutable(ctx, r) <==> ManualSeen(ctx, r)
  {
    JudgedMeans(ctx, r);
    if Unexecutable(ctx, r) {
      var k :| 0 <= k < |Asked(ctx, r)|
            && r.run(k).manual && forall j | 0 <= j < k && !r.run(j).passed :: r.run(j).manual;
      assert AllAccepted(GatesOf(ctx, r)[..k], r.run);
    }
    if ManualSeen(ctx, r) {
      var k :| 0 <= k < |GatesOf(ctx, r)| && r.run(k).manual && AllAccepted(GatesOf(ctx, r)[..k], r.run);
      assert forall j | 0 <= j < k && !r.run(j).passed :: r.run(j).manual;
    }
  }

  lemma {:induction false} EndsMeans(ctx: Context, r: Reply, remaining: int)
    ensures Ends(ctx, r, remaining) <==> !TriedAgain(ctx, r, remaining)
  {
    hide Accepted, Judged, Substantial, AllAccepted;
    JudgedMeans(ctx, r);
  }

  /** No attempt but the last ends the loop, none is made once the run is interrupted, and after the last
      the loop ended, was interrupted or had used up its attempts. */
  lemma {:induction false} LoopMeans(
    ctx: Context, max: nat, replies: nat -> Reply, interrupted: nat -> bool, remaining: nat -> int, leftover: Commit,
    rep: Report)
    requires Ran(ctx, max, replies, interrupted, remaining, leftover, rep)
    ensures rep.calls <= max && (NoAllowance(ctx, remaining) ==> rep.calls == 0)
    ensures forall i | 0 <= i < rep.calls :: !interrupted(i)
    ensures forall i | 0 <= i < rep.calls - 1 :: TriedAgain(ctx, replies(i), remaining(i))
    ensures NoAllowance(ctx, remaining) || rep.calls == max || interrupted(rep.calls)
      || (rep.calls > 0 && !TriedAgain(ctx, replies(rep.calls - 1), remaining(rep.calls - 1)))
  {
    hide Ends, TriedAgain, Ended, Exhausted;
    forall i: nat ensures EndsAt(ctx, replies, remaining, i) <==> !TriedAgain(ctx, replies(i), remaining(i)) {
      EndsMeans(ctx, replies(i), remaining(i));
    }
  }

  /** Every attempt was made and none of them ended the loop. */
  ghost predicate UsedUp(ctx: Context, max: nat, replies: nat -> Reply, remaining: nat -> int, rep: Report) {
    && !NoAllowance(ctx, remaining) && rep.calls == max
    && (max == 0 || TriedAgain(ctx, replies(max - 1), remaining(max - 1)))
  }

  /** An escalation nobody owns or nobody settles, and a ruling nobody asked for, fail the node. */
  ghost predicate FailsAtOnce(r: Reply) {
    r.EscalateResolve? || (r.Escalate? && (r.owned ==> r.ruling.Unusable?))
  }

  /** How the loop can come to its end. */
  ghost predicate EndedBy(ctx: Context, replies: nat -> Reply, remaining: nat -> int, rep: Report) {
    && !NoAllowance(ctx, remaining) && rep.calls > 0
    && !TriedAgain(ctx, replies(rep.calls - 1), remaining(rep.calls - 1))
  }

  lemma {:induction false} RanCases(
    ctx: Context, max: nat, replies: nat -> Reply, interrupted: nat -> bool, remaining: nat -> int, leftover: Commit,
    rep: Report)
    requires Ran(ctx, max, replies, interrupted, remaining, leftover, rep)
    ensures NoAllowance(ctx, remaining) ==> rep == Report(At(Failed), 0, 0, 0, 1, None, false)
    ensures EndedBy(ctx, replies, remaining, rep) ==>
      rep == Ended(ctx, replies(rep.calls - 1), rep.calls)
    ensures UsedUp(ctx, max, replies, remaining, rep) ==>
      rep == Exhausted(max, Preserved(ctx, replies, max), leftover)
    ensures NoAllowance(ctx, remaining) || EndedBy(ctx, replies, remaining, rep)
      || UsedUp(ctx, max, replies, remaining, rep)
      || (rep.calls < max && rep == Report(At(Running), rep.calls, 0, 0, 0, None, false))
  {
    hide Ends, TriedAgain, Ended, Exhausted;
    forall i: nat ensures EndsAt(ctx, replies, remaining, i) <==> !TriedAgain(ctx, replies(i), remaining(i)) {
      EndsMeans(ctx, replies(i), remaining(i));
    }
  }

  /** Main result: where a run leaves its node, read off the replies. Pending, after an owner asked for a
      dependency first; gone, after an agreed replan; failed, without an allowance, with every attempt used up,
      after an escalation that nobody owns or settles and after an unasked ruling, and in no other case. */
  lemma {:induction false} FateMeans(
    ctx: Context, max: nat, replies: nat -> Reply, interrupted: nat -> bool, remaining: nat -> int, leftover: Commit,
    rep: Report)
    requires Ran(ctx, max, replies, interrupted, remaining, leftover, rep)
    ensures rep.fate == At(Pending) <==>
      rep.calls > 0 && replies(rep.calls - 1) == Escalate(true, Escalation.DependsOn)
    ensures rep.fate == Removed <==>
      rep.calls > 0 && replies(rep.calls - 1) == Escalate(true, Escalation.ReplanAgreed)
    ensures rep.fate == At(Failed) <==>
      || NoAllowance(ctx, remaining) || UsedUp(ctx, max, replies, remaining, rep)
      || (rep.calls > 0 && FailsAtOnce(replies(rep.calls - 1)))
  {
    RanCases(ctx, max, replies, interrupted, remaining, leftover, rep);
    hide Ran, Accepted, Judged, Preserved;
  }

  ghost predicate SomeVerified(ctx: Context, replies: nat -> Reply, calls: nat) {
    exists i | 0 <= i < calls :: Judged(ctx, replies(i)) && replies(i).verdict == Pass
  }

  lemma {:induction false} VerifiedIsLast(
    ctx: Context, max: nat, replies: nat -> Reply, interrupted: nat -> bool, remaining: nat -> int, leftover: Commit,
    rep: Report)
    requires Ran(ctx, max, replies, interrupted, remaining, leftover, rep)
    ensures SomeVerified(ctx, replies, rep.calls) <==>
      EndedBy(ctx, replies, remaining, rep) && replies(rep.calls - 1).Complete?
  {
    LoopMeans(ctx, max, replies, interrupted, remaining, leftover, rep);
    hide Ran, Judged, Accepted;
    if i: nat :| i < rep.calls && Judged(ctx, replies(i)) && replies(i).verdict == Pass {
      assert !TriedAgain(ctx, replies(i), remaining(i));
    }
    if EndedBy(ctx, replies, remaining, rep) && replies(rep.calls - 1).Complete? {
      assert Judged(ctx, replies(rep.calls - 1)) && replies(rep.calls - 1).verdict == Pass;
    }
  }

  /** Main result: the loop fails closed. A node is complete, or in a parallel worker left running with a commit
      to integrate, exactly when one of its attempts passed every gate and the critic, and the executor ran at
      most `max` times. */
  lemma {:induction false} CompleteMeansVerified(
    ctx: Context, max: nat, replies: nat -> Reply, interrupted: nat -> bool, remaining: nat -> int, leftover: Commit,
    rep: Report)
    requires Ran(ctx, max, replies, interrupted, remaining, leftover, rep)
    ensures rep.calls <= max
    ensures rep.fate == At(Status.Complete) || (rep.fate == At(Running) && rep.lastCommit.Some?) <==>
      SomeVerified(ctx, replies, rep.calls)
    ensures SomeVerified(ctx, replies, rep.calls) ==> rep.calls > 0 && replies(rep.calls - 1).Complete?
    ensures rep.fate == At(Running) && rep.lastCommit.Some? <==>
      ctx.parallel && SomeVerified(ctx, replies, rep.calls) && replies(rep.calls - 1).commit.Committed?
    ensures rep.completed == if SomeVerified(ctx, replies, rep.calls) then 1 else 0
  {
    RanCases(ctx, max, replies, interrupted, remaining, leftover, rep);
    VerifiedIsLast(ctx, max, replies, interrupted, remaining, leftover, rep);
    LoopMeans(ctx, max, replies, interrupted, remaining, leftover, rep);
    hide Ran, Judged, Accepted, Preserved, SomeVerified;
  }

  /** The run was stopped: by an executor that was interrupted, or by the flag before an attempt. */
  ghost predicate Interrupted(
    ctx: Context, max: nat, replies: nat -> Reply, interrupted: nat -> bool, remaining: nat -> int, rep: Report)
  {
    && !NoAllowance(ctx, remaining)
    && if rep.calls > 0 && replies(rep.calls - 1) == RunnerError(true) then true
       else
         && rep.calls < max && interrupted(rep.calls)
         && (rep.calls > 0 ==> TriedAgain(ctx, replies(rep.calls - 1), remaining(rep.calls - 1)))
  }

  /** A run leaves the node complete, failed, split, pending, removed or running; running exactly when it was
      interrupted or, in a parallel worker, with a commit still to be integrated. */
  lemma {:induction false} NodeIsSettled(
    ctx: Context, max: nat, replies: nat -> Reply, interrupted: nat -> bool, remaining: nat -> int, leftover: Commit,
    rep: Report)
    requires Ran(ctx, max, replies, interrupted, remaining, leftover, rep)
    ensures rep.fate in {At(Status.Complete), At(Failed), At(Split), At(Pending), Removed, At(Running)}
    ensures rep.fate == At(Running) <==>
      Interrupted(ctx, max, replies, interrupted, remaining, rep)
      || (ctx.parallel && rep.failed == 0 && rep.lastCommit.Some?)
    ensures Interrupted(ctx, max, replies, interrupted, remaining, rep) ==> rep.failed == 0 && rep.lastCommit.None?
    ensures rep.failed == if rep.fate == At(Failed) then 1 else 0
    ensures rep.splits == if rep.fate == At(Split) then 1 else 0
  {
    RanCases(ctx, max, replies, interrupted, remaining, leftover, rep);
    LoopMeans(ctx, max, replies, interrupted, remaining, leftover, rep);
    hide Ran, Judged, Accepted, Preserved;
  }

  /** An attempt that proposed a split which passed every check and was stored, or sent children back. */
  ghost predicate SplitsAt(ctx: Context, replies: nat -> Reply, remaining: nat -> int, i: nat) {
    match replies(i)
    case ProposeSplit(subtasks, gatesRunnable, stored) =>
      && !ctx.wasSplit && !ctx.hasChildren && ctx.depth < 4 && |subtasks| > 0 && Accepted(subtasks, ctx.existing)
      && gatesRunnable && stored
      && (!ctx.budget || remaining(i) >= ctx.fee + Ledger.ExplicitTotal(Allocations(subtasks)))
    case Reopen(blankReason, matched) => ctx.hasChildren && matched && !blankReason
    case _ => false
  }

  /** A node is split exactly when the last attempt was an approved, stored split or sent children back. */
  lemma {:induction false} SplitMeansApproved(
    ctx: Context, max: nat, replies: nat -> Reply, interrupted: nat -> bool, remaining: nat -> int, leftover: Commit,
    rep: Report, last: nat)
    requires Ran(ctx, max, replies, interrupted, remaining, leftover, rep) && rep.calls == last + 1
    ensures rep.fate == At(Split) <==> SplitsAt(ctx, replies, remaining, last)
  {
    hide Ran, TriedAgain, SplitsAt, Preserved, UsedUp, NoAllowance;
    RanCases(ctx, max, replies, interrupted, remaining, leftover, rep);
    SplitEnds(ctx, replies, remaining, last);
  }

  lemma {:induction false} SplitEnds(ctx: Context, replies: nat -> Reply, remaining: nat -> int, last: nat)
    ensures SplitsAt(ctx, replies, remaining, last) <==>
      (replies(last).ProposeSplit? || replies(last).Reopen?) && !TriedAgain(ctx, replies(last), remaining(last))
  {
    hide Accepted, Judged;
  }

  /** Some attempt left work that every gate let pass and only the critic rejected, or that a gate which could
      not be executed left undecided. */
  ghost predicate WorkIsKept(ctx: Context, replies: nat -> Reply, max: nat) {
    exists i | 0 <= i < max ::
      Unexecutable(ctx, replies(i)) || (Judged(ctx, replies(i)) && replies(i).verdict == Rejected)
  }

  lemma {:induction false} PreservedMeans(ctx: Context, replies: nat -> Reply, max: nat)
    ensures Preserved(ctx, replies, max) <==> WorkIsKept(ctx, replies, max)
  {
    hide Unexecutable, ManualSeen, AllAccepted, Substantial;
    forall i: nat
      ensures Contested(ctx, replies(i)) || ManualSeen(ctx, replies(i)) <==>
        Unexecutable(ctx, replies(i)) || (Judged(ctx, replies(i)) && replies(i).verdict == Rejected)
    {
      JudgedMeans(ctx, replies(i));
      UnexecutableMeans(ctx, replies(i));
    }
  }

  /** A checkpoint is made exactly of what is left uncommitted when every attempt is used up and some attempt's
      work was contested or unexecutable; any other commit is that of a verified attempt. */
  lemma {:induction false} CommitsAreEarned(
    ctx: Context, max: nat, replies: nat -> Reply, interrupted: nat -> bool, remaining: nat -> int, leftover: Commit,
    rep: Report)
    requires Ran(ctx, max, replies, interrupted, remaining, leftover, rep)
    ensures rep.checkpoint <==>
      UsedUp(ctx, max, replies, remaining, rep) && WorkIsKept(ctx, replies, max) && leftover.Committed?
    ensures rep.checkpoint ==> rep.fate == At(Failed) && rep.lastCommit == Some(leftover.sha)
    ensures rep.lastCommit.Some? && !rep.checkpoint <==>
      SomeVerified(ctx, replies, rep.calls) && replies(rep.calls - 1).Complete?
      && replies(rep.calls - 1).commit.Committed?
    ensures rep.lastCommit.Some? && !rep.checkpoint ==>
      rep.failed == 0 && rep.lastCommit == Some(replies(rep.calls - 1).commit.sha)
  {
    RanCases(ctx, max, replies, interrupted, remaining, leftover, rep);
    VerifiedIsLast(ctx, max, replies, interrupted, remaining, leftover, rep);
    PreservedMeans(ctx, replies, max);
    hide Ran, Judged, Accepted, Preserved, SomeVerified, WorkIsKept;
  }

  /** The node's row among the given ones. */
  ghost function FateIn(nodes: seq<Node>, id: string): Fate {
    if Find(nodes, id).Some? then At(Find(nodes, id).value.status) else Removed
  }

  lemma {:induction false} RulingEnds(
    ctx: Context, max: nat, replies: nat -> Reply, interrupted: nat -> bool, remaining: nat -> int, leftover: Commit,
    rep: Report, ruling: Escalation.Ruling)
    requires Ran(ctx, max, replies, interrupted, remaining, leftover, rep) && rep.calls > 0
    requires replies(rep.calls - 1) == Escalate(true, ruling)
    ensures ruling.DependsOn? ==> rep.fate == At(Pending)
    ensures ruling.Unusable? ==> rep.fate == At(Failed)
    ensures ruling.ReplanAgreed? ==> rep.fate == Removed
  {
    FateMeans(ctx, max, replies, interrupted, remaining, leftover, rep);
    hide Ran, UsedUp, NoAllowance;
  }

  /** The loop and the escalation protocol agree: a ruling that ends the loop leaves the node as the tree has it
      once the ruling is carried out. */
  lemma {:induction false} EscalationIsSettled(
    ctx: Context, max: nat, replies: nat -> Reply, interrupted: nat -> bool, remaining: nat -> int, leftover: Commit,
    rep: Report, nodes: seq<Node>, n: Node, owner: string, ruling: Escalation.Ruling)
    requires Ran(ctx, max, replies, interrupted, remaining, leftover, rep) && rep.calls > 0
    requires replies(rep.calls - 1) == Escalate(true, ruling)
    requires ruling.DependsOn? || ruling.ReplanAgreed? || ruling.Unusable?
    requires Escalation.Escalating(nodes, n, owner)
    ensures n.parent.Some? && rep.fate == FateIn(Escalation.Settled(nodes, n, owner, ruling), n.id)
  {
    hide Ran, Escalation.Settled, Escalation.Escalating, Find;
    Escalation.SettledRow(nodes, n, owner);
    RulingEnds(ctx, max, replies, interrupted, remaining, leftover, rep, ruling);
  }
}

/** Verification gates (src/verify.rs): the commands whose exit codes decide a completion. */
module Gates {
  import opened Text

  datatype Scope = Leaf | Integration

  /** What running one command gave; `manual` when it could not be executed here. */
  datatype Run = Run(passed: bool, manual: bool, output: string)

  datatype Outcome = Outcome(command: string, run: Run)

  predicate Failed(o: Outcome) { !o.run.passed && !o.run.manual }

  /** Explicit gates always win; the detected suite is for integration only. */
  function ResolveGates(explicit: seq<string>, detected: seq<string>, scope: Scope): seq<string> {
    if explicit != [] then explicit else if scope == Leaf then [] else detected
  }

  /** A childless root owns the whole project, so it answers to the whole suite too. */
  function GateScope(hasParent: bool, aggregating: bool): Scope {
    if aggregating || !hasParent then Integration else Leaf
  }

  /** Every gate was executed and passed, or is manual. */
  predicate AllAccepted(gates: seq<string>, run: nat -> Run) {
    forall k | 0 <= k < |gates| :: run(k).passed || run(k).manual
  }

  /** What `run_gates` promises: the outcomes of an initial part of the gates, in order, that ends at
      the first failure. */
  ghost predicate StopsAtFailure(gates: seq<string>, run: nat -> Run, outcomes: seq<Outcome>) {
    && |outcomes| <= |gates|
    && (forall k | 0 <= k < |outcomes| :: outcomes[k] == Outcome(gates[k], run(k)))
    && (forall k | 0 <= k < |outcomes| - 1 :: !Failed(outcomes[k]))
    && (|outcomes| < |gates| ==> outcomes != [] && Failed(outcomes[|outcomes| - 1]))
  }

  /** `run_gates`; `run(k)` is what executing the `k`-th command does. */
  method RunGates(gates: seq<string>, run: nat -> Run) returns (outcomes: seq<Outcome>)
    ensures StopsAtFailure(gates, run, outcomes)
  {
    outcomes := [];
    for k := 0 to |gates|
      invariant |outcomes| == k
      invariant forall j | 0 <= j < k :: outcomes[j] == Outcome(gates[j], run(j)) && !Failed(outcomes[j])
    {
      var outcome := Outcome(gates[k], run(k));
      outcomes := outcomes + [outcome];
      if Failed(outcome) { break; }
    }
  }

  function Failures(outcomes: seq<Outcome>): (r: seq<Outcome>)
    ensures r == [] <==> forall k | 0 <= k < |outcomes| :: !Failed(outcomes[k])
  {
    if outcomes == [] then []
    else
      Failures(outcomes[..|outcomes| - 1])
      + if Failed(outcomes[|outcomes| - 1]) then [outcomes[|outcomes| - 1]] else []
  }

  function FailureText(o: Outcome): string {
    "\n$ " + o.command + "\n" + (if o.run.output == "" then "(no output)" else o.run.output) + "\n"
  }

  /** The report of the first `n` failures. */
  function FailureReport(failures: seq<Outcome>, n: nat): string
    requires n <= |failures|
    decreases n
  {
    if n == 0 then "Automated verification FAILED. Fix these before completing:\n"
    else FailureReport(failures, n - 1) + FailureText(failures[n - 1])
  }

  /** `format_failures`: a report exactly when something failed. */
  method FormatFailures(outcomes: seq<Outcome>) returns (text: Option<string>)
    ensures text.None? <==> forall k | 0 <= k < |outcomes| :: !Failed(outcomes[k])
    ensures text.Some? ==> text.value == FailureReport(Failures(outcomes), |Failures(outcomes)|)
  {
    var failures := Failures(outcomes);
    if failures == [] { return None; }
    var report := FailureReport([], 0);
    for k := 0 to |failures|
      invariant report == FailureReport(failures, k)
    {
      report := report + FailureText(failures[k]);
    }
    text := Some(report);
  }

  /** No failure is reported exactly when every gate was executed and passed or is manual: stopping
      early never hides a gate. */
  lemma {:induction false} NoFailureMeansAccepted(gates: seq<string>, run: nat -> Run, outcomes: seq<Outcome>)
    requires StopsAtFailure(gates, run, outcomes)
    ensures Failures(outcomes) == [] <==> AllAccepted(gates, run)
    ensures AllAccepted(gates, run) ==> |outcomes| == |gates|
  {
    if AllAccepted(gates, run) {
      forall k | 0 <= k < |outcomes| ensures !Failed(outcomes[k]) {
        assert outcomes[k] == Outcome(gates[k], run(k));
      }
    }
    if Failures(outcomes) == [] {
      assert |outcomes| == |gates|;
      forall k | 0 <= k < |gates| ensures run(k).passed || run(k).manual {
        assert outcomes[k] == Outcome(gates[k], run(k)) && !Failed(outcomes[k]);
      }
    }
  }

  lemma {:induction false} OneText(o: Outcome)
    ensures FailureReport([o], 1) ==
      "Automated verification FAILED. Fix these before completing:\n" + "\n$ " + o.command + "\n"
      + (if o.run.output == "" then "(no output)" else o.run.output) + "\n"
  {
    assert FailureReport([o], 0) == "Automated verification FAILED. Fix these before completing:\n";
    var report, text := FailureReport([o], 0), if o.run.output == "" then "(no output)" else o.run.output;
    assert report + ("\n$ " + o.command + "\n" + text + "\n") == report + "\n$ " + o.command + "\n" + text + "\n";
  }

  /** The feedback names exactly one failure: the first, which is the last gate that ran. */
  lemma {:induction false} OneFailureIsReported(gates: seq<string>, run: nat -> Run, outcomes: seq<Outcome>)
    requires StopsAtFailure(gates, run, outcomes) && !AllAccepted(gates, run)
    ensures outcomes != [] && Failures(outcomes) == [outcomes[|outcomes| - 1]]
    ensures var last := |outcomes| - 1;
      && !run(last).passed && !run(last).manual && (forall k | 0 <= k < last && !run(k).passed :: run(k).manual)
      && FailureReport(Failures(outcomes), |Failures(outcomes)|) ==
           "Automated verification FAILED. Fix these before completing:\n" + "\n$ " + gates[last] + "\n"
           + (if run(last).output == "" then "(no output)" else run(last).output) + "\n"
  {
    NoFailureMeansAccepted(gates, run, outcomes);
    assert outcomes != [];
    var last := outcomes[|outcomes| - 1];
    assert last == Outcome(gates[|outcomes| - 1], run(|outcomes| - 1));
    assert forall k | 0 <= k < |outcomes| - 1 :: outcomes[k] == Outcome(gates[k], run(k)) && !Failed(outcomes[k]);
    OneText(last);
    var front := outcomes[..|outcomes| - 1];
    assert forall k | 0 <= k < |front| :: !Failed(front[k]);
    assert Failures(front) == [];
  }
}

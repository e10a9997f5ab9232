# A verified model of the task-tree engine

The harness keeps a persistent tree of tasks. A scheduler picks nodes, an executor works on each, gates and a
critic judge the work, and a store keeps the tree on disk with an index of statuses, dependencies and token
allowances beside it. This project models that engine in Dafny and proves what its design promises; where the code
does not keep a promise on every input, it proves exactly when it does.

Each module follows one part of the program. A loop or an object of the source is a method or a class here,
proved against a function or a predicate; the promises are lemmas about those. `dafny verify dfyconfig.toml`
checks everything.

| module | part |
|---|---|
| `Text`, `Contracts`, `Nodes`, `Graph`, `Aliases` | shared vocabulary: strings, contracts, nodes, dependency graphs, sibling names |
| `SplitTopology`, `Splits` | validation of a proposed split; the second, independent resolution when it is stored |
| `Selection`, `Runs` | what the scheduler picks next; whole runs of the tree |
| `Staleness` | dependency fingerprints and the re-verification cascade |
| `Ledger` | token allowances, split fees, conservation and the bound on recursion |
| `Reconciliation`, `Recovery` | repairing the index from disk; what a crash at any write of a split leads to |
| `Leftovers` | index rows that outlive their directory |
| `ContractText`, `ContractRoundTrip` | printing and parsing the contract file |
| `Scanner` | finding a decision object in a model's answer |
| `Evidence`, `EvidenceWording` | the bounded summary the critic reads |
| `Escalation` | suspending a branch, the owner's ruling, resuming |
| `Dependencies` | a dependency added to the running tree by a ruling or by hand |
| `Subtrees` | retry and reopen, by a prefix test on paths |
| `Gates`, `Attempts`, `Batch` | verification gates, the attempt loop of a node, parallel batches |

## What the proofs found

- The validator of a split trims the names it is given; the store does not. `Splits.NamingAgrees` says exactly when
  both read a dependency alike: it is written as the target's raw id or number, or as the id the target is about to
  get, and no later child of the split is about to get that text as its id. In `Splits.PaddedIdIsLost` a dependency
  on a padded id is accepted and stored as a name no child has.
- A split can be accepted and stored with a cycle; here are three ways: a subtask named like an id the split generates takes
  over the name (`Splits.ClashMakesCycle`), a repeated name hides one of its two subtasks' edges from the validator
  (`Splits.RepeatMakesCycle`), and a name of white space, which the validator skips, is a name to the store
  (`Splits.BlankMakesCycle`). Storing closes a cycle exactly when the split's own children form one, and leaves an edge
  to nowhere exactly when there is a name the store does not know and no node has (`Splits.SplitKeepsGraph`). Accepted
  splits with tidy names do neither (`Splits.TidyIsWellStored`).
- A dependency of white space only is stored as it is, an edge to no node, exactly when it is empty or no subtask has
  it as its raw id (`Splits.BlankIsStored`).
- A contract survives being written and read back exactly when it is `Renderable` (`ContractRoundTrip.RoundTrip`):
  a line of the goal or the id that starts with `## `, or ends in a carriage return, is lost
  (`ContractRoundTrip.HeadedGoalIsLost`). An id of several lines is not a problem.
- The keyed scan of a model's answer looks only at the text its own pattern matched, which never closes a brace:
  it cannot find anything (`Scanner.KeyedScanNeverStops`). The fallback scan does the work.
- The comment on the evidence summary says its size never exceeds the limit. The cut text alone never does, but
  the notice comes on top: the limit holds exactly when the assembled text, a newline and the notice fit in it
  (`EvidenceWording.SourceLimitHolds`). A tracked diff that alone exceeds the limit always breaks it
  (`EvidenceWording.LongDiffBreaksLimit`); a diff of one character under a limit of one byte is the smallest case
  (`EvidenceWording.OneCharacterBreaksLimit`).
- An escalation that ends without a usable ruling leaves the intermediate ancestors suspended exactly when the owner
  is not the parent (`Escalation.FailedRulingStrandsTheBranch`), and a replan the parent agrees to does so exactly
  when the owner is above the grandparent (`Escalation.AgreedReplanStrandsTheRest`). `Escalation.ThreeIsStranded` is
  a tree of three where it happens. The owner is then not selected again for as long as no step reaches it, its
  suspended child or, by a replan, an ancestor of both (`Escalation.StrandedOwnerWaits`); a retry does.
- A `depends_on` ruling adds an edge that nothing checks. It keeps the tree sound exactly when the edge is there already, or
  the owner is the node's parent and the new dependency does not wait for the node (`Dependencies.RulingKeepsInvariant`). Otherwise it can close
  a cycle of pending nodes, none of which is ever selected again (`Dependencies.CycleNeverRuns`);
  `Dependencies.TwoGetStuck` is such a tree, with nothing failed and nothing to select.
- A parallel batch counts a failed node twice when its checkpoint is refused (`Batch.FailuresMean`).
- Deleting a node removes its directory with everything in it, but only its own row. The index is what the disk is
  afterwards exactly when the node had no children (`Leftovers.DeletionIsBacked`); after a replan the rows left over are
  exactly those of what lay deeper than the children (`Leftovers.ReplanLeaves`). A later split never overwrites a row,
  so its child reads back as written exactly when no row, or an equal one, was left under its id
  (`Leftovers.PlannedIsRead`): in `Leftovers.UnstartedIsComplete` a new subtask is complete before it starts.
  `reconcile`, at the start of a run, drops such rows. Runs carry the leftover rows along, and a split keeps the tree
  sound exactly when its children, leftover rows included, fit (`Runs.GrowthKeepsInvariant`).
- A leftover row in the ledger keeps its allowance: in a history of approved splits and one replan
  (`Ledger.LeftoverIsReached`) a child ends with more than its parent (`Ledger.LeftoverOutgrowsParent`). A child stays
  below its parent exactly when no such row, or a fitting one, was there (`Ledger.ChildFitsBelow`). The bound on the
  recursion holds all the same (`Ledger.RecursionIsBounded`).

## Model

| member | source | states |
|---|---|---|
| Text.Pad2Injective | src/store.rs:587-594 | no two child numbers have the same two-digit rendering |
| Text.NumbersRead | src/store.rs:587-594 | both renderings of a number read back as it; below ten the padded one is a zero and the digit |
| Text.TrimMeans | src/scheduler.rs:605-625 | trimming cuts white space, and only white space, off the two ends |
| Text.AfterLastDashOf | src/store.rs:580-585 | the last dash-separated segment of a generated id is its number |
| Graph.OrderedIsAcyclic | src/scheduler.rs:637-672 | a graph with a dependencies-first order has no cycle, self-loops included |
| Graph.AcyclicIsOrdered | src/scheduler.rs:637-672 | every acyclic closed graph has a dependencies-first order |
| Graph.ExtensionIsAcyclic | src/store.rs:599-632 | new nodes that copy an acyclic proposal and otherwise point at old nodes close no cycle |
| Graph.ExtensionCycles | src/store.rs:599-632 | new nodes over a closed acyclic graph close exactly the cycles among themselves |
| SplitTopology.CanonicalTable | src/scheduler.rs:598-617 | the alias table maps each alias to the last sibling that claims it |
| SplitTopology.ResolveDependencies | src/scheduler.rs:622-633 | names resolve to their meanings, or a named one that nobody claims is blamed; blanks are skipped |
| SplitTopology.ProposedEdges | src/scheduler.rs:619-635 | the edges are the resolved names of every subtask, or an unknown sibling is blamed |
| SplitTopology.Search.Visit | src/scheduler.rs:637-659 | depth-first search: a reported cycle exists; otherwise the node is finished and the stack is as it was |
| SplitTopology.FindCycle | src/scheduler.rs:660-672 | the search from every key reports a cycle if and only if the graph has one |
| SplitTopology.RejectSplitTopology | src/scheduler.rs:598-672 | unknown sibling reported exactly when some dependency is not blank and no existing child and no subtask goes by it; otherwise a cycle exactly when the proposed graph has one; accepted in all other cases |
| SplitTopology.ProposedKeys | src/scheduler.rs:606-635 | the nodes of the proposed graph are the names of the subtasks |
| SplitTopology.ProposedMeans | src/scheduler.rs:619-635 | the proposed graph, edge by edge: a subtask leads to the names of the last siblings that go by its trimmed dependencies |
| Splits.IdMap | src/store.rs:569-595 | the resolver's own alias table over any existing children, in any order, and the new ids |
| Splits.ResolveChildren | src/store.rs:587-632 | the i-th new child is called parent, dash and the padded number that follows the count of existing children, whatever they are called; every dependency is written as the id of the last sibling that goes by it, or as it stands when none does |
| Splits.ChildIdInjective | src/store.rs:587-595 | distinct numbers give distinct child ids |
| Splits.NamingAgrees | src/store.rs:569-610 | for any subtasks, clashing or repeated ids included: validator and resolver name the same sibling if and only if the dependency is written as its target is, or as the id its target gets, and no later child gets that text as its id |
| Splits.TidyIsWellStored | src/store.rs:601-610 | whatever is accepted under tidy names, the store knows every dependency and the children form no cycle |
| Splits.SplitKeepsGraph | src/store.rs:561-632 | storing any split keeps an acyclic graph acyclic if and only if its own children form no cycle, and a closed graph closed if and only if the store, or the tree, knows every dependency |
| Splits.ClosedIffKnown | src/store.rs:601-610 | the second of these, edge by edge: an unknown name is stored verbatim |
| Splits.CyclesAreOwn | src/store.rs:599-632 | for any split, tidy or not: storing it makes a cycle if and only if its own children form one |
| Splits.ClashMakesCycle | src/store.rs:587-595 | an accepted split whose subtask is named like a generated id is stored with a cycle |
| Splits.RepeatMakesCycle | src/scheduler.rs:606-635 | an accepted split that names two subtasks alike is stored with a cycle |
| Splits.BlankMakesCycle | src/store.rs:589-610 | an accepted split whose one subtask is named by a space and depends on a space is stored with a cycle |
| Splits.BlankIsStored | src/store.rs:606-610 | a dependency of white space only is no unknown sibling, is no child's id, and is stored as it is if and only if it is empty or no subtask has it as its raw id |
| Splits.PaddedIdIsLost | src/store.rs:587-610 | an accepted dependency on a padded id is stored as a name no child has |
| Selection.DeepestFirstIsStableSort | src/scheduler.rs:544-571 | the sort permutes, puts deeper nodes first and keeps the order within a depth |
| Selection.SelectionMeans | src/scheduler.rs:541-592 | who is selected, in terms of the tree alone: the stale; if none, the pending whose every dependency is a completed node; if none, the split with children, all completed |
| Selection.SelectionOrder | src/scheduler.rs:544-571 | stale and pending nodes come deepest first and within a depth in the order of the tree; parents to aggregate in the order of the tree |
| Selection.OnlyLiveNodesAreSelected | src/scheduler.rs:541-592 | no suspended, running or failed node is ever selected |
| Selection.NoDeadlock | src/scheduler.rs:541-592 | on every schedulable tree nothing is selected exactly when all is complete and fresh |
| Runs.NextIdsAreFresh | src/store.rs:569-588 | the next generated ids of a parent belong to no node of the tree |
| Runs.CountIsNumber | src/store.rs:569-588 | the number of children is the number of the last generated id |
| Runs.GeneratedIdsArePlain | src/store.rs:587-594 | no id of a reachable tree holds white space, which the agreement on names relies on |
| Runs.GrowthKeepsInvariant | src/store.rs:599-632 | for any children a split adds under the next ids, leftover rows included: the tree stays sound and numbered if and only if they name siblings only, form no cycle and none is already split |
| Runs.PlainKidsFit | src/store.rs:599-632 | where no row is left over the children fit if and only if the store knows every name and no cycle closes |
| Runs.TidySplitFits | src/store.rs:599-632 | what is accepted under tidy names fits wherever no row is left over |
| Runs.PruningKeepsInvariant | src/scheduler.rs:1698-1706 | a replan, which deletes everything below a node at any depth and returns it to pending, keeps the invariant |
| Runs.StepKeepsInvariant | src/scheduler.rs:141-298 | completion, a split whose children fit, reopen, retry, replan and every other change of a status, failures and suspensions included, each keep the invariant |
| Runs.RunsStartAtTheRoot | src/store.rs:444-490 | a run starts with a pending root, which is selected first |
| Runs.EveryStateIsFine | src/scheduler.rs:141-298 | the invariant holds in every state of every run whose splits fit, with nodes that fail, are suspended and come back, with replans at any depth and splits over leftover rows |
| Runs.EveryRunProgresses | src/scheduler.rs:194-225 | in every state of every run: unique ids, no dependency cycle; nothing is selected only if all is complete and fresh or some node is failed, suspended or running; without such a node, exactly then |
| Staleness.Index.RecordDependencies | src/store.rs:1690-1712 | the node's record becomes its dependencies' present fingerprints, one entry each, empty where there is no such node or deliverable; no other row changes |
| Staleness.Index.CompleteNode | src/store.rs:693-716 | completion records exactly the present fingerprints of the dependencies, sets the node complete and is a rerun of it; a node without dependencies keeps its record |
| Staleness.RunStepIsRerun | src/store.rs:693-716 | every step of a run but a replan, or a split that meets a complete row, is a rerun in the sense of the cascade and only adds entries to the graph |
| Staleness.Index.StaleIds | src/store.rs:1715-1738 | an id is stale exactly when it is that of a complete node with a dependency that is a node of the tree and whose recorded fingerprint is missing or differs from the present one |
| Staleness.RerunSpreadsOneStep | src/store.rs:1690-1738 | re-running a node un-stales it and can only make its direct dependents stale |
| Staleness.RerunStalesDependents | src/store.rs:1715-1738 | of the nodes that were fresh and are as they were, exactly those go stale that depend on the rerun node and have something else on record than it is worth now |
| Staleness.BatchLowersWeight | src/scheduler.rs:541-553 | a batch of stale nodes strictly lowers the stale set read as a binary number, earliest rank on top |
| Staleness.CascadeTerminates | src/scheduler.rs:541-553 | a cascade makes no more batches than the weight it starts with |
| Staleness.OrderExists | src/scheduler.rs:541-553 | every schedulable tree has the dependencies-first order the argument needs |
| Ledger.Budget.DebitCall | src/store.rs:1637-1648 | with one row per id, as every history keeps it, the calls and debits of the node's row grow by exactly the tokens, its other fields and every other row stay; an unknown node or a non-positive amount changes nothing |
| Ledger.DebitTakes | src/store.rs:1611-1648 | a call takes exactly its tokens off what its node has left, and nothing off any other |
| Ledger.RemainingMeans | src/store.rs:1611-1633 | what a node has left is its allowance less calls, fees paid, grants and one fee |
| Ledger.CallsAreCharged | src/store.rs:1637-1648 | over every history the calls on record, and those that went with removed rows, are the positive tokens charged to nodes that had a row |
| Ledger.CountRequests | src/store.rs:647-648 | the explicit total and the number of open requests |
| Ledger.Budget.AllocateShares | src/store.rs:642-657 | explicit requests are granted as they are, open ones get equal shares |
| Ledger.GrantsAreFair | src/store.rs:642-657 | and those shares use up what the explicit ones leave, to less than one token for each open request |
| Ledger.GrantsFit | src/store.rs:642-657 | the grants cover the explicit requests and exceed the remainder only if the requests alone do |
| Ledger.Budget.AddChildren | src/store.rs:634-687 | the parent pays the fee and the grants, the children's rows open with them |
| Ledger.SplitMeans | src/store.rs:659-687 | row by row: the parent pays one fee and the grants, each id without a row gets one with its grant, every other row stays |
| Ledger.Budget.AttemptSplit | src/scheduler.rs:834-838 | the split is approved against the allowance read before the call is charged |
| Ledger.Budget.DeleteRow | src/store.rs:1202-1210 | afterwards the id has no row and every other row is as it was |
| Ledger.EventKeepsUnique | src/store.rs:659-687 | every debit, split and deletion keeps one row per id |
| Ledger.HistoryIsUnique | src/store.rs:1202-1210 | so over every history a deletion removes the one row of its id and no other |
| Ledger.EventConserves | src/store.rs:659-687 | every debit and split, overspending or not, keeps the accounted total and balances every row |
| Ledger.BudgetIsConserved | src/store.rs:659-687 | over every history without deletions and with fresh ids, forced splits included: the root allowance is the sum of calls, fees and unspent over all nodes |
| Ledger.ApprovedGrantFits | src/scheduler.rs:1175-1205 | what survives reading the allowance before the charge and granting after it |
| Ledger.AttemptKeepsEconomic | src/scheduler.rs:1175-1205 | an approved attempt, new ids or reused ones: fee plus grants never exceed a row's allowance, each level costs a fee, and nothing is added to the accounts |
| Ledger.RemovalKeepsEconomic | src/store.rs:1202-1210 | so does deleting any row, which takes at least its fees out of the accounts |
| Ledger.RecursionIsBounded | src/scheduler.rs:1175-1205 | over every history, rows deleted and ids reused as they may be: all fees together, those of deleted rows included, are at most the budget, there are at most budget / fee approved splits, and the depth is at most the larger of 1 and budget / fee, without the fixed cap |
| Ledger.SplitsArePaid | src/store.rs:659-687 | the number of approved splits times the fee is exactly what is, or was, on record as fees |
| Ledger.ChildFitsBelow | src/store.rs:659-678 | after an approved split a child's allowance is at most its parent's less the fee if and only if no row, or a fitting one, was left under its id |
| Ledger.ChildrenStayBelow | src/store.rs:659-678 | and so it stays over every history until a row is deleted |
| Ledger.LeftoverIsReached | src/store.rs:673-678 | a history of approved splits and one deletion reaches a leftover row |
| Ledger.LeftoverOutgrowsParent | src/store.rs:673-678 | there an approved split leaves a child with a larger allowance than its parent |
| Reconciliation.Store.Reconcile | src/store.rs:1325-1398 | the loops produce the reconciled index, whose ids are those on disk; a ledger row goes exactly when the index had its node and the disk does not |
| Reconciliation.WalkMeans | src/store.rs:1273-1300 | what is walked: every directory that a trail of subdirectories leads to, with its name, parent, depth and whether anything lies below it |
| Reconciliation.ReconcileIsNormal | src/store.rs:1325-1398 | ids and topology equal the disk; no node running; pending only on childless nodes; settled statuses, stored dependencies and recorded fingerprints kept, adopted nodes without any |
| Reconciliation.ReconcileIsIdempotent | src/store.rs:1325-1398 | reconciling twice is reconciling once |
| Reconciliation.CountedOnceIsUnique | src/store.rs:1273-1300 | a disk tree without repeated names is walked without repeated ids |
| Reconciliation.CrashIsRepaired | src/store.rs:597-687 | after any prefix of a split's writes, over leftover rows or not, reconcile restores topology, statuses and children: each stands with the row it met, or with its dependencies as far as its row was written; child allowances stay within the charge |
| Recovery.ReadBackIsTree | src/store.rs:1400-1450 | what walk reads is a tree, whatever the index holds |
| Recovery.CrashKeepsInvariant | src/store.rs:1325-1398 | after a crash at any write of any split, reconcile leaves an index that equals the disk and, with walk, the old nodes and the children that were made; the invariant of runs holds if and only if those children fit, which they do before the first row is written and whenever the split is stored well |
| Recovery.SurvivorsAtEnds | src/store.rs:597-687 | before the first write nothing has changed; once the rows are written the split is whole |
| Leftovers.DeletionIsBacked | src/store.rs:1202-1210 | after a deletion the index is the disk if and only if the node had no children |
| Leftovers.ReplanLeaves | src/scheduler.rs:1698-1706 | after a replan on disk the rows without a directory are exactly those of what lay deeper than the children, as they were |
| Leftovers.OrphanRowsStay | src/store.rs:1202-1210 | they say what the run model carries on |
| Leftovers.ReplanIsRead | src/store.rs:1400-1450 | walk then reads exactly the nodes that do not lie below the replanned one, as they were |
| Leftovers.PlannedIsRead | src/store.rs:540-559 | a new child reads back as written if and only if no row, or an equal one, was left under its id |
| Leftovers.SplitIsRead | src/store.rs:540-559 | whatever rows it meets, a finished split reads back as the step of the run model has it |
| Leftovers.UnstartedIsComplete | src/scheduler.rs:1698-1706 | after a replan over a finished grandchild a new subtask reads back as complete |
| ContractText.LinesOfBlock | src/store.rs:203-219 | reading lines splits a written block from what follows it |
| ContractText.RenderMeans | src/store.rs:171-201 | the contract file, section by section as its template has it; an empty list is a bullet saying so |
| ContractText.BuildSections | src/store.rs:204-219 | the section map holds, for every key, the lines under its headers in order |
| ContractText.ParseContract | src/store.rs:203-253 | the parse is read off that map |
| ContractText.SectionsAreDisjoint | src/store.rs:204-219 | no line is filed under two keys |
| ContractText.HeaderMeans | src/store.rs:207-208 | a line is a header exactly when it starts with two hashes and a space |
| ContractText.HeaderCaseIsIgnored | src/store.rs:206-210 | a file whose section headers differ only in the case of ASCII letters says the same |
| ContractText.HeaderKeyMeans | src/store.rs:206-210 | two headers open the same section exactly when their trimmed titles differ in the case of ASCII letters alone |
| ContractText.PlainLinesJoin | src/store.rs:236-241 | a text of plain lines is its lines joined again |
| ContractRoundTrip.ParsedIsClean | src/store.rs:220-249 | whatever the text, parsed lists are clean and parsed texts trimmed |
| ContractRoundTrip.RoundTrip | src/store.rs:171-254 | parse(render(c)) is c without its allocation if and only if c is renderable |
| ContractRoundTrip.HeadedGoalIsLost | src/store.rs:171-254 | a goal with a header line is not read back |
| ContractRoundTrip.EditKeepsTheRest | src/store.rs:1142-1158 | for any file: an edit of one list changes that list and no other field if and only if the items are clean and no text of the file holds a header line or a stray carriage return |
| ContractRoundTrip.RewriteIsStable | src/store.rs:1164-1177 | reading any file and writing it back settles it, unless a text holds a header line or a stray carriage return |
| Scanner.ScanObject | src/runner.rs:459-488 | the loop stops where the depth first returns to zero outside strings |
| Scanner.ValueThrough | src/runner.rs:464-487 | inside an object every JSON value is read through without a lasting effect |
| Scanner.ScanFindsObject | src/runner.rs:457-488 | for every JSON object followed by any text the scan stops exactly at its closing brace |
| Scanner.FallbackSearch | src/runner.rs:457-499 | the result is the earliest brace whose candidate is accepted, or there is none |
| Scanner.ObjectIsCandidate | src/runner.rs:457-499 | an object anywhere in the text is the candidate of its opening brace |
| Scanner.FallbackFindsObject | src/runner.rs:457-499 | an acceptable object is never missed, and with no brace before it, it is the answer |
| Scanner.KeyedScanNeverStops | src/runner.rs:409-455 | the scan of the keyed match never ends, so that stage proposes nothing |
| Evidence.FittingIsLongest | src/git.rs:541-554 | the characters shown are the longest prefix within the bytes |
| Evidence.WidthMeans | src/git.rs:541-548 | a character takes as many bytes as the shortest form of UTF-8 needs for its code |
| Evidence.CutPoint | src/git.rs:545-548 | walking down from the limit stops at that prefix |
| Evidence.CapEvidence | src/git.rs:541-554 | the capped text is that prefix, a newline and the notice |
| Evidence.Sizes | src/git.rs:473-496 | the whole size and the fixed size, summed file by file |
| Evidence.AppendWindow | src/git.rs:505-517 | one file's header, window and cut marker |
| Evidence.WorktreeSummary | src/git.rs:440-526 | the buffer ends as the whole evidence if it fits, otherwise as the capped windows |
| Evidence.WholeReads | src/git.rs:443-485 | what fits is the diff, every file after its header, and the note |
| Evidence.CutReads | src/git.rs:487-554 | what does not fit is every file through the largest equal window that the headers, reserves and note leave room for, cut to the characters that fit, with the notice |
| Evidence.SummaryIsBounded | src/git.rs:477-526 | whole when it fits; otherwise at most the limit, one newline and the notice |
| Evidence.LimitHolds | src/git.rs:520-554 | a cut summary keeps to the limit if and only if the assembled text, a newline and the notice fit in it |
| Evidence.WindowsAreNotCut | src/git.rs:487-526 | when fixed text and reserves fit, the windows are not cut again and the total stays within the limit |
| Evidence.EveryFileIsShown | src/git.rs:497-526 | then every hand-written file shows exactly the smaller of its size and the share |
| Evidence.SortUntracked | src/git.rs:449-459 | generated files are told apart by name; each file is shown or named |
| Evidence.GeneratedMeans | src/git.rs:417-423 | a file is generated exactly when, in any directory, it is called `Cargo.lock` or its name ends in `-lock.json` |
| Evidence.GeneratedContentIsIgnored | src/git.rs:412-468 | no content of a generated file reaches the previews or the note |
| EvidenceWording.TextsRead | src/git.rs:425-536 | the header of a file, the marker under a cut preview and the closing notice, written out |
| EvidenceWording.SourceNoticeFits | src/git.rs:530-536 | the closing notice fits its 300 bytes for any two machine words |
| EvidenceWording.SourceMarkerFits | src/git.rs:512-516 | a cut marker fits its 120 bytes when the name leaves room for two numbers |
| EvidenceWording.SourceLimitHolds | src/git.rs:520-554 | the same for the real notice |
| EvidenceWording.LongDiffBreaksLimit | src/git.rs:520-554 | a tracked diff beyond the limit always breaks it |
| EvidenceWording.OneCharacterBreaksLimit | src/git.rs:520-554 | one character under a limit of one byte breaks it |
| EvidenceWording.SourceSummaryIsWithin | src/git.rs:440-526 | the bound and the windows, for the real texts |
| Escalation.Store.FindEscalationPoint | src/scheduler.rs:1628-1651 | the nearest ancestor that holds the assumption, else the parent |
| Escalation.OwnsMeans | src/scheduler.rs:1642-1650 | it holds it when one of its constraints is the assumption up to surrounding space; exactly the first such ancestor owns it |
| Escalation.Store.SuspendBranch | src/scheduler.rs:1655-1665 | the node and the ancestors strictly below the owner become suspended, nobody else moves |
| Escalation.Store.ResumeAncestors | src/scheduler.rs:1669-1681 | the ancestors strictly below the owner become split, nobody else moves |
| Escalation.Store.Escalate | src/scheduler.rs:935-1093 | the state while the owner deliberates and the state each ruling leaves |
| Escalation.BranchIsHeld | src/scheduler.rs:1655-1665 | meanwhile the branch is suspended and nobody else has moved, and none of it can be selected, whatever was suspended before |
| Escalation.RulingLeavesNoTrace | src/scheduler.rs:1007-1078 | amend, overrule and a refused replan restore every status; depends_on only returns the node to pending |
| Escalation.SettledRow | src/scheduler.rs:976-1072 | the rulings that end the run of the node leave its own row pending, failed or gone |
| Escalation.FailedRulingStrandsTheBranch | src/scheduler.rs:976-1005 | an unusable ruling leaves no other trace if and only if the owner is the parent |
| Escalation.BelowIsDescent | src/scheduler.rs:1628-1651 | a node lies below another exactly when that is on its way up |
| Escalation.AgreedReplanStrandsTheRest | src/scheduler.rs:1053-1078 | an agreed replan leaves no other trace if and only if the owner is the parent or the grandparent |
| Escalation.ThreeIsStranded | src/scheduler.rs:977-1005 | a tree of three nodes in which the failed ruling strands the middle one |
| Escalation.StrandedOwnerWaits | src/scheduler.rs:541-592 | over every sequence of steps that does not reach the owner or its suspended child the owner stays split and is not selected, whatever is stale |
| Dependencies.Store.AddDependsOn | src/store.rs:1182-1199 | the trimmed name is appended to the node's dependencies unless it is blank or there already |
| Dependencies.EdgeClosesCycle | src/store.rs:1182-1199 | an edge added to an acyclic graph closes a cycle exactly when its target reaches its origin |
| Dependencies.DependencyKeepsInvariant | src/store.rs:1182-1199 | an added dependency keeps the invariant of runs exactly when it adds nothing, or names a sibling that does not wait for the node |
| Dependencies.RulingKeepsInvariant | src/scheduler.rs:1044-1052 | so a depends_on ruling keeps it exactly when the dependency is there already, or the owner is the parent and the dependency does not wait for the node |
| Dependencies.CycleNeverRuns | src/scheduler.rs:541-592 | over every sequence of steps that leaves the rows of a cycle of pending nodes alone, none of them is selected |
| Dependencies.TwoGetStuck | src/scheduler.rs:1044-1052 | a tree of three nodes that such a ruling leaves with nothing to select, though nothing failed |
| Subtrees.ChildPath | src/store.rs:594-612 | a child's directory is its parent's children directory and its id |
| Subtrees.TailsMatch | src/store.rs:1536-1540 | the prefix test on paths is the prefix relation on lines of ids |
| Subtrees.UnderIsDescendant | src/store.rs:1536-1540 | the path test selects exactly the proper descendants |
| Subtrees.Store.Retry | src/store.rs:1530-1550 | exactly the target's subtree becomes pending; the count is of those that were not; an unknown id changes nothing |
| Subtrees.Store.ReopenChildren | src/store.rs:1558-1607 | exactly the subtrees of the listed direct children become pending, and the parent is split if and only if one matched |
| Subtrees.ReopenedMeans | src/store.rs:1567-1588 | a node is put back iff it is, or lies below, a listed direct child of the parent |
| Subtrees.GeneratedNamesAreSafe | src/store.rs:583-593 | no generated id contains a slash, so the path test is safe on every reachable tree |
| Subtrees.ReopeningKeepsInvariant | src/store.rs:1558-1607 | reopening is the reopen step of runs: it keeps their invariant, makes no node failed, suspended or running, and then the tree does not deadlock |
| Subtrees.RetryKeepsInvariant | src/store.rs:1530-1550 | so does retrying, after which no node is failed, suspended or running exactly when none outside the subtree was |
| Gates.RunGates | src/verify.rs:601-612 | the outcomes are an initial part of the gates that ends at the first failure; manual ones are passed over |
| Gates.FormatFailures | src/verify.rs:647-665 | there is a report exactly when something failed, and it lists exactly the failures |
| Gates.NoFailureMeansAccepted | src/verify.rs:601-665 | no report exactly when every gate was executed and passed or is manual |
| Gates.OneFailureIsReported | src/verify.rs:601-665 | the report names one failure, the last gate that ran and the only one that failed, with its command and its output |
| Attempts.AttemptSplit | src/scheduler.rs:1114-1231 | the checks of a proposed split, in order |
| Attempts.AttemptComplete | src/scheduler.rs:1232-1498 | refusals, gates and critic of a claimed completion |
| Attempts.RunOneNode | src/scheduler.rs:759-1618 | the loop, whatever the outside answers |
| Attempts.LoopMeans | src/scheduler.rs:817-826 | read off the replies: no attempt but the last ends the loop, none is made once interrupted, and it stops only when ended, interrupted or out of attempts |
| Attempts.FateMeans | src/scheduler.rs:786-1112 | pending exactly when the last reply is an owned escalation ruled depends_on, removed exactly when it is one with an agreed replan, failed exactly without allowance, with the attempts used up, after an unowned or unusable escalation or a stray resolve |
| Attempts.EscalationIsSettled | src/scheduler.rs:935-1093 | a ruling that ends the loop leaves the node as the escalation protocol leaves its row |
| Attempts.CompleteMeansVerified | src/scheduler.rs:817-1618 | at most the allowed executor runs; complete, or in a parallel worker left running with a commit, if and only if an attempt said and showed something, passed every gate that could be executed and the critic |
| Attempts.NodeIsSettled | src/scheduler.rs:817-1618 | the possible final states of every run, interrupted or not; running only when interrupted or in a parallel worker with a commit to integrate |
| Attempts.SplitMeansApproved | src/scheduler.rs:1114-1556 | split exactly when the last attempt proposed a split that passed every check and was stored, or sent children back |
| Attempts.CommitsAreEarned | src/scheduler.rs:1569-1611 | a checkpoint exactly when the attempts are used up, some work was contested or unexecutable and something is left to commit; any other commit is that of the verified attempt |
| Batch.Repository.IntegrateCommit | src/git.rs:697-717 | whatever git answers: a pick extends the history and takes over the tree, or is aborted and leaves both |
| Batch.Repository.IntegrateBatch | src/scheduler.rs:426-501 | the loop over the joined workers |
| Batch.HistoryIsPicked | src/scheduler.rs:426-501 | whatever git answers, history grows by exactly the picked commits, in batch order |
| Batch.TreeIsPicked | src/scheduler.rs:426-501 | and the tree is that of the picked commits, one on top of the other |
| Batch.StatusIsOwn | src/scheduler.rs:426-501 | whatever git answers, a node's status depends only on its own worker's turn |
| Batch.AttemptsGiveWorkers | src/scheduler.rs:1407-1451 | what the attempt loop leaves, interrupted or not, is what the batch relies on |
| Batch.BatchIsHonest | src/scheduler.rs:426-501 | whatever git answers: of those with a commit, complete iff it was picked, failed otherwise; a checkpoint never completes; only who was left running without a commit is still running |
| Batch.FailuresMean | src/scheduler.rs:426-501 | the failures a batch reports are its nodes that end failed, and one more for each failed node whose checkpoint was refused |
| Batch.CompleteIsVerified | src/scheduler.rs:426-501 | complete after the batch exactly when an attempt was verified and its commit, if any, was picked |
| Batch.DisjointWorkIntegrates | src/git.rs:697-717 | commits that touch different files all integrate, if git picks what nobody else has touched, and the tree holds everybody's work |
| Batch.OrderDoesNotMatter | src/git.rs:697-717 | in any order they give the same tree |
| Batch.DisjointBatchIntegrates | src/scheduler.rs:426-501 | a batch whose commits touch different files has every one of them picked, whatever the workers without a commit did; after every turn the tree is that of the commits so far |
| Batch.ReadyBatchIsIndependent | src/scheduler.rs:355-361 | a batch of ready nodes never holds a node and its dependency |

## Left out

- Processes, streaming, timeouts, SQLite, file and git commands: answers given from outside, or writes that happen one at a time and succeed.
- Prompts, dashboards, the command line, the model picker and shell scripts: presentation.
- Timestamps, the tamper digest, global knowledge and criterion overlap: heuristics or easy members.
- Fingerprints are arbitrary strings: that a changed deliverable changes its fingerprint is not claimed, only what follows when it does.
- Integer width: allowances, depths and sizes are unbounded; the source's 64-bit overflow is not modelled.
- A negative split fee, an allowance enabled only by the environment without a root row, and a parallelism of zero.
- Splits stored by the butler command skip the budget check (src/butler.rs:459-482): `Ledger.RecursionIsBounded` excludes them, `Ledger.BudgetIsConserved` includes them as forced splits.
- Runs.EveryRunProgresses: a run is one process, so it starts with a reconciled index. Its splits are those whose children fit, the exact condition of `Runs.GrowthKeepsInvariant`; what happens to selection after one that does not is not followed.
- Dependencies.RulingKeepsInvariant: an added dependency is no step of `Runs`; the condition says when a run goes on from the tree it leaves. Which of the owner's children the ruling's tag is resolved to is left open.
- Ledger.Budget.AttemptSplit: the topology checks of the same attempt are in `Attempts.AttemptSplit`; neither contains the other's state.
- Reconciliation.CrashIsRepaired: the goal, contract and log files of a half-made directory are not part of the disk tree; a child whose row was not written is adopted without its dependencies, as src/store.rs:1353-1366 does.
- Ledger.BudgetIsConserved: only without deletions and reused ids, since a deleted row takes its calls, fees and rest with it; `Ledger.RecursionIsBounded` needs neither.
- ContractText.ParseContract: the lower-casing of section names is the ASCII one, exact for the names that are looked up.
- Scanner.FallbackSearch: the JSON parser and the key test are one given predicate; positions are characters, not bytes.
- Scanner.ScanFindsObject: literals and white space may be any text without quotes or braces, which includes all that sections 2 to 7 of RFC 8259 allow.
- Evidence.WorktreeSummary: the note about generated files is a given text; the arithmetic is on unbounded sizes.
- Escalation.Store.Escalate: contracts that an amendment edits are not part of the state; a replan to which the parent agrees is followed only to the statuses it leaves.
- Attempts.RunOneNode: an error of the store ends the source's loop with an error the scheduler turns into a failure; here store writes succeed.
- Attempts.CompleteMeansVerified: a PASS verdict may carry a criterion marked false, and all gates may be manual; the source accepts both.
- Batch.BatchIsHonest: holds at the batch boundary; a crash between completion and the return to running, and owner runs that commit on the shared tree meanwhile, are not modelled.
- Batch.OrderDoesNotMatter: asks of git that it picks a commit whose files nobody else has changed; merges within a file, redundant commits and the rest of git are left open.

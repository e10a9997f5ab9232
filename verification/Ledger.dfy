/** The token ledger: the `budget` table, call debits, the scheduler's split check
    and the grants of `add_children` (src/store.rs, src/scheduler.rs). */
module Ledger {
  import opened Text
  import Splits

  datatype Row = Row(id: string, allowance: int, calls: int, debits: int, feePaid: int, children: int) {
    /** What is left of the allowance; negative when calls overspent it. */
    function Unspent(): int { allowance - calls - feePaid - children }
  }

  function Max0(x: int): (r: nat) { if x > 0 then x else 0 }

  function IndexOf(table: seq<Row>, id: string): (i: int)
    ensures -1 <= i < |table|
    ensures i >= 0 ==> table[i].id == id
    ensures i < 0 ==> forall k | 0 <= k < |table| :: table[k].id != id
  {
    if table == [] then -1
    else if table[|table| - 1].id == id then |table| - 1
    else IndexOf(table[..|table| - 1], id)
  }

  /** `budget_remaining`: one split fee is set aside; no row means no budget. */
  function Remaining(table: seq<Row>, fee: int, id: string): int {
    var i := IndexOf(table, id);
    if i >= 0 then table[i].Unspent() - fee else 0
  }

  function Debited(table: seq<Row>, id: string, tokens: int): (r: seq<Row>)
    ensures |r| == |table|
  {
    var i := IndexOf(table, id);
    if tokens <= 0 || i < 0 then table
    else table[i := table[i].(calls := table[i].calls + tokens, debits := table[i].debits + tokens)]
  }

  // ---- Grants ----

  function ExplicitTotal(allocs: seq<int>): (s: nat) {
    if allocs == [] then 0 else ExplicitTotal(allocs[..|allocs| - 1]) + Max0(allocs[|allocs| - 1])
  }

  function Unallocated(allocs: seq<int>): (n: nat)
    ensures n <= |allocs|
  {
    if allocs == [] then 0
    else Unallocated(allocs[..|allocs| - 1]) + if Max0(allocs[|allocs| - 1]) == 0 then 1 else 0
  }

  /** The equal share of what is left for subtasks that ask for nothing. */
  function Share(remaining: int, allocs: seq<int>): (s: nat) {
    var n := Unallocated(allocs);
    if n > 0 then Max0(Max0(remaining) - ExplicitTotal(allocs)) / n else 0
  }

  function Grants(allocs: seq<int>, share: nat): (g: seq<nat>)
    ensures |g| == |allocs|
  {
    if allocs == [] then []
    else
      var a := Max0(allocs[|allocs| - 1]);
      Grants(allocs[..|allocs| - 1], share) + [if a == 0 then share else a]
  }

  function Sum(xs: seq<nat>): (s: nat) {
    if xs == [] then 0 else Sum(xs[..|xs| - 1]) + xs[|xs| - 1]
  }

  lemma {:induction false} SumBoundsEach(xs: seq<nat>, k: nat)
    requires k < |xs|
    ensures xs[k] <= Sum(xs)
  {
    if k < |xs| - 1 { SumBoundsEach(xs[..|xs| - 1], k); }
  }

  lemma {:induction false} OneMoreShare(n: nat, share: nat)
    ensures (n + 1) * share == n * share + share
  {
  }

  lemma {:induction false} GrantsTotal(allocs: seq<int>, share: nat)
    ensures Sum(Grants(allocs, share)) == ExplicitTotal(allocs) + Unallocated(allocs) * share
  {
    if allocs != [] {
      var front := allocs[..|allocs| - 1];
      GrantsTotal(front, share);
      var g := Grants(allocs, share);
      assert g[..|g| - 1] == Grants(front, share);
      if Max0(allocs[|allocs| - 1]) == 0 {
        OneMoreShare(Unallocated(front), share);
      }
    }
  }

  /** Grants never exceed what is left, unless the explicit requests alone do. */
  lemma {:induction false} GrantsFit(remaining: int, allocs: seq<int>)
    ensures ExplicitTotal(allocs) <= Sum(Grants(allocs, Share(remaining, allocs)))
    ensures Sum(Grants(allocs, Share(remaining, allocs)))
         <= if ExplicitTotal(allocs) > Max0(remaining) then ExplicitTotal(allocs) else Max0(remaining)
  {
    var n, share := Unallocated(allocs), Share(remaining, allocs);
    GrantsTotal(allocs, share);
    if n > 0 { QuotientFits(Max0(Max0(remaining) - ExplicitTotal(allocs)), n); }
  }

  lemma {:induction false} QuotientFits(x: nat, n: nat)
    requires n > 0
    ensures 0 <= n * (x / n) <= x
  {
  }

  /** The requests that ask for something. */
  function Explicit(allocs: seq<int>): (r: seq<nat>)
    ensures |r| == |allocs| && forall k | 0 <= k < |r| :: r[k] == if allocs[k] > 0 then allocs[k] else 0
  {
    seq(|allocs|, k requires 0 <= k < |allocs| => if allocs[k] > 0 then allocs[k] else 0)
  }

  /** The positions of those that ask for nothing. */
  function Open(allocs: seq<int>): set<int> {
    set k | 0 <= k < |allocs| && allocs[k] <= 0
  }

  lemma {:induction false} ExplicitSum(allocs: seq<int>)
    ensures ExplicitTotal(allocs) == Sum(Explicit(allocs))
  {
    if allocs != [] {
      var front := allocs[..|allocs| - 1];
      ExplicitSum(front);
      assert Explicit(allocs)[..|allocs| - 1] == Explicit(front);
    }
  }

  lemma {:induction false} OpenCount(allocs: seq<int>)
    ensures |Open(allocs)| == Unallocated(allocs)
  {
    if allocs != [] {
      var front, last := allocs[..|allocs| - 1], |allocs| - 1;
      OpenCount(front);
      assert Open(allocs) == Open(front) + if allocs[last] <= 0 then {last} else {};
    }
  }

  lemma {:induction false} GrantAt(allocs: seq<int>, share: nat, k: nat)
    requires k < |allocs|
    ensures Grants(allocs, share)[k] == if allocs[k] > 0 then allocs[k] else share
  {
    if k < |allocs| - 1 { GrantAt(allocs[..|allocs| - 1], share, k); }
  }

  lemma {:induction false} QuotientIsClose(x: nat, n: nat)
    requires n > 0
    ensures x - n < n * (x / n) <= x
  {
  }

  /** Main result on grants. What is asked for is granted; the others get equal shares, which use up what is
      left to less than one token each, and nothing when the explicit requests take it all. */
  lemma {:induction false} GrantsAreFair(remaining: int, allocs: seq<int>)
    ensures var grants, left := Grants(allocs, Share(remaining, allocs)), Max0(remaining);
      && (forall k | 0 <= k < |allocs| && allocs[k] > 0 :: grants[k] == allocs[k])
      && (forall j, k | 0 <= j < k < |allocs| && allocs[j] <= 0 && allocs[k] <= 0 :: grants[j] == grants[k])
      && ((exists k :: 0 <= k < |allocs| && allocs[k] <= 0) && Sum(Explicit(allocs)) <= left ==>
            left - |Open(allocs)| < Sum(grants) <= left)
      && (Sum(Explicit(allocs)) >= left ==> Sum(grants) == Sum(Explicit(allocs)))
  {
    hide Grants, Sum, Explicit, ExplicitTotal, Unallocated;
    var n, share := Unallocated(allocs), Share(remaining, allocs);
    forall k | 0 <= k < |allocs|
      ensures Grants(allocs, share)[k] == if allocs[k] > 0 then allocs[k] else share
    {
      GrantAt(allocs, share, k);
    }
    GrantsTotal(allocs, share);
    ExplicitSum(allocs);
    OpenCount(allocs);
    if k :| 0 <= k < |allocs| && allocs[k] <= 0 { assert k in Open(allocs); }
    if n > 0 { QuotientIsClose(Max0(Max0(remaining) - ExplicitTotal(allocs)), n); }
  }

  // ---- The split's effect on the table ----

  /** `INSERT OR IGNORE` of one child row: a row left over under the same id stays. */
  function OpenedOne(table: seq<Row>, id: string, grant: nat): seq<Row> {
    if IndexOf(table, id) >= 0 then table else table + [Row(id, grant, 0, 0, 0, 0)]
  }

  function Opened(table: seq<Row>, ids: seq<string>, grants: seq<nat>, n: nat): (r: seq<Row>)
    requires n <= |ids| && n <= |grants|
    decreases n
  {
    if n == 0 then table else OpenedOne(Opened(table, ids, grants, n - 1), ids[n - 1], grants[n - 1])
  }

  function Charged(table: seq<Row>, fee: int, parent: string, granted: int): (r: seq<Row>)
    ensures |r| == |table|
  {
    var i := IndexOf(table, parent);
    if i < 0 then table
    else
      var p := table[i];
      table[i := p.(feePaid := p.feePaid + fee, children := p.children + granted, debits := p.debits + fee)]
  }

  function AfterGrant(table: seq<Row>, fee: int, parent: string, ids: seq<string>, allocs: seq<int>): seq<Row>
    requires |ids| == |allocs|
  {
    var grants := Grants(allocs, Share(Remaining(table, fee, parent), allocs));
    Opened(Charged(table, fee, parent, Sum(grants)), ids, grants, |ids|)
  }

  /** The scheduler's check, on the allowance read before the call is charged. */
  predicate Approves(table: seq<Row>, fee: int, parent: string, allocs: seq<int>) {
    fee + ExplicitTotal(allocs) <= Remaining(table, fee, parent)
  }

  function AfterAttempt(
    table: seq<Row>, fee: int, parent: string, tokens: int, ids: seq<string>, allocs: seq<int>): seq<Row>
    requires |ids| == |allocs|
  {
    var charged := Debited(table, parent, tokens);
    if Approves(table, fee, parent, allocs) then AfterGrant(charged, fee, parent, ids, allocs) else charged
  }

  /** `DELETE FROM budget WHERE node_id = ?`, of a replanned or vanished node. */
  function Dropped(table: seq<Row>, id: string): seq<Row> {
    var i := IndexOf(table, id);
    if i < 0 then table else table[..i] + table[i + 1..]
  }

  method CountRequests(allocs: seq<int>) returns (total: nat, unallocated: nat)
    ensures total == ExplicitTotal(allocs) && unallocated == Unallocated(allocs)
  {
    total, unallocated := 0, 0;
    for k := 0 to |allocs|
      invariant total == ExplicitTotal(allocs[..k]) && unallocated == Unallocated(allocs[..k])
    {
      assert allocs[..k + 1][..k] == allocs[..k];
      total := total + Max0(allocs[k]);
      unallocated := unallocated + if Max0(allocs[k]) == 0 then 1 else 0;
    }
    assert allocs[..|allocs|] == allocs;
  }

  method OpenShare(remaining: int, allocs: seq<int>) returns (share: nat)
    ensures share == Share(remaining, allocs)
  {
    var total, unallocated := CountRequests(allocs);
    share := if unallocated > 0 then Max0(Max0(remaining) - total) / unallocated else 0;
  }

  method GrantAll(allocs: seq<int>, share: nat) returns (grants: seq<nat>, granted: nat)
    ensures grants == Grants(allocs, share) && granted == Sum(grants)
  {
    grants, granted := [], 0;
    for k := 0 to |allocs|
      invariant grants == Grants(allocs[..k], share) && granted == Sum(grants)
    {
      assert allocs[..k + 1][..k] == allocs[..k];
      var grant := if Max0(allocs[k]) == 0 then share else Max0(allocs[k]);
      assert (grants + [grant])[..|grants|] == grants;
      grants, granted := grants + [grant], granted + grant;
    }
    assert allocs[..|allocs|] == allocs;
  }

  class Budget {
    var table: seq<Row>
    const fee: int

    constructor (allowance: int, fee: int)
      ensures table == [Row("root", allowance, 0, 0, 0, 0)] && this.fee == fee
    {
      table := [Row("root", allowance, 0, 0, 0, 0)];
      this.fee := fee;
    }

    /** A call's tokens are added to the calls and the debits of its node's row, and to nothing else. */
    method DebitCall(id: string, tokens: int)
      modifies this
      ensures table == Debited(old(table), id, tokens)
      ensures UniqueRows(old(table)) ==> |table| == |old(table)| && forall k | 0 <= k < |table| ::
        table[k] == if old(table)[k].id == id && tokens > 0
                    then old(table)[k].(calls := old(table)[k].calls + tokens, debits := old(table)[k].debits + tokens)
                    else old(table)[k]
    {
      if UniqueRows(table) { DebitMeans(table, id, tokens); }
      if tokens <= 0 { return; }
      var i := IndexOf(table, id);
      if i >= 0 {
        var r := table[i];
        table := table[i := r.(calls := r.calls + tokens, debits := r.debits + tokens)];
      }
    }

    method AllocateShares(parent: string, allocs: seq<int>) returns (grants: seq<nat>, granted: nat)
      ensures grants == Grants(allocs, Share(Remaining(table, fee, parent), allocs)) && granted == Sum(grants)
      ensures |grants| == |allocs| && forall k | 0 <= k < |allocs| && allocs[k] > 0 :: grants[k] == allocs[k]
      ensures forall j, k | 0 <= j < k < |allocs| && allocs[j] <= 0 && allocs[k] <= 0 :: grants[j] == grants[k]
      ensures var left := Max0(Remaining(table, fee, parent));
        && ((exists k :: 0 <= k < |allocs| && allocs[k] <= 0) && Sum(Explicit(allocs)) <= left ==>
              left - |Open(allocs)| < granted <= left)
        && (Sum(Explicit(allocs)) >= left ==> granted == Sum(Explicit(allocs)))
    {
      hide Grants, Share, Sum, Explicit, Open, Max0, Remaining;
      GrantsAreFair(Remaining(table, fee, parent), allocs);
      var share := OpenShare(Remaining(table, fee, parent), allocs);
      grants, granted := GrantAll(allocs, share);
    }

    /** The ledger half of `add_children`: charge the parent, then open the children. */
    method AddChildren(parent: string, ids: seq<string>, allocs: seq<int>)
      requires |ids| == |allocs|
      modifies this
      ensures table == AfterGrant(old(table), fee, parent, ids, allocs)
    {
      hide Grants, Share, Sum, Opened, Remaining, Explicit, Open;
      var grants, granted := AllocateShares(parent, allocs);
      var i := IndexOf(table, parent);
      if i >= 0 {
        var p := table[i];
        table := table[i := p.(feePaid := p.feePaid + fee, children := p.children + granted, debits := p.debits + fee)];
      }
      OpenRows(ids, grants);
    }

    method InsertOrIgnore(id: string, grant: nat)
      modifies this
      ensures table == OpenedOne(old(table), id, grant)
    {
      if IndexOf(table, id) < 0 { table := table + [Row(id, grant, 0, 0, 0, 0)]; }
    }

    method OpenRows(ids: seq<string>, grants: seq<nat>)
      requires |ids| == |grants|
      modifies this
      ensures table == Opened(old(table), ids, grants, |ids|)
    {
      for k := 0 to |ids|
        invariant table == Opened(old(table), ids, grants, k)
      {
        InsertOrIgnore(ids[k], grants[k]);
      }
    }

    /** One attempt that proposes a split: read the allowance, make the call, check, grant. */
    method AttemptSplit(parent: string, tokens: int, ids: seq<string>, allocs: seq<int>) returns (accepted: bool)
      requires |ids| == |allocs|
      modifies this
      ensures accepted <==> fee + ExplicitTotal(allocs) <= Remaining(old(table), fee, parent)
      ensures table == AfterAttempt(old(table), fee, parent, tokens, ids, allocs)
    {
      var pre := Remaining(table, fee, parent);
      DebitCall(parent, tokens);
      var proposed, _ := CountRequests(allocs);
      if fee + proposed > pre { return false; }
      AddChildren(parent, ids, allocs);
      accepted := true;
    }

    /** The ledger half of `delete_node`, and of `reconcile` for a vanished node. */
    method DeleteRow(id: string)
      modifies this
      ensures table == Dropped(old(table), id)
      ensures UniqueRows(old(table)) ==> UniqueRows(table) && OnlyDropped(old(table), table, id)
    {
      if UniqueRows(table) { DropMeans(table, id); }
      var i := IndexOf(table, id);
      if i >= 0 { table := table[..i] + table[i + 1..]; }
    }
  }

  // ---- Totals ----

  /** Calls, fees and what is unspent, over every row. */
  function Accounted(table: seq<Row>): int {
    if table == [] then 0
    else
      var r := table[|table| - 1];
      Accounted(table[..|table| - 1]) + r.calls + r.feePaid + r.Unspent()
  }

  function Fees(table: seq<Row>): int {
    if table == [] then 0 else Fees(table[..|table| - 1]) + table[|table| - 1].feePaid
  }

  ghost predicate Balanced(table: seq<Row>) {
    forall r | r in table :: r.debits == r.calls + r.feePaid
  }

  lemma {:induction false} AccountedUpdate(table: seq<Row>, i: nat, r: Row)
    requires i < |table|
    ensures Accounted(table[i := r])
         == Accounted(table) - (table[i].allowance - table[i].children) + (r.allowance - r.children)
  {
    var t := table[i := r];
    if i < |table| - 1 {
      assert t[..|t| - 1] == table[..|table| - 1][i := r];
      AccountedUpdate(table[..|table| - 1], i, r);
    } else {
      assert t[..|t| - 1] == table[..|table| - 1];
    }
  }

  lemma {:induction false} AccountedSnoc(table: seq<Row>, r: Row)
    ensures Accounted(table + [r]) == Accounted(table) + (r.allowance - r.children)
    ensures Fees(table + [r]) == Fees(table) + r.feePaid
  {
    assert (table + [r])[..|table|] == table;
  }

  lemma {:induction false} SpliceFront(table: seq<Row>, front: seq<Row>, last: Row, i: nat)
    requires i < |front| && table == front + [last]
    ensures table[..i] + table[i + 1..] == (front[..i] + front[i + 1..]) + [last]
  {
    assert table[..i] == front[..i] && table[i + 1..] == front[i + 1..] + [last];
  }

  lemma {:induction false} AccountedSplice(table: seq<Row>, i: nat)
    requires i < |table|
    ensures Accounted(table[..i] + table[i + 1..]) == Accounted(table) - (table[i].allowance - table[i].children)
    ensures Fees(table[..i] + table[i + 1..]) == Fees(table) - table[i].feePaid
  {
    var front, last := table[..|table| - 1], table[|table| - 1];
    if i < |front| {
      AccountedSplice(front, i);
      SpliceFront(table, front, last, i);
      AccountedSnoc(front[..i] + front[i + 1..], last);
    } else {
      assert table[..i] + table[i + 1..] == front;
    }
  }

  lemma {:induction false} IndexOfSnoc(table: seq<Row>, r: Row, id: string)
    ensures IndexOf(table + [r], id) == if r.id == id then |table| else IndexOf(table, id)
  {
    assert (table + [r])[..|table|] == table;
  }

  /** Opening rows adds at most what was granted for them. */
  lemma {:induction false} OpenedTotals(table: seq<Row>, ids: seq<string>, grants: seq<nat>, n: nat)
    requires n <= |ids| == |grants|
    ensures Accounted(Opened(table, ids, grants, n)) <= Accounted(table) + Sum(grants[..n])
  {
    if n > 0 {
      OpenedTotals(table, ids, grants, n - 1);
      AccountedSnoc(Opened(table, ids, grants, n - 1), Row(ids[n - 1], grants[n - 1], 0, 0, 0, 0));
      assert grants[..n][..n - 1] == grants[..n - 1];
    }
  }

  /** The ids are new to the ledger and pairwise distinct (see `Runs.NextIdsAreFresh`). */
  ghost predicate FreshIds(table: seq<Row>, ids: seq<string>) {
    && (forall k | 0 <= k < |ids| :: IndexOf(table, ids[k]) < 0)
    && (forall j, k | 0 <= j < k < |ids| :: ids[j] != ids[k])
  }

  predicate HasRow(table: seq<Row>, id: string) { IndexOf(table, id) >= 0 }

  function RowOf(table: seq<Row>, id: string): Row
    requires HasRow(table, id)
  {
    table[IndexOf(table, id)]
  }

  lemma {:induction false} OpenedOneKeeps(table: seq<Row>, x: string, grant: nat, id: string)
    requires HasRow(table, id)
    ensures HasRow(OpenedOne(table, x, grant), id) && RowOf(OpenedOne(table, x, grant), id) == RowOf(table, id)
  {
    IndexOfSnoc(table, Row(x, grant, 0, 0, 0, 0), id);
  }

  /** A row that is there stays what it is. */
  lemma {:induction false} OpenedKeeps(table: seq<Row>, ids: seq<string>, grants: seq<nat>, n: nat, id: string)
    requires n <= |ids| == |grants| && HasRow(table, id)
    ensures HasRow(Opened(table, ids, grants, n), id) && RowOf(Opened(table, ids, grants, n), id) == RowOf(table, id)
  {
    if n > 0 {
      OpenedKeeps(table, ids, grants, n - 1, id);
      OpenedOneKeeps(Opened(table, ids, grants, n - 1), ids[n - 1], grants[n - 1], id);
    }
  }

  lemma {:induction false} OpenedOneIndex(table: seq<Row>, x: string, grant: nat, id: string)
    ensures HasRow(OpenedOne(table, x, grant), id) <==> HasRow(table, id) || id == x
  {
    IndexOfSnoc(table, Row(x, grant, 0, 0, 0, 0), id);
  }

  lemma {:induction false} PrefixGrows(ids: seq<string>, n: nat, id: string)
    requires 0 < n <= |ids|
    ensures id in ids[..n] <==> id in ids[..n - 1] || id == ids[n - 1]
  {
    assert ids[..n] == ids[..n - 1] + [ids[n - 1]];
  }

  /** Opening the first `n` rows gives each of them a row, and no other id. */
  lemma {:induction false} OpenedIndex(table: seq<Row>, ids: seq<string>, grants: seq<nat>, n: nat, id: string)
    requires n <= |ids| == |grants|
    ensures HasRow(Opened(table, ids, grants, n), id) <==> HasRow(table, id) || id in ids[..n]
  {
    if n > 0 {
      OpenedIndex(table, ids, grants, n - 1, id);
      PrefixGrows(ids, n, id);
      OpenedOneIndex(Opened(table, ids, grants, n - 1), ids[n - 1], grants[n - 1], id);
    }
  }

  lemma {:induction false} OpenedStep(table: seq<Row>, ids: seq<string>, grants: seq<nat>, n: nat)
    requires n <= |ids| == |grants|
    ensures Opened(table, ids, grants, n) ==
      if n == 0 then table else OpenedOne(Opened(table, ids, grants, n - 1), ids[n - 1], grants[n - 1])
  {
  }

  lemma {:induction false} FreshIsNew(table: seq<Row>, ids: seq<string>, grants: seq<nat>, n: nat, m: nat)
    requires n <= |ids| == |grants| && FreshIds(table, ids) && n == m + 1
    ensures !HasRow(Opened(table, ids, grants, m), ids[m])
  {
    OpenedIndex(table, ids, grants, m, ids[m]);
  }

  /** With fresh ids it adds exactly what was granted. */
  lemma {:induction false} FreshTotals(table: seq<Row>, ids: seq<string>, grants: seq<nat>, n: nat)
    requires n <= |ids| == |grants| && FreshIds(table, ids)
    ensures Accounted(Opened(table, ids, grants, n)) == Accounted(table) + Sum(grants[..n])
  {
    hide Accounted, Opened, FreshIds, IndexOf;
    OpenedStep(table, ids, grants, n);
    if n > 0 {
      FreshTotals(table, ids, grants, n - 1);
      FreshIsNew(table, ids, grants, n, n - 1);
      AccountedSnoc(Opened(table, ids, grants, n - 1), Row(ids[n - 1], grants[n - 1], 0, 0, 0, 0));
      assert grants[..n][..n - 1] == grants[..n - 1];
    }
  }

  /** Every row after a split is an old one or a new child's. */
  lemma {:induction false} OpenedRow(table: seq<Row>, ids: seq<string>, grants: seq<nat>, n: nat, r: Row)
    requires n <= |ids| == |grants| && r in Opened(table, ids, grants, n)
    ensures r in table || IsNewRow(ids, grants, n, r)
  {
    hide OpenedOne, IsNewRow;
    if n > 0 {
      var before := Opened(table, ids, grants, n - 1);
      OpenedOneRow(before, ids[n - 1], grants[n - 1], r);
      if r in before { OpenedRow(table, ids, grants, n - 1, r); }
      NewRowAt(ids, grants, n, r);
    }
  }

  lemma {:induction false} NewRowAt(ids: seq<string>, grants: seq<nat>, n: nat, r: Row)
    requires 0 < n <= |ids| == |grants|
    ensures r == Row(ids[n - 1], grants[n - 1], 0, 0, 0, 0) || IsNewRow(ids, grants, n - 1, r) ==>
              IsNewRow(ids, grants, n, r)
  {
  }

  ghost predicate IsNewRow(ids: seq<string>, grants: seq<nat>, n: nat, r: Row)
    requires n <= |ids| == |grants|
  {
    exists k | 0 <= k < n :: r == Row(ids[k], grants[k], 0, 0, 0, 0)
  }

  lemma {:induction false} OpenedOneRow(table: seq<Row>, id: string, grant: nat, r: Row)
    requires r in OpenedOne(table, id, grant)
    ensures r in table || r == Row(id, grant, 0, 0, 0, 0)
  {
  }

  // ---- Events ----

  /** An event of the ledger's life: a charged call, an attempt to split under the scheduler's check, a
      split through the butler, which skips that check, or the removal of a node's row. */
  datatype Event =
    | Call(id: string, tokens: int)
    | Attempt(parent: string, tokens: int, ids: seq<string>, allocs: seq<int>)
    | Forced(parent: string, ids: seq<string>, allocs: seq<int>)
    | Remove(id: string)

  /** The ids of a split are generated ids of the parent: one per subtask, used before or not. */
  ghost predicate Generated(parent: string, ids: seq<string>) {
    forall k | 0 <= k < |ids| :: exists n: nat :: ids[k] == Splits.ChildId(parent, n)
  }

  ghost predicate Possible(e: Event) {
    match e
    case Attempt(parent, _, ids, allocs) => |ids| == |allocs| && Generated(parent, ids)
    case Forced(parent, ids, allocs) => |ids| == |allocs| && Generated(parent, ids)
    case _ => true
  }

  /** Nothing is removed, and a split opens fresh rows for a node that has one. */
  ghost predicate Pristine(table: seq<Row>, e: Event) {
    match e
    case Call(_, _) => true
    case Attempt(parent, _, ids, _) => HasRow(table, parent) && FreshIds(table, ids)
    case Forced(parent, ids, _) => HasRow(table, parent) && FreshIds(table, ids)
    case Remove(_) => false
  }

  ghost function After(table: seq<Row>, fee: int, e: Event): seq<Row>
    requires Possible(e)
  {
    match e
    case Call(id, tokens) => Debited(table, id, tokens)
    case Attempt(parent, tokens, ids, allocs) => AfterAttempt(table, fee, parent, tokens, ids, allocs)
    case Forced(parent, ids, allocs) => AfterGrant(table, fee, parent, ids, allocs)
    case Remove(id) => Dropped(table, id)
  }

  function Opening(budget: int): seq<Row> {
    [Row("root", budget, 0, 0, 0, 0)]
  }

  ghost predicate IsHistory(tables: seq<seq<Row>>, fee: int, events: seq<Event>, budget: int) {
    && |tables| == |events| + 1 && tables[0] == Opening(budget)
    && forall i | 0 <= i < |events| :: Follows(tables, fee, events, i)
  }

  ghost predicate Follows(tables: seq<seq<Row>>, fee: int, events: seq<Event>, i: nat)
    requires i < |events| < |tables|
  {
    Possible(events[i]) && tables[i + 1] == After(tables[i], fee, events[i])
  }

  ghost predicate PristineHistory(tables: seq<seq<Row>>, fee: int, events: seq<Event>, budget: int) {
    IsHistory(tables, fee, events, budget) && forall i | 0 <= i < |events| :: Pristine(tables[i], events[i])
  }

  // ---- One row per id ----

  /** `node_id` is the table's primary key. */
  ghost predicate UniqueRows(table: seq<Row>) {
    forall i, j | 0 <= i < j < |table| :: table[i].id != table[j].id
  }

  /** The id has no row any more, and every other id has the row it had. */
  ghost predicate OnlyDropped(table: seq<Row>, table': seq<Row>, id: string) {
    !HasRow(table', id) && forall r :: r in table' <==> r in table && r.id != id
  }

  /** The table without its `i`-th row. */
  function Spliced(table: seq<Row>, i: nat): seq<Row>
    requires i < |table|
  {
    table[..i] + table[i + 1..]
  }

  lemma {:induction false} SplicedAt(table: seq<Row>, i: nat, k: nat)
    requires i < |table| && k < |table| - 1
    ensures |Spliced(table, i)| == |table| - 1 && Spliced(table, i)[k] == table[if k < i then k else k + 1]
  {
  }

  lemma {:induction false} SplicedHas(table: seq<Row>, i: nat, r: Row)
    requires i < |table| && UniqueRows(table)
    ensures r in Spliced(table, i) <==> r in table && r.id != table[i].id
  {
    hide Spliced;
    var t := Spliced(table, i);
    SplicedLength(table, i);
    if r in t {
      var k :| 0 <= k < |t| && t[k] == r;
      SplicedAt(table, i, k);
    }
    if r in table && r.id != table[i].id {
      var k :| 0 <= k < |table| && table[k] == r;
      SplicedAt(table, i, if k < i then k else k - 1);
    }
  }

  lemma {:induction false} SplicedLength(table: seq<Row>, i: nat)
    requires i < |table|
    ensures |Spliced(table, i)| == |table| - 1
  {
  }

  lemma {:induction false} SplicedIsUnique(table: seq<Row>, i: nat)
    requires i < |table| && UniqueRows(table)
    ensures UniqueRows(Spliced(table, i))
  {
    hide Spliced;
    var t := Spliced(table, i);
    SplicedLength(table, i);
    forall k, m | 0 <= k < m < |t| ensures t[k].id != t[m].id {
      SplicedAt(table, i, k);
      SplicedAt(table, i, m);
    }
  }

  lemma {:induction false} DropMeans(table: seq<Row>, id: string)
    requires UniqueRows(table)
    ensures UniqueRows(Dropped(table, id)) && OnlyDropped(table, Dropped(table, id), id)
  {
    var i := IndexOf(table, id);
    if i >= 0 {
      assert Dropped(table, id) == Spliced(table, i);
      hide Spliced, Dropped, UniqueRows;
      SplicedIsUnique(table, i);
      forall r ensures r in Spliced(table, i) <==> r in table && r.id != id { SplicedHas(table, i, r); }
      NoneLeft(Spliced(table, i), id);
    } else {
      NothingDropped(table, id);
    }
  }

  lemma {:induction false} NothingDropped(table: seq<Row>, id: string)
    requires IndexOf(table, id) < 0
    ensures Dropped(table, id) == table && OnlyDropped(table, table, id)
  {
    forall r | r in table ensures r.id != id {
      var k :| 0 <= k < |table| && table[k] == r;
    }
  }

  lemma {:induction false} NoneLeft(table: seq<Row>, id: string)
    requires forall r | r in table :: r.id != id
    ensures !HasRow(table, id)
  {
    assert forall k | 0 <= k < |table| :: table[k] in table;
  }

  lemma {:induction false} IndexIsUnique(table: seq<Row>, k: nat)
    requires UniqueRows(table) && k < |table|
    ensures IndexOf(table, table[k].id) == k
  {
    var i := IndexOf(table, table[k].id);
  }

  /** Main result on debits, row by row. */
  lemma {:induction false} DebitMeans(table: seq<Row>, id: string, tokens: int)
    requires UniqueRows(table)
    ensures forall k | 0 <= k < |table| ::
      Debited(table, id, tokens)[k] ==
        if table[k].id == id && tokens > 0
        then table[k].(calls := table[k].calls + tokens, debits := table[k].debits + tokens) else table[k]
  {
    forall k | 0 <= k < |table| ensures IndexOf(table, table[k].id) == k { IndexIsUnique(table, k); }
  }

  /** What is left of a row's allowance once its calls, fees and children and one more fee are taken off;
      nothing without a row. */
  lemma {:induction false} RemainingMeans(table: seq<Row>, fee: int, id: string)
    requires UniqueRows(table)
    ensures forall r | r in table && r.id == id ::
      Remaining(table, fee, id) + r.calls + r.feePaid + r.children + fee == r.allowance
    ensures (forall r | r in table :: r.id != id) ==> Remaining(table, fee, id) == 0
  {
    forall r | r in table && r.id == id ensures r == table[IndexOf(table, id)] {
      var k :| 0 <= k < |table| && table[k] == r;
      IndexIsUnique(table, k);
    }
  }

  /** A call takes exactly its tokens off what its node has left, and nothing off anybody else. */
  lemma {:induction false} DebitTakes(table: seq<Row>, fee: int, id: string, tokens: int, x: string)
    requires UniqueRows(table)
    ensures Remaining(Debited(table, id, tokens), fee, x) ==
      Remaining(table, fee, x) - if x == id && tokens > 0 && exists r :: r in table && r.id == id then tokens else 0
  {
    SameIdsSameIndex(table, Debited(table, id, tokens), x);
    var i := IndexOf(table, x);
    if i >= 0 { assert table[i] in table; }
  }

  lemma {:induction false} OpeningKeepsUnique(table: seq<Row>, ids: seq<string>, grants: seq<nat>, n: nat)
    requires n <= |ids| == |grants| && UniqueRows(table)
    ensures UniqueRows(Opened(table, ids, grants, n))
  {
    if n > 0 {
      OpeningKeepsUnique(table, ids, grants, n - 1);
      var before := Opened(table, ids, grants, n - 1);
      assert IndexOf(before, ids[n - 1]) < 0 ==> forall k | 0 <= k < |before| :: before[k].id != ids[n - 1];
    }
  }

  /** Every event keeps one row per id. */
  lemma {:induction false} EventKeepsUnique(table: seq<Row>, fee: int, e: Event)
    requires Possible(e) && UniqueRows(table)
    ensures UniqueRows(After(table, fee, e))
  {
    match e
    case Call(_, _) =>
    case Attempt(parent, tokens, ids, allocs) =>
      var debited := Debited(table, parent, tokens);
      GrantKeepsUnique(debited, fee, parent, ids, allocs);
    case Forced(parent, ids, allocs) => GrantKeepsUnique(table, fee, parent, ids, allocs);
    case Remove(id) => DropMeans(table, id);
  }

  lemma {:induction false} GrantKeepsUnique(
    table: seq<Row>, fee: int, parent: string, ids: seq<string>, allocs: seq<int>)
    requires UniqueRows(table) && |ids| == |allocs|
    ensures UniqueRows(AfterGrant(table, fee, parent, ids, allocs))
  {
    var grants := Grants(allocs, Share(Remaining(table, fee, parent), allocs));
    OpeningKeepsUnique(Charged(table, fee, parent, Sum(grants)), ids, grants, |ids|);
  }

  /** So along every history a removed id has no row. */
  lemma {:induction false} HistoryIsUnique(
    tables: seq<seq<Row>>, fee: int, events: seq<Event>, budget: int, i: nat)
    requires IsHistory(tables, fee, events, budget) && i < |tables|
    ensures UniqueRows(tables[i])
    ensures i > 0 && events[i - 1].Remove? ==> OnlyDropped(tables[i - 1], tables[i], events[i - 1].id)
  {
    if i > 0 {
      HistoryIsUnique(tables, fee, events, budget, i - 1);
      assert Follows(tables, fee, events, i - 1);
      EventKeepsUnique(tables[i - 1], fee, events[i - 1]);
      if events[i - 1].Remove? { DropMeans(tables[i - 1], events[i - 1].id); }
    }
  }

  // ---- What a split writes ----

  lemma {:induction false} OpenedOneHas(table: seq<Row>, id: string, grant: nat, r: Row)
    ensures r in OpenedOne(table, id, grant) <==>
      r in table || (r == Row(id, grant, 0, 0, 0, 0) && forall q | q in table :: q.id != id)
  {
    var i := IndexOf(table, id);
    if i >= 0 { assert table[i] in table; }
  }

  /** A new row is opened for each id that has none; a row that is there stays as it is. */
  lemma {:induction false} OpenedHas(table: seq<Row>, ids: seq<string>, grants: seq<nat>, n: nat, r: Row)
    requires n <= |ids| == |grants| && forall j, k | 0 <= j < k < |ids| :: ids[j] != ids[k]
    ensures r in Opened(table, ids, grants, n) <==>
      r in table || exists k | 0 <= k < n :: OpensAt(table, ids, grants, k, r)
  {
    hide OpenedOne, OpensAt;
    if n > 0 {
      var before := Opened(table, ids, grants, n - 1);
      OpenedHas(table, ids, grants, n - 1, r);
      OpenedOneHas(before, ids[n - 1], grants[n - 1], r);
      forall q ensures q in before && q.id == ids[n - 1] <==> q in table && q.id == ids[n - 1] {
        OpenedHas(table, ids, grants, n - 1, q);
        NoneOpensAs(table, ids, grants, n - 1, q);
      }
      OpensMeans(table, ids, grants, n - 1, r);
    }
  }

  /** The split's `k`-th id has no row yet, and `r` is the one it gets. */
  ghost predicate OpensAt(table: seq<Row>, ids: seq<string>, grants: seq<nat>, k: nat, r: Row)
    requires k < |ids| == |grants|
  {
    r == Row(ids[k], grants[k], 0, 0, 0, 0) && forall q | q in table :: q.id != ids[k]
  }

  lemma {:induction false} NoneOpensAs(table: seq<Row>, ids: seq<string>, grants: seq<nat>, n: nat, q: Row)
    requires n < |ids| == |grants| && forall j, k | 0 <= j < k < |ids| :: ids[j] != ids[k]
    ensures q.id == ids[n] ==> forall k | 0 <= k < n :: !OpensAt(table, ids, grants, k, q)
  {
  }

  lemma {:induction false} OpensMeans(table: seq<Row>, ids: seq<string>, grants: seq<nat>, k: nat, r: Row)
    requires k < |ids| == |grants|
    ensures OpensAt(table, ids, grants, k, r) <==>
      r == Row(ids[k], grants[k], 0, 0, 0, 0) && forall q | q in table :: q.id != ids[k]
  {
  }

  lemma {:induction false} ChargedMeans(table: seq<Row>, fee: int, parent: string, granted: int)
    requires UniqueRows(table)
    ensures forall k | 0 <= k < |table| ::
      Charged(table, fee, parent, granted)[k] ==
        if table[k].id != parent then table[k]
        else Row(parent, table[k].allowance, table[k].calls, table[k].debits + fee, table[k].feePaid + fee,
                 table[k].children + granted)
  {
    forall k | 0 <= k < |table| ensures IndexOf(table, table[k].id) == k { IndexIsUnique(table, k); }
  }

  /** Main result on splits, row by row: the parent's row pays one fee and what is granted, each id without a
      row gets one with its grant and nothing spent, and every other row is as it was. */
  lemma {:induction false} SplitMeans(
    table: seq<Row>, fee: int, parent: string, ids: seq<string>, allocs: seq<int>, r: Row)
    requires UniqueRows(table) && |ids| == |allocs| && parent !in ids
    requires forall j, k | 0 <= j < k < |ids| :: ids[j] != ids[k]
    ensures var grants := Grants(allocs, Share(Remaining(table, fee, parent), allocs));
      r in AfterGrant(table, fee, parent, ids, allocs) <==>
        || (r in table && r.id != parent)
        || (r.id == parent &&
              r.(debits := r.debits - fee, feePaid := r.feePaid - fee, children := r.children - Sum(grants)) in table)
        || exists k | 0 <= k < |ids| ::
             r == Row(ids[k], grants[k], 0, 0, 0, 0) && forall q | q in table :: q.id != ids[k]
  {
    hide Grants, Share, Remaining, Sum, IndexOf;
    var grants := Grants(allocs, Share(Remaining(table, fee, parent), allocs));
    var charged := Charged(table, fee, parent, Sum(grants));
    ChargedMeans(table, fee, parent, Sum(grants));
    OpenedHas(charged, ids, grants, |ids|, r);
    ChargedHas(table, charged, fee, parent, Sum(grants), r);
    forall k | 0 <= k < |ids|
      ensures OpensAt(charged, ids, grants, k, r) <==>
        r == Row(ids[k], grants[k], 0, 0, 0, 0) && forall q | q in table :: q.id != ids[k]
    {
      SameIdsIn(table, charged, ids[k]);
    }
  }

  lemma {:induction false} SameIdsIn(a: seq<Row>, b: seq<Row>, id: string)
    requires |a| == |b| && forall k | 0 <= k < |a| :: a[k].id == b[k].id
    ensures (forall q | q in a :: q.id != id) <==> forall q | q in b :: q.id != id
  {
    if forall q | q in a :: q.id != id { forall k | 0 <= k < |b| ensures b[k].id != id { assert a[k] in a; } }
    if forall q | q in b :: q.id != id { forall k | 0 <= k < |a| ensures a[k].id != id { assert b[k] in b; } }
  }

  lemma {:induction false} ChargedHas(
    table: seq<Row>, charged: seq<Row>, fee: int, parent: string, granted: int, r: Row)
    requires |charged| == |table| && forall k | 0 <= k < |table| ::
      charged[k] == if table[k].id != parent then table[k]
                    else Row(parent, table[k].allowance, table[k].calls, table[k].debits + fee, table[k].feePaid + fee,
                             table[k].children + granted)
    ensures r in charged <==>
      || (r in table && r.id != parent)
      || (r.id == parent &&
            r.(debits := r.debits - fee, feePaid := r.feePaid - fee, children := r.children - granted) in table)
  {
    if r in charged { var k :| 0 <= k < |charged| && charged[k] == r; assert table[k] in table; }
    if r in table && r.id != parent { var k :| 0 <= k < |table| && table[k] == r; assert charged[k] == r; }
    var was := r.(debits := r.debits - fee, feePaid := r.feePaid - fee, children := r.children - granted);
    if r.id == parent && was in table { var k :| 0 <= k < |table| && table[k] == was; assert charged[k] == r; }
  }

  // ---- What calls cost ----

  function Calls(table: seq<Row>): int {
    if table == [] then 0 else Calls(table[..|table| - 1]) + table[|table| - 1].calls
  }

  lemma {:induction false} CallsUpdate(table: seq<Row>, i: nat, r: Row)
    requires i < |table|
    ensures Calls(table[i := r]) == Calls(table) - table[i].calls + r.calls
  {
    var t := table[i := r];
    if i < |table| - 1 {
      assert t[..|t| - 1] == table[..|table| - 1][i := r];
      CallsUpdate(table[..|table| - 1], i, r);
    } else {
      assert t[..|t| - 1] == table[..|table| - 1];
    }
  }

  lemma {:induction false} CallsSnoc(table: seq<Row>, r: Row)
    ensures Calls(table + [r]) == Calls(table) + r.calls
  {
    assert (table + [r])[..|table|] == table;
  }

  lemma {:induction false} CallsSplice(table: seq<Row>, i: nat)
    requires i < |table|
    ensures Calls(table[..i] + table[i + 1..]) == Calls(table) - table[i].calls
  {
    var front, last := table[..|table| - 1], table[|table| - 1];
    if i < |front| {
      CallsSplice(front, i);
      SpliceFront(table, front, last, i);
      CallsSnoc(front[..i] + front[i + 1..], last);
    } else {
      assert table[..i] + table[i + 1..] == front;
    }
  }

  lemma {:induction false} OpeningCallsNothing(table: seq<Row>, ids: seq<string>, grants: seq<nat>, n: nat)
    requires n <= |ids| == |grants|
    ensures Calls(Opened(table, ids, grants, n)) == Calls(table)
  {
    hide Calls, OpenedOne, Opened;
    OpenedStep(table, ids, grants, n);
    if n > 0 {
      OpeningCallsNothing(table, ids, grants, n - 1);
      OpenedOneCallsNothing(Opened(table, ids, grants, n - 1), ids[n - 1], grants[n - 1]);
    }
  }

  lemma {:induction false} OpenedOneCallsNothing(table: seq<Row>, id: string, grant: nat)
    ensures Calls(OpenedOne(table, id, grant)) == Calls(table)
  {
    hide Calls, IndexOf;
    CallsSnoc(table, Row(id, grant, 0, 0, 0, 0));
  }

  lemma {:induction false} GrantCallsNothing(
    table: seq<Row>, fee: int, parent: string, ids: seq<string>, allocs: seq<int>)
    requires |ids| == |allocs|
    ensures Calls(AfterGrant(table, fee, parent, ids, allocs)) == Calls(table)
  {
    hide Calls, Grants, Share, Sum, Opened;
    var grants, i := Grants(allocs, Share(Remaining(table, fee, parent), allocs)), IndexOf(table, parent);
    OpeningCallsNothing(Charged(table, fee, parent, Sum(grants)), ids, grants, |ids|);
    if i >= 0 { CallsUpdate(table, i, Charged(table, fee, parent, Sum(grants))[i]); }
  }

  /** The tokens an event charges: those of its call, if its node has a row. */
  ghost function ChargeOf(table: seq<Row>, e: Event): nat {
    match e
    case Call(id, tokens) => if tokens > 0 && exists r :: r in table && r.id == id then tokens else 0
    case Attempt(parent, tokens, _, _) => if tokens > 0 && exists r :: r in table && r.id == parent then tokens else 0
    case _ => 0
  }

  lemma {:induction false} DebitCharges(table: seq<Row>, id: string, tokens: int)
    ensures Calls(Debited(table, id, tokens)) ==
      Calls(table) + if tokens > 0 && exists r :: r in table && r.id == id then tokens else 0
  {
    hide Calls;
    var i := IndexOf(table, id);
    if tokens > 0 && i >= 0 {
      assert table[i] in table;
      CallsUpdate(table, i, Debited(table, id, tokens)[i]);
    }
  }

  /** The calls on record in the row of an id. */
  function CallsOf(table: seq<Row>, id: string): int {
    if HasRow(table, id) then RowOf(table, id).calls else 0
  }

  lemma {:induction false} EventCharges(table: seq<Row>, fee: int, e: Event)
    requires Possible(e)
    ensures Calls(After(table, fee, e)) + (if e.Remove? then CallsOf(table, e.id) else 0)
         == Calls(table) + ChargeOf(table, e)
  {
    hide Calls;
    match e
    case Call(id, tokens) => DebitCharges(table, id, tokens);
    case Attempt(parent, tokens, ids, allocs) =>
      DebitCharges(table, parent, tokens);
      var debited := Debited(table, parent, tokens);
      if Approves(table, fee, parent, allocs) { GrantCallsNothing(debited, fee, parent, ids, allocs); }
    case Forced(parent, ids, allocs) => GrantCallsNothing(table, fee, parent, ids, allocs);
    case Remove(id) =>
      var i := IndexOf(table, id);
      if i >= 0 { CallsSplice(table, i); }
  }

  /** The calls that went with the rows removed by the first `n` events. */
  ghost function LostCalls(tables: seq<seq<Row>>, events: seq<Event>, n: nat): int
    requires n <= |events| < |tables|
    decreases n
  {
    if n == 0 then 0
    else
      LostCalls(tables, events, n - 1)
      + if events[n - 1].Remove? then CallsOf(tables[n - 1], events[n - 1].id) else 0
  }

  /** All the tokens the first `n` events charged. */
  ghost function ChargedTokens(tables: seq<seq<Row>>, events: seq<Event>, n: nat): nat
    requires n <= |events| < |tables|
    decreases n
  {
    if n == 0 then 0 else ChargedTokens(tables, events, n - 1) + ChargeOf(tables[n - 1], events[n - 1])
  }

  /** No call is lost and none is made up: along every history, the calls on record and those that went with
      removed rows are exactly the tokens charged to nodes that had a row. */
  lemma {:induction false} CallsAreCharged(
    tables: seq<seq<Row>>, fee: int, events: seq<Event>, budget: int, i: nat)
    requires IsHistory(tables, fee, events, budget) && i < |tables|
    ensures Calls(tables[i]) + LostCalls(tables, events, i) == ChargedTokens(tables, events, i)
  {
    if i == 0 {
      assert Opening(budget)[..0] == [];
    } else {
      hide Calls;
      CallsAreCharged(tables, fee, events, budget, i - 1);
      assert Follows(tables, fee, events, i - 1);
      EventCharges(tables[i - 1], fee, events[i - 1]);
    }
  }

  // ---- Conservation ----

  lemma {:induction false} SameIdsSameIndex(a: seq<Row>, b: seq<Row>, id: string)
    requires |a| == |b| && forall k | 0 <= k < |a| :: a[k].id == b[k].id
    ensures IndexOf(a, id) == IndexOf(b, id)
  {
    if a != [] && a[|a| - 1].id != id { SameIdsSameIndex(a[..|a| - 1], b[..|b| - 1], id); }
  }

  /** Debits and charges rewrite one row and keep every id in place. */
  lemma {:induction false} RewritesKeepIds(table: seq<Row>, table': seq<Row>, ids: seq<string>, id: string)
    requires |table| == |table'| && forall k | 0 <= k < |table| :: table[k].id == table'[k].id
    ensures FreshIds(table, ids) ==> FreshIds(table', ids)
    ensures IndexOf(table', id) == IndexOf(table, id)
  {
    SameIdsSameIndex(table, table', id);
    forall k | 0 <= k < |ids| ensures IndexOf(table, ids[k]) == IndexOf(table', ids[k]) {
      SameIdsSameIndex(table, table', ids[k]);
    }
  }

  lemma {:induction false} DebitConserves(table: seq<Row>, id: string, tokens: int)
    ensures Accounted(Debited(table, id, tokens)) == Accounted(table)
    ensures Balanced(table) ==> Balanced(Debited(table, id, tokens))
  {
    var i := IndexOf(table, id);
    if tokens > 0 && i >= 0 {
      AccountedUpdate(table, i, table[i].(calls := table[i].calls + tokens, debits := table[i].debits + tokens));
    }
  }

  lemma {:induction false} ChargeMoves(table: seq<Row>, fee: int, parent: string, granted: int)
    requires HasRow(table, parent)
    ensures Accounted(Charged(table, fee, parent, granted)) == Accounted(table) - granted
    ensures Balanced(table) ==> Balanced(Charged(table, fee, parent, granted))
  {
    var i := IndexOf(table, parent);
    var p := table[i];
    AccountedUpdate(
      table, i, p.(feePaid := p.feePaid + fee, children := p.children + granted, debits := p.debits + fee));
  }

  /** What a split grants leaves the parent's account and enters the children's. */
  lemma {:induction false} GrantConserves(
    table: seq<Row>, fee: int, parent: string, ids: seq<string>, allocs: seq<int>)
    requires HasRow(table, parent) && |ids| == |allocs| && FreshIds(table, ids) && Balanced(table)
    ensures Accounted(AfterGrant(table, fee, parent, ids, allocs)) == Accounted(table)
    ensures Balanced(AfterGrant(table, fee, parent, ids, allocs))
  {
    var grants := Grants(allocs, Share(Remaining(table, fee, parent), allocs));
    var charged := Charged(table, fee, parent, Sum(grants));
    ChargeMoves(table, fee, parent, Sum(grants));
    RewritesKeepIds(table, charged, ids, parent);
    FreshTotals(charged, ids, grants, |ids|);
    assert grants[..|ids|] == grants;
    forall r | r in Opened(charged, ids, grants, |ids|) ensures r.debits == r.calls + r.feePaid {
      OpenedRow(charged, ids, grants, |ids|, r);
    }
  }

  lemma {:induction false} EventConserves(table: seq<Row>, fee: int, e: Event)
    requires Possible(e) && Pristine(table, e) && Balanced(table)
    ensures Accounted(After(table, fee, e)) == Accounted(table) && Balanced(After(table, fee, e))
  {
    match e
    case Call(id, tokens) => DebitConserves(table, id, tokens);
    case Attempt(parent, tokens, ids, allocs) =>
      DebitConserves(table, parent, tokens);
      var charged := Debited(table, parent, tokens);
      RewritesKeepIds(table, charged, ids, parent);
      GrantConserves(charged, fee, parent, ids, allocs);
    case Forced(parent, ids, allocs) => GrantConserves(table, fee, parent, ids, allocs);
  }

  lemma {:induction false} OpeningTotals(budget: int)
    ensures Accounted(Opening(budget)) == budget && Fees(Opening(budget)) == 0
  {
    AccountedSnoc([], Opening(budget)[0]);
    assert [] + Opening(budget) == Opening(budget);
  }

  /** Conservation: along every history without removals, overspending and forced splits included, the
      root's budget equals calls, fees and unspent allowance summed over all rows. */
  lemma {:induction false} BudgetIsConserved(
    tables: seq<seq<Row>>, fee: int, events: seq<Event>, budget: int, i: nat)
    requires PristineHistory(tables, fee, events, budget) && i < |tables|
    ensures Accounted(tables[i]) == budget && Balanced(tables[i])
  {
    if i == 0 {
      OpeningTotals(budget);
    } else {
      BudgetIsConserved(tables, fee, events, budget, i - 1);
      assert Follows(tables, fee, events, i - 1);
      EventConserves(tables[i - 1], fee, events[i - 1]);
    }
  }

  // ---- The economic bound ----

  /** A node's depth, one more than the dashes of its id: generated ids add one dash and two or more
      digits to the parent's. */
  function Depth(id: string): (d: nat)
    ensures d >= 1
  {
    if id == "" then 1 else Depth(id[..|id| - 1]) + if id[|id| - 1] == '-' then 1 else 0
  }

  lemma {:induction false} DepthOfConcat(a: string, b: string)
    ensures Depth(a + b) == Depth(a) + Depth(b) - 1
  {
    if b == "" {
      assert a + b == a;
    } else {
      assert (a + b)[..|a + b| - 1] == a + b[..|b| - 1];
      DepthOfConcat(a, b[..|b| - 1]);
    }
  }

  lemma {:induction false} DashFree(s: string)
    requires '-' !in s
    ensures Depth(s) == 1
  {
    if s != "" { DashFree(s[..|s| - 1]); }
  }

  /** A generated id is one level below its parent's. */
  lemma {:induction false} ChildIdDepth(parent: string, n: nat)
    ensures Depth(Splits.ChildId(parent, n)) == Depth(parent) + 1
  {
    NumbersArePlain(n);
    DashFree(Pad2(n));
    DashFree("");
    DepthOfConcat("-", Pad2(n));
    assert "-"[..0] == "";
    DepthOfConcat(parent, "-" + Pad2(n));
    assert Splits.ChildId(parent, n) == parent + ("-" + Pad2(n));
  }

  /** Fees and grants fit in the allowance, whatever the calls spent. */
  predicate Solvent(r: Row) {
    0 <= r.calls && 0 <= r.feePaid && 0 <= r.children && r.feePaid + r.children <= r.allowance
  }

  /** A fee has been paid on every level above, and two fees' worth where a split was approved. */
  predicate Funded(r: Row, fee: int, budget: int) {
    var d := Depth(r.id);
    r.allowance + (d - 1) * fee <= budget && (d > 1 ==> d * fee <= budget)
  }

  ghost predicate Economic(table: seq<Row>, fee: int, budget: int) {
    forall r | r in table :: Solvent(r) && Funded(r, fee, budget)
  }

  lemma {:induction false} DebitKeepsEconomic(table: seq<Row>, fee: int, budget: int, id: string, tokens: int)
    requires Economic(table, fee, budget)
    ensures Economic(Debited(table, id, tokens), fee, budget)
  {
    var t := Debited(table, id, tokens);
    forall r | r in t ensures Solvent(r) && Funded(r, fee, budget) {
      var k :| 0 <= k < |t| && t[k] == r;
      assert table[k] in table;
    }
  }

  /** The check reads the allowance before the call is charged and the grant after it;
      still fee and grants together stay within the allowance. */
  lemma {:induction false} ApprovedGrantFits(p: Row, q: Row, fee: int, allocs: seq<int>)
    requires Solvent(p) && fee > 0 && fee + ExplicitTotal(allocs) <= p.Unspent() - fee
    requires q.allowance == p.allowance && q.feePaid == p.feePaid && q.children == p.children && q.calls >= p.calls
    ensures Sum(Grants(allocs, Share(q.Unspent() - fee, allocs))) + fee <= q.Unspent() + q.calls
    ensures 2 * fee <= p.allowance
  {
    GrantsFit(q.Unspent() - fee, allocs);
  }

  lemma {:induction false} DebitedRow(table: seq<Row>, id: string, tokens: int)
    requires HasRow(table, id)
    ensures var t, i := Debited(table, id, tokens), IndexOf(table, id);
      && IndexOf(t, id) == i && t[i].allowance == table[i].allowance
      && t[i].feePaid == table[i].feePaid && t[i].children == table[i].children && t[i].calls >= table[i].calls
  {
    SameIdsSameIndex(table, Debited(table, id, tokens), id);
  }

  lemma {:induction false} FundedChild(p: Row, fee: int, budget: int, id: string, grant: nat)
    requires fee > 0 && Funded(p, fee, budget) && grant + fee <= p.allowance && 2 * fee <= p.allowance
    requires Depth(id) == Depth(p.id) + 1
    ensures Funded(Row(id, grant, 0, 0, 0, 0), fee, budget)
  {
    var d := Depth(p.id);
    assert d * fee == (d - 1) * fee + fee;
    assert (d + 1) * fee == (d - 1) * fee + 2 * fee;
  }

  /** After an approved split: the parent's row pays fee and grants from its allowance. */
  ghost predicate Grantable(table: seq<Row>, fee: int, parent: string, allocs: seq<int>) {
    && HasRow(table, parent)
    && var p := table[IndexOf(table, parent)];
       && 2 * fee <= p.allowance
       && Sum(Grants(allocs, Share(p.Unspent() - fee, allocs))) + fee <= p.Unspent() + p.calls
  }

  lemma {:induction false} ApprovedIsGrantable(
    table: seq<Row>, fee: int, budget: int, parent: string, tokens: int, allocs: seq<int>)
    requires fee > 0 && Economic(table, fee, budget) && Approves(table, fee, parent, allocs)
    ensures HasRow(table, parent) && Grantable(Debited(table, parent, tokens), fee, parent, allocs)
  {
    var i := IndexOf(table, parent);
    assert table[i] in table;
    DebitedRow(table, parent, tokens);
    ApprovedGrantFits(table[i], Debited(table, parent, tokens)[i], fee, allocs);
  }

  lemma {:induction false} ChargeKeepsEconomic(table: seq<Row>, fee: int, budget: int, parent: string, granted: nat)
    requires fee > 0 && Economic(table, fee, budget) && HasRow(table, parent)
    requires var p := table[IndexOf(table, parent)]; granted + fee <= p.Unspent() + p.calls
    ensures Economic(Charged(table, fee, parent, granted), fee, budget)
  {
    var charged := Charged(table, fee, parent, granted);
    forall r | r in charged ensures Solvent(r) && Funded(r, fee, budget) {
      var k :| 0 <= k < |charged| && charged[k] == r;
      assert table[k] in table;
    }
  }

  lemma {:induction false} NewRowIsEconomic(
    p: Row, fee: int, budget: int, ids: seq<string>, grants: seq<nat>, k: nat)
    requires fee > 0 && Funded(p, fee, budget) && k < |ids| == |grants| && Generated(p.id, ids)
    requires Sum(grants) + fee <= p.allowance && 2 * fee <= p.allowance
    ensures var r := Row(ids[k], grants[k], 0, 0, 0, 0); Solvent(r) && Funded(r, fee, budget)
  {
    var n: nat :| ids[k] == Splits.ChildId(p.id, n);
    ChildIdDepth(p.id, n);
    SumBoundsEach(grants, k);
    FundedChild(p, fee, budget, ids[k], grants[k]);
  }

  lemma {:induction false} GrantKeepsEconomic(
    table: seq<Row>, fee: int, budget: int, parent: string, ids: seq<string>, allocs: seq<int>)
    requires fee > 0 && Economic(table, fee, budget) && |ids| == |allocs| && Generated(parent, ids)
    requires Grantable(table, fee, parent, allocs)
    ensures Economic(AfterGrant(table, fee, parent, ids, allocs), fee, budget)
    ensures Accounted(AfterGrant(table, fee, parent, ids, allocs)) <= Accounted(table)
  {
    var p, grants := table[IndexOf(table, parent)], Grants(allocs, Share(Remaining(table, fee, parent), allocs));
    var charged := Charged(table, fee, parent, Sum(grants));
    assert p in table;
    ChargeKeepsEconomic(table, fee, budget, parent, Sum(grants));
    ChargeMoves(table, fee, parent, Sum(grants));
    OpenedTotals(charged, ids, grants, |ids|);
    assert grants[..|ids|] == grants;
    forall r | r in Opened(charged, ids, grants, |ids|) ensures Solvent(r) && Funded(r, fee, budget) {
      OpenedRow(charged, ids, grants, |ids|, r);
      if r !in charged {
        var k :| 0 <= k < |ids| && r == Row(ids[k], grants[k], 0, 0, 0, 0);
        NewRowIsEconomic(p, fee, budget, ids, grants, k);
      }
    }
  }

  /** An attempt keeps every row solvent and funded and never adds to the accounts, whether its ids are
      new or met before and whether or not the parent has a row. */
  lemma {:induction false} AttemptKeepsEconomic(
    table: seq<Row>, fee: int, budget: int, parent: string, tokens: int, ids: seq<string>, allocs: seq<int>)
    requires fee > 0 && Economic(table, fee, budget) && |ids| == |allocs| && Generated(parent, ids)
    ensures Economic(AfterAttempt(table, fee, parent, tokens, ids, allocs), fee, budget)
    ensures Accounted(AfterAttempt(table, fee, parent, tokens, ids, allocs)) <= Accounted(table)
  {
    DebitKeepsEconomic(table, fee, budget, parent, tokens);
    DebitConserves(table, parent, tokens);
    if Approves(table, fee, parent, allocs) {
      ApprovedIsGrantable(table, fee, budget, parent, tokens, allocs);
      GrantKeepsEconomic(Debited(table, parent, tokens), fee, budget, parent, ids, allocs);
    }
  }

  /** What fees the row of an id holds. */
  function FeesOf(table: seq<Row>, id: string): int {
    if HasRow(table, id) then RowOf(table, id).feePaid else 0
  }

  /** Removing a row takes at least the fees it held out of the accounts. */
  lemma {:induction false} RemovalKeepsEconomic(table: seq<Row>, fee: int, budget: int, id: string)
    requires Economic(table, fee, budget)
    ensures Economic(Dropped(table, id), fee, budget)
    ensures Accounted(Dropped(table, id)) + FeesOf(table, id) <= Accounted(table)
  {
    var i := IndexOf(table, id);
    if i >= 0 {
      AccountedSplice(table, i);
      assert table[i] in table;
    }
  }

  lemma {:induction false} FeesWithinAccounts(table: seq<Row>)
    requires forall r | r in table :: Solvent(r)
    ensures Fees(table) <= Accounted(table)
  {
    if table != [] {
      assert table[|table| - 1] in table;
      FeesWithinAccounts(table[..|table| - 1]);
    }
  }

  lemma {:induction false} ProductMonotone(a: int, b: int, f: int)
    requires a <= b && f > 0
    ensures a * f <= b * f
  {
    assert (b - a) * f >= 0;
  }

  lemma {:induction false} DepthIsFunded(depth: nat, fee: int, budget: int)
    requires fee > 0 && depth * fee <= budget
    ensures depth <= budget / fee
  {
    var q := budget / fee;
    assert budget == q * fee + budget % fee && budget % fee < fee;
    assert (q + 1) * fee == q * fee + fee;
    if depth > q { ProductMonotone(q + 1, depth, fee); }
  }

  /** The fees that went with the rows removed by the first `n` events. */
  ghost function LostFees(tables: seq<seq<Row>>, events: seq<Event>, n: nat): int
    requires n <= |events| < |tables|
    decreases n
  {
    if n == 0 then 0
    else
      LostFees(tables, events, n - 1)
      + if events[n - 1].Remove? then FeesOf(tables[n - 1], events[n - 1].id) else 0
  }

  lemma {:induction false} EventKeepsEconomic(table: seq<Row>, fee: int, budget: int, e: Event)
    requires fee > 0 && Economic(table, fee, budget) && Possible(e) && !e.Forced?
    ensures Economic(After(table, fee, e), fee, budget)
    ensures Accounted(After(table, fee, e)) + (if e.Remove? then FeesOf(table, e.id) else 0) <= Accounted(table)
  {
    match e
    case Call(id, tokens) =>
      DebitKeepsEconomic(table, fee, budget, id, tokens);
      DebitConserves(table, id, tokens);
    case Attempt(parent, tokens, ids, allocs) =>
      AttemptKeepsEconomic(table, fee, budget, parent, tokens, ids, allocs);
    case Remove(id) => RemovalKeepsEconomic(table, fee, budget, id);
  }

  lemma {:induction false} HistoryIsEconomic(
    tables: seq<seq<Row>>, fee: int, events: seq<Event>, budget: int, i: nat)
    requires IsHistory(tables, fee, events, budget) && i < |tables|
    requires fee > 0 && budget >= 0 && forall e | e in events :: !e.Forced?
    ensures Economic(tables[i], fee, budget)
    ensures Accounted(tables[i]) + LostFees(tables, events, i) <= budget
  {
    if i == 0 {
      OpeningTotals(budget);
      assert Depth("root") == 1 by { DashFree("root"); }
    } else {
      HistoryIsEconomic(tables, fee, events, budget, i - 1);
      assert Follows(tables, fee, events, i - 1);
      assert events[i - 1] in events;
      EventKeepsEconomic(tables[i - 1], fee, budget, events[i - 1]);
    }
  }

  lemma {:induction false} FeesUpdate(table: seq<Row>, i: nat, r: Row)
    requires i < |table|
    ensures Fees(table[i := r]) == Fees(table) - table[i].feePaid + r.feePaid
  {
    var t := table[i := r];
    if i < |table| - 1 {
      assert t[..|t| - 1] == table[..|table| - 1][i := r];
      FeesUpdate(table[..|table| - 1], i, r);
    } else {
      assert t[..|t| - 1] == table[..|table| - 1];
    }
  }

  lemma {:induction false} OpenedOnePays(table: seq<Row>, id: string, grant: nat)
    ensures Fees(OpenedOne(table, id, grant)) == Fees(table)
  {
    AccountedSnoc(table, Row(id, grant, 0, 0, 0, 0));
  }

  lemma {:induction false} OpeningPaysNothing(table: seq<Row>, ids: seq<string>, grants: seq<nat>, n: nat)
    requires n <= |ids| == |grants|
    ensures Fees(Opened(table, ids, grants, n)) == Fees(table)
  {
    hide Fees, OpenedOne;
    if n > 0 {
      OpeningPaysNothing(table, ids, grants, n - 1);
      OpenedOnePays(Opened(table, ids, grants, n - 1), ids[n - 1], grants[n - 1]);
    }
  }

  lemma {:induction false} DebitPaysNothing(table: seq<Row>, id: string, tokens: int)
    ensures Fees(Debited(table, id, tokens)) == Fees(table)
    ensures IndexOf(Debited(table, id, tokens), id) == IndexOf(table, id)
  {
    var i := IndexOf(table, id);
    SameIdsSameIndex(table, Debited(table, id, tokens), id);
    if tokens > 0 && i >= 0 {
      FeesUpdate(table, i, table[i].(calls := table[i].calls + tokens, debits := table[i].debits + tokens));
    }
  }

  lemma {:induction false} ChargePaysOneFee(table: seq<Row>, fee: int, parent: string, granted: int)
    requires HasRow(table, parent)
    ensures Fees(Charged(table, fee, parent, granted)) == Fees(table) + fee
  {
    hide Fees;
    var i := IndexOf(table, parent);
    var p := table[i];
    FeesUpdate(table, i, p.(feePaid := p.feePaid + fee, children := p.children + granted, debits := p.debits + fee));
  }

  lemma {:induction false} GrantPaysOneFee(
    table: seq<Row>, fee: int, parent: string, ids: seq<string>, allocs: seq<int>)
    requires |ids| == |allocs| && HasRow(table, parent)
    ensures Fees(AfterGrant(table, fee, parent, ids, allocs)) == Fees(table) + fee
  {
    hide Fees, Charged, Opened, Grants, Share, Sum, HasRow;
    var grants := Grants(allocs, Share(Remaining(table, fee, parent), allocs));
    ChargePaysOneFee(table, fee, parent, Sum(grants));
    OpeningPaysNothing(Charged(table, fee, parent, Sum(grants)), ids, grants, |ids|);
  }

  /** The event is a split that passed the scheduler's check. */
  predicate IsSplit(table: seq<Row>, fee: int, e: Event) {
    e.Attempt? && Approves(table, fee, e.parent, e.allocs)
  }

  /** Each approved split adds one fee to what is, or was, on record; nothing else does. */
  lemma {:induction false} EventPays(table: seq<Row>, fee: int, budget: int, e: Event)
    requires fee > 0 && Economic(table, fee, budget) && Possible(e) && !e.Forced?
    ensures Fees(After(table, fee, e)) + (if e.Remove? then FeesOf(table, e.id) else 0)
         == Fees(table) + if IsSplit(table, fee, e) then fee else 0
  {
    match e
    case Call(id, tokens) => DebitPaysNothing(table, id, tokens);
    case Attempt(parent, tokens, ids, allocs) =>
      DebitPaysNothing(table, parent, tokens);
      if Approves(table, fee, parent, allocs) {
        ApprovedIsGrantable(table, fee, budget, parent, tokens, allocs);
        GrantPaysOneFee(Debited(table, parent, tokens), fee, parent, ids, allocs);
      }
    case Remove(id) =>
      var i := IndexOf(table, id);
      if i >= 0 { AccountedSplice(table, i); }
  }

  /** How many of the first `n` events are approved splits. */
  ghost function SplitCount(tables: seq<seq<Row>>, fee: int, events: seq<Event>, n: nat): nat
    requires n <= |events| < |tables|
    decreases n
  {
    if n == 0 then 0
    else SplitCount(tables, fee, events, n - 1) + if IsSplit(tables[n - 1], fee, events[n - 1]) then 1 else 0
  }

  lemma {:induction false} SplitsArePaid(
    tables: seq<seq<Row>>, fee: int, events: seq<Event>, budget: int, i: nat)
    requires IsHistory(tables, fee, events, budget) && i < |tables|
    requires fee > 0 && budget >= 0 && forall e | e in events :: !e.Forced?
    ensures SplitCount(tables, fee, events, i) * fee == Fees(tables[i]) + LostFees(tables, events, i)
  {
    if i > 0 {
      SplitsArePaid(tables, fee, events, budget, i - 1);
      HistoryIsEconomic(tables, fee, events, budget, i - 1);
      assert Follows(tables, fee, events, i - 1);
      assert events[i - 1] in events;
      EventPays(tables[i - 1], fee, budget, events[i - 1]);
      OneMoreShare(SplitCount(tables, fee, events, i - 1), fee);
    } else {
      OpeningPaid(budget);
    }
  }

  lemma {:induction false} OpeningPaid(budget: int)
    ensures Fees(Opening(budget)) == 0
  {
    assert Opening(budget)[..0] == [];
  }

  /** Economics bound the recursion. Along every history whose splits passed the scheduler's check, rows
      removed and ids reused as they may be: fees and grants never exceed an allowance, all fees together,
      those of removed rows included, fit in the root's budget, there are at most budget / fee splits, and no
      node with a row is deeper than max(1, budget / fee). */
  lemma {:induction false} RecursionIsBounded(
    tables: seq<seq<Row>>, fee: int, events: seq<Event>, budget: int, i: nat)
    requires IsHistory(tables, fee, events, budget) && i < |tables|
    requires fee > 0 && budget >= 0 && forall e | e in events :: !e.Forced?
    ensures Economic(tables[i], fee, budget) && Fees(tables[i]) + LostFees(tables, events, i) <= budget
    ensures forall r | r in tables[i] :: Depth(r.id) <= 1 || Depth(r.id) <= budget / fee
    ensures SplitCount(tables, fee, events, i) <= budget / fee
  {
    HistoryIsEconomic(tables, fee, events, budget, i);
    FeesWithinAccounts(tables[i]);
    SplitsArePaid(tables, fee, events, budget, i);
    DepthIsFunded(SplitCount(tables, fee, events, i), fee, budget);
    forall r | r in tables[i] && Depth(r.id) > 1 ensures Depth(r.id) <= budget / fee {
      DepthIsFunded(Depth(r.id), fee, budget);
    }
  }

  // ---- A child below its parent ----

  function AllowanceOf(table: seq<Row>, id: string): int
    requires HasRow(table, id)
  {
    RowOf(table, id).allowance
  }

  /** No row is left over under the id, or one that already fits below the parent. */
  predicate FitsBelow(table: seq<Row>, fee: int, parent: string, id: string)
    requires HasRow(table, parent)
  {
    HasRow(table, id) ==> AllowanceOf(table, id) + fee <= AllowanceOf(table, parent)
  }

  /** A row, once there, keeps its allowance until it is removed. */
  lemma {:induction false} AllowanceStays(table: seq<Row>, fee: int, e: Event, id: string)
    requires Possible(e) && !e.Remove? && HasRow(table, id)
    ensures HasRow(After(table, fee, e), id) && AllowanceOf(After(table, fee, e), id) == AllowanceOf(table, id)
  {
    match e
    case Call(x, tokens) => SameIdsSameIndex(table, Debited(table, x, tokens), id);
    case Attempt(parent, tokens, ids, allocs) =>
      var debited := Debited(table, parent, tokens);
      SameIdsSameIndex(table, debited, id);
      if Approves(table, fee, parent, allocs) { GrantKeepsAllowance(debited, fee, parent, ids, allocs, id); }
    case Forced(parent, ids, allocs) => GrantKeepsAllowance(table, fee, parent, ids, allocs, id);
  }

  lemma {:induction false} GrantKeepsAllowance(
    table: seq<Row>, fee: int, parent: string, ids: seq<string>, allocs: seq<int>, id: string)
    requires HasRow(table, id) && |ids| == |allocs|
    ensures var after := AfterGrant(table, fee, parent, ids, allocs);
            HasRow(after, id) && AllowanceOf(after, id) == AllowanceOf(table, id)
  {
    var grants := Grants(allocs, Share(Remaining(table, fee, parent), allocs));
    var charged := Charged(table, fee, parent, Sum(grants));
    SameIdsSameIndex(table, charged, id);
    OpenedKeeps(charged, ids, grants, |ids|, id);
  }

  /** A row opened by the grant holds one of the grants. */
  lemma {:induction false} OpenedAllowance(table: seq<Row>, ids: seq<string>, grants: seq<nat>, id: string)
    requires |ids| == |grants| && id in ids && !HasRow(table, id)
    ensures HasRow(Opened(table, ids, grants, |ids|), id)
    ensures 0 <= AllowanceOf(Opened(table, ids, grants, |ids|), id) <= Sum(grants)
  {
    assert ids[..|ids|] == ids;
    OpenedIndex(table, ids, grants, |ids|, id);
    var t := Opened(table, ids, grants, |ids|);
    var r := t[IndexOf(t, id)];
    OpenedRow(table, ids, grants, |ids|, r);
    var k :| 0 <= k < |ids| && r == Row(ids[k], grants[k], 0, 0, 0, 0);
    SumBoundsEach(grants, k);
  }

  lemma {:induction false} GrantFitsBelow(
    table: seq<Row>, fee: int, budget: int, parent: string, ids: seq<string>, allocs: seq<int>, k: nat)
    requires Economic(table, fee, budget) && |ids| == |allocs| && k < |ids| && Grantable(table, fee, parent, allocs)
    ensures HasRow(AfterGrant(table, fee, parent, ids, allocs), ids[k])
    ensures !HasRow(table, ids[k]) ==>
      AllowanceOf(AfterGrant(table, fee, parent, ids, allocs), ids[k]) + fee <= AllowanceOf(table, parent)
  {
    var grants := Grants(allocs, Share(Remaining(table, fee, parent), allocs));
    var charged := Charged(table, fee, parent, Sum(grants));
    assert table[IndexOf(table, parent)] in table;
    SameIdsSameIndex(table, charged, ids[k]);
    if HasRow(table, ids[k]) {
      GrantKeepsAllowance(table, fee, parent, ids, allocs, ids[k]);
    } else {
      OpenedAllowance(charged, ids, grants, ids[k]);
    }
  }

  /** After an approved split a child's allowance is at most its parent's less the fee if and only if no
      row was left over under its id, or one that already fitted. */
  lemma {:induction false} ChildFitsBelow(
    table: seq<Row>, fee: int, budget: int, parent: string, tokens: int, ids: seq<string>, allocs: seq<int>, k: nat)
    requires fee > 0 && Economic(table, fee, budget) && Approves(table, fee, parent, allocs)
    requires |ids| == |allocs| && Generated(parent, ids) && k < |ids|
    ensures var after := AfterAttempt(table, fee, parent, tokens, ids, allocs);
            && HasRow(table, parent) && HasRow(after, parent) && HasRow(after, ids[k])
            && (AllowanceOf(after, ids[k]) + fee <= AllowanceOf(after, parent) <==>
                FitsBelow(table, fee, parent, ids[k]))
  {
    var debited, e := Debited(table, parent, tokens), Attempt(parent, tokens, ids, allocs);
    ApprovedIsGrantable(table, fee, budget, parent, tokens, allocs);
    DebitKeepsEconomic(table, fee, budget, parent, tokens);
    DebitedRow(table, parent, tokens);
    SameIdsSameIndex(table, debited, ids[k]);
    AllowanceStays(table, fee, e, parent);
    GrantFitsBelow(debited, fee, budget, parent, ids, allocs, k);
    if HasRow(table, ids[k]) { AllowanceStays(table, fee, e, ids[k]); }
  }

  /** And so it stays, for every child of every approved split, until a row is removed. */
  lemma {:induction false} ChildrenStayBelow(
    tables: seq<seq<Row>>, fee: int, events: seq<Event>, budget: int, j: nat, k: nat, i: nat)
    requires IsHistory(tables, fee, events, budget) && j < i < |tables|
    requires fee > 0 && budget >= 0 && forall e | e in events :: !e.Forced?
    requires events[j].Attempt? && k < |events[j].ids| && |events[j].ids| == |events[j].allocs|
    requires Approves(tables[j], fee, events[j].parent, events[j].allocs)
    requires HasRow(tables[j], events[j].parent) && FitsBelow(tables[j], fee, events[j].parent, events[j].ids[k])
    requires forall m | j < m < i :: !events[m].Remove?
    ensures var parent, child := events[j].parent, events[j].ids[k];
            && HasRow(tables[i], parent) && HasRow(tables[i], child)
            && AllowanceOf(tables[i], child) + fee <= AllowanceOf(tables[i], parent)
  {
    var parent, child := events[j].parent, events[j].ids[k];
    assert Follows(tables, fee, events, i - 1);
    if i == j + 1 {
      HistoryIsEconomic(tables, fee, events, budget, j);
      ChildFitsBelow(tables[j], fee, budget, parent, events[j].tokens, events[j].ids, events[j].allocs, k);
    } else {
      ChildrenStayBelow(tables, fee, events, budget, j, k, i - 1);
      AllowanceStays(tables[i - 1], fee, events[i - 1], parent);
      AllowanceStays(tables[i - 1], fee, events[i - 1], child);
    }
  }

  // ---- A leftover row that does not fit ----

  const CHILD := "root-01"
  const GRANDCHILD := "root-01-01"

  // Root grants its child 500, which grants its own child 400; the child is replanned away, its child's row
  // stays; a poorer child under the same id splits again and meets it.
  const OLD_ROW := Row(GRANDCHILD, 400, 0, 0, 0, 0)
  const TABLE0 := Opening(1000)
  const TABLE1 := [Row("root", 1000, 0, 10, 10, 500), Row(CHILD, 500, 0, 0, 0, 0)]
  const TABLE2 := [Row("root", 1000, 0, 10, 10, 500), Row(CHILD, 500, 0, 10, 10, 400), OLD_ROW]
  const TABLE3 := [Row("root", 1000, 0, 10, 10, 500), OLD_ROW]
  const TABLE4 := [Row("root", 1000, 0, 20, 20, 600), OLD_ROW, Row(CHILD, 100, 0, 0, 0, 0)]
  const TABLE5 := [Row("root", 1000, 0, 20, 20, 600), OLD_ROW, Row(CHILD, 100, 0, 10, 10, 50)]

  lemma {:induction false} OneRequest(a: nat)
    requires a > 0
    ensures ExplicitTotal([a]) == a && Unallocated([a]) == 0
    ensures forall share: nat :: Grants([a], share) == [a]
    ensures Sum([a]) == a
  {
    assert [a][..0] == [];
  }

  /** One explicit request, asked without a call's cost. */
  lemma {:induction false} OneGrant(table: seq<Row>, fee: int, parent: string, id: string, a: nat)
    requires a > 0 && fee + a <= Remaining(table, fee, parent)
    ensures Approves(table, fee, parent, [a])
    ensures AfterAttempt(table, fee, parent, 0, [id], [a]) == OpenedOne(Charged(table, fee, parent, a), id, a)
  {
    OneRequest(a);
    var charged := Charged(table, fee, parent, a);
    assert Opened(charged, [id], [a], 1) == OpenedOne(Opened(charged, [id], [a], 0), id, a);
  }

  lemma {:induction false} IndexByRow(table: seq<Row>, i: nat)
    requires i < |table| && forall k | i < k < |table| :: table[k].id != table[i].id
    ensures IndexOf(table, table[i].id) == i
  {
    if i < |table| - 1 { IndexByRow(table[..|table| - 1], i); }
  }

  lemma {:induction false} GeneratedOnes()
    ensures Splits.ChildId("root", 1) == CHILD && Splits.ChildId(CHILD, 1) == GRANDCHILD
    ensures Generated("root", [CHILD]) && Generated(CHILD, [GRANDCHILD])
  {
    assert Decimal(1) == "1" && Pad2(1) == "01";
    assert Splits.ChildId("root", 1) == CHILD;
    assert Splits.ChildId(CHILD, 1) == GRANDCHILD;
  }

  /** One approved request of a row at a known place, under an id with or without a row. */
  lemma {:induction false} SplitStep(table: seq<Row>, i: nat, fee: int, id: string, a: nat, after: seq<Row>)
    requires i < |table| && IndexOf(table, table[i].id) == i && a > 0 && fee + a <= table[i].Unspent() - fee
    requires var p := table[i];
             var paid := table[i := Row(p.id, p.allowance, p.calls, p.debits + fee, p.feePaid + fee, p.children + a)];
             after == if HasRow(table, id) then paid else paid + [Row(id, a, 0, 0, 0, 0)]
    ensures Approves(table, fee, table[i].id, [a])
    ensures AfterAttempt(table, fee, table[i].id, 0, [id], [a]) == after
  {
    hide ExplicitTotal, Unallocated, Grants, Sum, Opened;
    OneGrant(table, fee, table[i].id, id, a);
    SameIdsSameIndex(table, Charged(table, fee, table[i].id, a), id);
  }

  lemma {:induction false} FirstSplits()
    ensures AfterAttempt(TABLE0, 10, "root", 0, [CHILD], [500]) == TABLE1
    ensures AfterAttempt(TABLE1, 10, CHILD, 0, [GRANDCHILD], [400]) == TABLE2
  {
    IndexByRow(TABLE0, 0);
    SplitStep(TABLE0, 0, 10, CHILD, 500, TABLE1);
    IndexByRow(TABLE1, 1);
    SplitStep(TABLE1, 1, 10, GRANDCHILD, 400, TABLE2);
  }

  lemma {:induction false} Replanned()
    ensures Dropped(TABLE2, CHILD) == TABLE3
  {
    IndexByRow(TABLE2, 1);
  }

  lemma {:induction false} SecondSplits()
    ensures AfterAttempt(TABLE3, 10, "root", 0, [CHILD], [100]) == TABLE4
    ensures Approves(TABLE4, 10, CHILD, [50]) && AfterAttempt(TABLE4, 10, CHILD, 0, [GRANDCHILD], [50]) == TABLE5
  {
    IndexByRow(TABLE3, 0);
    SplitStep(TABLE3, 0, 10, CHILD, 100, TABLE4);
    IndexByRow(TABLE4, 2);
    IndexByRow(TABLE4, 1);
    SplitStep(TABLE4, 2, 10, GRANDCHILD, 50, TABLE5);
  }

  lemma {:induction false} Continues(
    tables: seq<seq<Row>>, fee: int, events: seq<Event>, budget: int, e: Event, next: seq<Row>)
    requires IsHistory(tables, fee, events, budget) && Possible(e) && next == After(tables[|events|], fee, e)
    ensures IsHistory(tables + [next], fee, events + [e], budget)
  {
    var t, es := tables + [next], events + [e];
    forall i | 0 <= i < |es| ensures Follows(t, fee, es, i) {
      assert i < |events| ==> Follows(tables, fee, events, i);
    }
  }

  /** A history from a budget of 1000 with a fee of 10, every split checked, that ends in `last`. */
  ghost predicate Reaches(tables: seq<seq<Row>>, events: seq<Event>, last: seq<Row>) {
    IsHistory(tables, 10, events, 1000) && (forall e | e in events :: !e.Forced?) && tables[|events|] == last
  }

  lemma {:induction false} Extend(tables: seq<seq<Row>>, events: seq<Event>, e: Event, last: seq<Row>, next: seq<Row>)
    returns (t: seq<seq<Row>>, es: seq<Event>)
    requires Reaches(tables, events, last) && Possible(e) && !e.Forced? && next == After(last, 10, e)
    ensures Reaches(t, es, next) && es == events + [e] && t[|events|] == last
  {
    Continues(tables, 10, events, 1000, e, next);
    t, es := tables + [next], events + [e];
  }

  lemma {:induction false} AttemptTo(
    tables: seq<seq<Row>>, events: seq<Event>, last: seq<Row>, parent: string, id: string, a: nat, next: seq<Row>)
    returns (t: seq<seq<Row>>, es: seq<Event>)
    requires Reaches(tables, events, last) && Generated(parent, [id])
    requires next == AfterAttempt(last, 10, parent, 0, [id], [a])
    ensures Reaches(t, es, next) && es == events + [Attempt(parent, 0, [id], [a])] && t[|events|] == last
  {
    t, es := Extend(tables, events, Attempt(parent, 0, [id], [a]), last, next);
  }

  /** A history of approved splits and one removal that ends in the two tables below. */
  lemma {:induction false} LeftoverIsReached() returns (tables: seq<seq<Row>>, events: seq<Event>, n: nat)
    ensures Reaches(tables, events, TABLE5) && |events| == n + 1
    ensures tables[n] == TABLE4 && events[n] == Attempt(CHILD, 0, [GRANDCHILD], [50])
  {
    GeneratedOnes();
    FirstSplits();
    Replanned();
    SecondSplits();
    tables, events := AttemptTo([TABLE0], [], TABLE0, "root", CHILD, 500, TABLE1);
    tables, events := AttemptTo(tables, events, TABLE1, CHILD, GRANDCHILD, 400, TABLE2);
    tables, events := Extend(tables, events, Remove(CHILD), TABLE2, TABLE3);
    tables, events := AttemptTo(tables, events, TABLE3, "root", CHILD, 100, TABLE4);
    n := |events|;
    tables, events := AttemptTo(tables, events, TABLE4, CHILD, GRANDCHILD, 50, TABLE5);
  }

  lemma {:induction false} AllowanceAt(table: seq<Row>, i: nat)
    requires i < |table| && forall k | i < k < |table| :: table[k].id != table[i].id
    ensures HasRow(table, table[i].id) && AllowanceOf(table, table[i].id) == table[i].allowance
  {
    IndexByRow(table, i);
  }

  /** The condition of `ChildFitsBelow` is needed: the last split of that history is approved, and yet its
      child ends with an allowance of 400 below a parent with 100. */
  lemma {:induction false} LeftoverOutgrowsParent()
    ensures Approves(TABLE4, 10, CHILD, [50]) && !FitsBelow(TABLE4, 10, CHILD, GRANDCHILD)
    ensures HasRow(TABLE5, GRANDCHILD) && AllowanceOf(TABLE5, GRANDCHILD) == 400
    ensures HasRow(TABLE5, CHILD) && AllowanceOf(TABLE5, CHILD) == 100
  {
    hide IndexOf, Approves, RowOf;
    SecondSplits();
    AllowanceAt(TABLE4, 1);
    AllowanceAt(TABLE4, 2);
    AllowanceAt(TABLE5, 1);
    AllowanceAt(TABLE5, 2);
  }
}

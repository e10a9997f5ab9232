/** Upward escalation (src/scheduler.rs): a node that finds an inherited assumption false suspends
    its branch up to the ancestor that owns the assumption, which then rules on it. */
module Escalation {
  import opened Text
  import opened Nodes
  import opened Selection
  import opened Runs

  // ---- The way up ----

  function DepthOf(nodes: seq<Node>, cursor: Option<string>): nat {
    if cursor.Some? && Find(nodes, cursor.value).Some? then Find(nodes, cursor.value).value.depth + 1 else 0
  }

  lemma {:induction false} ParentIsHigher(nodes: seq<Node>, n: Node)
    requires Tree(nodes) && n in nodes
    ensures DepthOf(nodes, n.parent) < DepthOf(nodes, Some(n.id))
    ensures n.parent.Some? ==> Find(nodes, n.parent.value).Some?
  {
    FindMember(nodes, n);
    var i :| 0 <= i < |nodes| && nodes[i] == n;
    if i > 0 {
      assert ParentInTree(nodes, nodes[i]);
      var p :| p in nodes && p.id == n.parent.value && n.depth == p.depth + 1;
      FindMember(nodes, p);
    }
  }

  /** The node ids from `cursor` to the root, nearest first. */
  function Line(nodes: seq<Node>, cursor: Option<string>): (ids: seq<string>)
    requires Tree(nodes)
    ensures |ids| <= DepthOf(nodes, cursor)
    ensures forall k | 0 <= k < |ids| :: Find(nodes, ids[k]).Some?
    decreases DepthOf(nodes, cursor)
  {
    if cursor.None? || Find(nodes, cursor.value).None? then []
    else
      var n := Find(nodes, cursor.value).value;
      ParentIsHigher(nodes, n);
      [n.id] + Line(nodes, n.parent)
  }

  function Ancestors(nodes: seq<Node>, n: Node): seq<string>
    requires Tree(nodes)
  {
    Line(nodes, n.parent)
  }

  /** Depth falls along the line, so no id occurs on it twice. */
  lemma {:induction false} LineFalls(nodes: seq<Node>, cursor: Option<string>, k: nat)
    requires Tree(nodes) && k < |Line(nodes, cursor)|
    ensures Find(nodes, Line(nodes, cursor)[k]).value.depth < DepthOf(nodes, cursor)
    ensures k > 0 ==> Find(nodes, Line(nodes, cursor)[k]).value.depth + 1 < DepthOf(nodes, cursor)
    decreases k
  {
    var n := Find(nodes, cursor.value).value;
    ParentIsHigher(nodes, n);
    if k > 0 { LineFalls(nodes, n.parent, k - 1); }
  }

  /** The first position of `owner`, or the length. */
  function Position(ids: seq<string>, owner: string): (k: nat)
    ensures k <= |ids| && (k < |ids| ==> ids[k] == owner)
    ensures forall j | 0 <= j < k :: ids[j] != owner
  {
    if ids == [] || ids[0] == owner then 0 else 1 + Position(ids[1..], owner)
  }

  function Firsts(ids: seq<string>, k: nat): set<string>
    requires k <= |ids|
  {
    set i | 0 <= i < k :: ids[i]
  }

  /** The ids on a line strictly below the owner. */
  function Below(ids: seq<string>, owner: string): set<string> { Firsts(ids, Position(ids, owner)) }

  lemma {:induction false} FirstsGrow(ids: seq<string>, k: nat)
    requires k < |ids|
    ensures Firsts(ids, k + 1) == Firsts(ids, k) + {ids[k]}
  {
  }

  // ---- The escalation point ----

  predicate Holds(constraints: map<string, seq<string>>, id: string, assumption: string) {
    id in constraints && exists k | 0 <= k < |constraints[id]| :: Trim(constraints[id][k]) == Trim(assumption)
  }

  /** The nearest ancestor that holds the assumption; the parent when none does. */
  ghost predicate Owns(
    nodes: seq<Node>, constraints: map<string, seq<string>>, n: Node, assumption: string, owner: string)
    requires Tree(nodes)
  {
    var up := Ancestors(nodes, n);
    exists k | 0 <= k < |up| ::
      && up[k] == owner
      && (forall j | 0 <= j < k :: !Holds(constraints, up[j], assumption))
      && (Holds(constraints, up[k], assumption)
          || (k == 0 && forall j | 0 <= j < |up| :: !Holds(constraints, up[j], assumption)))
  }

  /** One of the constraints written down for the node is the assumption, up to the space around them. */
  ghost predicate WritesDown(constraints: map<string, seq<string>>, id: string, assumption: string) {
    id in constraints && exists c :: c in constraints[id] && Trim(c) == Trim(assumption)
  }

  /** The owner is the first ancestor on the way up that has the assumption written down; if none has, it is
      the parent. */
  lemma {:induction false} OwnsMeans(
    nodes: seq<Node>, constraints: map<string, seq<string>>, n: Node, assumption: string, owner: string)
    requires Tree(nodes) && n in nodes
    ensures var up := Ancestors(nodes, n);
      Owns(nodes, constraints, n, assumption, owner) <==>
        if forall a | a in up :: !WritesDown(constraints, a, assumption) then n.parent == Some(owner)
        else exists k | 0 <= k < |up| :: up[k] == owner && WritesDown(constraints, owner, assumption)
               && forall a | a in up[..k] :: !WritesDown(constraints, a, assumption)
  {
    var up := Ancestors(nodes, n);
    forall a ensures Holds(constraints, a, assumption) <==> WritesDown(constraints, a, assumption) {
      if WritesDown(constraints, a, assumption) {
        var c :| c in constraints[a] && Trim(c) == Trim(assumption);
        var k :| 0 <= k < |constraints[a]| && constraints[a][k] == c;
      }
    }
    ParentIsHigher(nodes, n);
    assert n.parent.Some? <==> up != [];
    assert up != [] ==> n.parent == Some(up[0]);
    hide Holds, WritesDown, Ancestors, Tree;
    OwnerOnLine(up, constraints, assumption, owner);
  }

  lemma {:induction false} OwnerOnLine(
    up: seq<string>, constraints: map<string, seq<string>>, assumption: string, owner: string)
    requires forall a :: Holds(constraints, a, assumption) <==> WritesDown(constraints, a, assumption)
    ensures (exists k | 0 <= k < |up| ::
      && up[k] == owner
      && (forall j | 0 <= j < k :: !Holds(constraints, up[j], assumption))
      && (Holds(constraints, up[k], assumption)
          || (k == 0 && forall j | 0 <= j < |up| :: !Holds(constraints, up[j], assumption)))) <==>
      if forall a | a in up :: !WritesDown(constraints, a, assumption) then up != [] && up[0] == owner
      else exists k | 0 <= k < |up| :: up[k] == owner && WritesDown(constraints, owner, assumption)
             && forall a | a in up[..k] :: !WritesDown(constraints, a, assumption)
  {
    hide Holds, WritesDown;
    forall k: nat | k <= |up|
      ensures (forall j | 0 <= j < k :: !Holds(constraints, up[j], assumption)) <==>
        forall a | a in up[..k] :: !WritesDown(constraints, a, assumption)
    {
      assert forall j | 0 <= j < k :: up[j] == up[..k][j] && up[j] in up[..k];
    }
    assert up[..|up|] == up;
  }

  lemma {:induction false} LineStep(nodes: seq<Node>, chain: seq<string>, cursor: Option<string>)
    requires Tree(nodes) && cursor.Some? && Find(nodes, cursor.value).Some?
    ensures var parent := Find(nodes, cursor.value).value;
            && DepthOf(nodes, parent.parent) < DepthOf(nodes, cursor)
            && chain + Line(nodes, cursor) == (chain + [parent.id]) + Line(nodes, parent.parent)
  {
    ParentIsHigher(nodes, Find(nodes, cursor.value).value);
  }

  /** What the walk up has done when it stands at the `i`-th id of its line. */
  ghost predicate Walked(was: seq<Node>, ids: seq<string>, i: nat, s: Status, nodes: seq<Node>, current: Option<Node>)
    requires Tree(was)
  {
    && i <= |ids|
    && nodes == Marked(was, Firsts(ids, i), s)
    && if current.None? then i == |ids|
       else
         && Find(was, current.value.id).Some?
         && current.value.parent == Find(was, current.value.id).value.parent
         && Line(was, Some(current.value.id)) == ids[i..]
  }

  /** The node a store lookup gives. */
  function Lookup(nodes: seq<Node>, id: Option<string>): Option<Node> {
    if id.Some? then Find(nodes, id.value) else None
  }

  lemma {:induction false} LookedUp(
    was: seq<Node>, ids: seq<string>, i: nat, s: Status, nodes: seq<Node>, id: Option<string>)
    requires Tree(was) && i <= |ids| && nodes == Marked(was, Firsts(ids, i), s) && Line(was, id) == ids[i..]
    ensures Walked(was, ids, i, s, nodes, Lookup(nodes, id))
  {
    if id.Some? { MarkedFind(was, Firsts(ids, i), s, id.value); }
  }

  /** Nothing before the walker is the owner; when the walker stops, everything below it is marked. */
  lemma {:induction false} WalkStands(
    was: seq<Node>, ids: seq<string>, i: nat, s: Status, nodes: seq<Node>, current: Option<Node>, owner: string)
    requires Tree(was) && Walked(was, ids, i, s, nodes, current) && i <= Position(ids, owner)
    ensures if current.Some? && current.value.id != owner then i < |ids| && i + 1 <= Position(ids, owner)
            else nodes == Marked(was, Below(ids, owner), s)
  {
    if current.Some? { assert ids[i] == ids[i..][0] == current.value.id; }
  }

  lemma {:induction false} WalkStep(was: seq<Node>, ids: seq<string>, i: nat, s: Status, nodes: seq<Node>, n: Node)
    requires Tree(was) && Walked(was, ids, i, s, nodes, Some(n))
    ensures i < |ids| && ids[i] == n.id
    ensures var next := Marked(nodes, {n.id}, s); Walked(was, ids, i + 1, s, next, Lookup(next, n.parent))
  {
    var m := Find(was, n.id).value;
    assert ids[i] == ids[i..][0] == n.id && ids[i + 1..] == ids[i..][1..] == Line(was, m.parent);
    MarkTwice(was, Firsts(ids, i), {n.id}, s);
    FirstsGrow(ids, i);
    LookedUp(was, ids, i + 1, s, Marked(nodes, {n.id}, s), n.parent);
  }

  class Store {
    var nodes: seq<Node>

    /** `set_status`. */
    method SetStatus(id: string, s: Status)
      modifies this
      ensures nodes == Marked(old(nodes), {id}, s)
    {
      nodes := Marked(nodes, {id}, s);
    }

    /** The ancestors, nearest first. */
    method CollectChain(n: Node) returns (chain: seq<string>)
      requires Tree(nodes) && n in nodes
      ensures chain == Ancestors(nodes, n)
    {
      ghost var was := nodes;
      chain := [];
      var cursor := n.parent;
      while cursor.Some? && Find(nodes, cursor.value).Some?
        invariant chain + Line(was, cursor) == Ancestors(was, n)
        decreases DepthOf(was, cursor)
      {
        var parent := Find(nodes, cursor.value).value;
        LineStep(was, chain, cursor);
        chain := chain + [parent.id];
        cursor := parent.parent;
      }
    }

    /** `find_escalation_point`: collect the chain, then search it. */
    method FindEscalationPoint(
      constraints: map<string, seq<string>>, n: Node, assumption: string)
      returns (owner: Option<string>)
      requires Tree(nodes) && n in nodes
      ensures owner.Some? <==> n.parent.Some?
      ensures owner.Some? ==> Owns(nodes, constraints, n, assumption, owner.value)
    {
      hide Tree, Holds;
      ParentIsHigher(nodes, n);
      var chain := CollectChain(n);
      for k := 0 to |chain|
        invariant forall j | 0 <= j < k :: !Holds(constraints, chain[j], assumption)
      {
        if Holds(constraints, chain[k], assumption) {
          return Some(chain[k]);
        }
      }
      owner := if chain == [] then None else Some(chain[0]);
    }

    /** The walk both loops make: every node from `start` up to, not including, the owner. */
    method MarkBelow(start: Option<string>, owner: string, s: Status)
      requires Tree(nodes)
      modifies this
      ensures nodes == Marked(old(nodes), Below(Line(old(nodes), start), owner), s)
    {
      ghost var was, ids, i := nodes, Line(nodes, start), 0;
      var current := Lookup(nodes, start);
      MarkNone(was, s);
      LookedUp(was, ids, 0, s, nodes, start);
      WalkStands(was, ids, 0, s, nodes, current, owner);
      while current.Some? && current.value.id != owner
        invariant i <= Position(ids, owner) && Walked(was, ids, i, s, nodes, current)
        invariant if current.Some? && current.value.id != owner then i < |ids| && i + 1 <= Position(ids, owner)
                  else nodes == Marked(was, Below(ids, owner), s)
        decreases |ids| - i
      {
        var n := current.value;
        WalkStep(was, ids, i, s, nodes, n);
        SetStatus(n.id, s);
        current := Lookup(nodes, n.parent);
        i := i + 1;
        WalkStands(was, ids, i, s, nodes, current, owner);
      }
    }

    /** `suspend_branch`. */
    method SuspendBranch(n: Node, owner: string)
      requires Tree(nodes) && n in nodes
      modifies this
      ensures nodes == Marked(old(nodes), Below(Line(old(nodes), Some(n.id)), owner), Suspended)
    {
      MarkBelow(Some(n.id), owner, Suspended);
    }

    /** `resume_ancestors`. */
    method ResumeAncestors(n: Node, owner: string)
      requires Tree(nodes) && n in nodes
      modifies this
      ensures nodes == Marked(old(nodes), Below(Ancestors(old(nodes), n), owner), Split)
    {
      MarkBelow(n.parent, owner, Split);
    }

    /** `replan_branch`: delete the children and what lies below them, return the parent to pending. */
    method ReplanBranch(parent: string)
      modifies this
      ensures nodes == Marked(WithoutBelow(old(nodes), parent), {parent}, Pending)
    {
      nodes := WithoutBelow(nodes, parent);
      SetStatus(parent, Pending);
    }

    /** The whole escalation of a running node. `ruling` is the owner's answer. `during` is what the
        scheduler sees while the owner deliberates. */
    method Escalate(constraints: map<string, seq<string>>, n: Node, assumption: string, ruling: Ruling)
      returns (owner: Option<string>, during: seq<Node>)
      requires Tree(nodes) && n in nodes
      modifies this
      ensures owner.None? <==> n.parent.None?
      ensures owner.None? ==> nodes == Marked(old(nodes), {n.id}, Failed)
      ensures owner.Some? ==>
        && Owns(old(nodes), constraints, n, assumption, owner.value)
        && during == Deliberating(old(nodes), n, owner.value)
        && nodes == Settled(old(nodes), n, owner.value, ruling)
    {
      owner := FindEscalationPoint(constraints, n, assumption);
      during := nodes;
      if owner.None? {
        SetStatus(n.id, Failed);
        return;
      }
      SuspendBranch(n, owner.value);
      SetStatus(owner.value, Running);
      during := nodes;
      SetStatus(owner.value, Split);
      Settle(old(nodes), n, owner.value, ruling);
    }

    /** What the ruling does to the suspended branch. */
    method Settle(ghost was: seq<Node>, n: Node, owner: string, ruling: Ruling)
      requires Tree(was) && n in was && n.parent.Some? && nodes == Ruled(was, n, owner)
      modifies this
      ensures nodes == Settled(was, n, owner, ruling)
    {
      match ruling
      case ReplanAgreed =>
        ReplanBranch(n.parent.value);
      case Unusable =>
        SetStatus(n.id, Failed);
      case DependsOn =>
        Resume(was, n, owner);
        SetStatus(n.id, Pending);
      case _ =>
        Resume(was, n, owner);
        SetStatus(n.id, Running);
    }

    /** Resuming from the suspended state finds the same line of ancestors. */
    method Resume(ghost was: seq<Node>, n: Node, owner: string)
      requires Tree(was) && n in was && nodes == Ruled(was, n, owner)
      modifies this
      ensures nodes == Marked(old(nodes), Below(Ancestors(was, n), owner), Split)
    {
      MarkedStaysTree(was, n, owner);
      SameLine(was, nodes, n.parent);
      MarkBelow(n.parent, owner, Split);
    }
  }

  lemma {:induction false} MarkNone(nodes: seq<Node>, s: Status)
    ensures Marked(nodes, {}, s) == nodes
  {
  }

  lemma {:induction false} MarkTwice(nodes: seq<Node>, a: set<string>, b: set<string>, s: Status)
    ensures Marked(Marked(nodes, a, s), b, s) == Marked(nodes, a + b, s)
  {
  }

  // ---- The protocol on values ----

  /** The owner's answer. A replan needs the parent to agree; anything that is no usable ruling,
      an error of the run included, fails the node. */
  datatype Ruling = Amend | Overrule | DependsOn | ReplanRefused | ReplanAgreed | Unusable

  ghost function Deliberating(nodes: seq<Node>, n: Node, owner: string): seq<Node>
    requires Tree(nodes)
  {
    Marked(Marked(nodes, Below(Line(nodes, Some(n.id)), owner), Suspended), {owner}, Running)
  }

  ghost function Ruled(nodes: seq<Node>, n: Node, owner: string): seq<Node>
    requires Tree(nodes)
  {
    Marked(Deliberating(nodes, n, owner), {owner}, Split)
  }

  ghost function Settled(nodes: seq<Node>, n: Node, owner: string, ruling: Ruling): seq<Node>
    requires Tree(nodes) && n.parent.Some?
  {
    var ruled := Ruled(nodes, n, owner);
    var resumed := Marked(ruled, Below(Ancestors(nodes, n), owner), Split);
    match ruling
    case ReplanAgreed => Marked(WithoutBelow(ruled, n.parent.value), {n.parent.value}, Pending)
    case Unusable => Marked(ruled, {n.id}, Failed)
    case DependsOn => Marked(resumed, {n.id}, Pending)
    case _ => Marked(resumed, {n.id}, Running)
  }

  lemma {:induction false} MarkedStaysTree(nodes: seq<Node>, n: Node, owner: string)
    requires Tree(nodes)
    ensures Restated(nodes, Ruled(nodes, n, owner)) && Tree(Ruled(nodes, n, owner))
  {
    RestatedTree(nodes, Ruled(nodes, n, owner));
  }

  lemma {:induction false} RestatedFind(nodes: seq<Node>, nodes': seq<Node>, id: string)
    requires Restated(nodes, nodes')
    ensures Find(nodes, id).Some? <==> Find(nodes', id).Some?
    ensures Find(nodes, id).Some? ==> SameShape(Find(nodes, id).value, Find(nodes', id).value)
  {
    if nodes != [] {
      assert SameShape(nodes[|nodes| - 1], nodes'[|nodes| - 1]);
      RestatedFind(nodes[..|nodes| - 1], nodes'[..|nodes| - 1], id);
    }
  }

  /** Statuses do not matter to the way up. */
  lemma {:induction false} SameLine(nodes: seq<Node>, nodes': seq<Node>, cursor: Option<string>)
    requires Restated(nodes, nodes') && Tree(nodes) && Tree(nodes')
    ensures Line(nodes, cursor) == Line(nodes', cursor)
    decreases DepthOf(nodes, cursor)
  {
    if cursor.Some? {
      RestatedFind(nodes, nodes', cursor.value);
      if Find(nodes, cursor.value).Some? {
        var n := Find(nodes, cursor.value).value;
        ParentIsHigher(nodes, n);
        SameLine(nodes, nodes', n.parent);
      }
    }
  }

  lemma {:induction false} BelowCons(x: string, up: seq<string>, owner: string)
    requires owner in up && owner != x
    ensures Below([x] + up, owner) == {x} + Below(up, owner)
  {
    var all := [x] + up;
    assert all[1..] == up;
    assert Position(all, owner) == 1 + Position(up, owner);
    forall id | id in Below(up, owner) ensures id in Below(all, owner) {
      var k :| 0 <= k < Position(up, owner) && up[k] == id;
      assert all[k + 1] == id;
    }
    assert all[0] == x;
  }

  lemma {:induction false} NotOwnAncestor(nodes: seq<Node>, n: Node)
    requires Tree(nodes) && n in nodes
    ensures n.id !in Ancestors(nodes, n)
  {
    hide Tree;
    forall k | 0 <= k < |Ancestors(nodes, n)| ensures Ancestors(nodes, n)[k] != n.id {
      LineFalls(nodes, n.parent, k);
      ParentIsHigher(nodes, n);
    }
  }

  lemma {:induction false} OwnerNotBelow(up: seq<string>, owner: string, x: string)
    requires owner in up && x !in up
    ensures owner !in Below(up, owner) && x !in Below(up, owner)
  {
  }

  /** The suspended branch: the node and the ancestors strictly below the owner. */
  lemma {:induction false} BranchOf(nodes: seq<Node>, n: Node, owner: string)
    requires Tree(nodes) && n in nodes && owner in Ancestors(nodes, n)
    ensures Below(Line(nodes, Some(n.id)), owner) == {n.id} + Below(Ancestors(nodes, n), owner)
    ensures owner != n.id && owner !in Below(Ancestors(nodes, n), owner)
    ensures n.id !in Below(Ancestors(nodes, n), owner)
  {
    FindMember(nodes, n);
    hide Below, Tree;
    NotOwnAncestor(nodes, n);
    OwnerNotBelow(Ancestors(nodes, n), owner, n.id);
    BelowCons(n.id, Ancestors(nodes, n), owner);
  }

  ghost predicate StatusOf(nodes: seq<Node>, ids: set<string>, s: Status) {
    forall i | 0 <= i < |nodes| && nodes[i].id in ids :: nodes[i].status == s
  }

  /** When an escalation starts: the node runs, and every ancestor up to the owner has split. */
  ghost predicate Escalating(nodes: seq<Node>, n: Node, owner: string) {
    && Tree(nodes) && n in nodes && owner in Ancestors(nodes, n)
    && StatusOf(nodes, {n.id}, Running)
    && StatusOf(nodes, Below(Ancestors(nodes, n), owner) + {owner}, Split)
  }

  /** While the owner deliberates, the node and the ancestors strictly below the owner are suspended, the
      owner runs, and nobody else has moved; none of the suspended can be selected, whatever is stale among
      the complete. */
  lemma {:induction false} BranchIsHeld(nodes: seq<Node>, n: Node, owner: string, stale: set<string>, m: Node)
    requires Escalating(nodes, n, owner) && m in Deliberating(nodes, n, owner)
    requires forall k | k in Deliberating(nodes, n, owner) && k.id in stale :: k.status == Complete
    ensures var branch := {n.id} + Below(Ancestors(nodes, n), owner);
            && (m.status == Suspended <==> m.id in branch || (m in nodes && m.status == Suspended))
            && (m.id !in branch && m.id != owner ==> m in nodes)
    ensures m.id == owner ==> m.status == Running
    ensures m.status == Suspended ==> m !in NextNodes(Deliberating(nodes, n, owner), stale)
  {
    BranchOf(nodes, n, owner);
    var held := Deliberating(nodes, n, owner);
    var i :| 0 <= i < |held| && held[i] == m;
    assert nodes[i] in nodes;
    if m in NextNodes(held, stale) { OnlyLiveNodesAreSelected(held, stale, m); }
  }

  /** Main result: a ruling that lets the node go on leaves no trace at all; `depends_on` only returns
      the node to pending. */
  lemma {:induction false} RulingLeavesNoTrace(nodes: seq<Node>, n: Node, owner: string, ruling: Ruling)
    requires Escalating(nodes, n, owner)
    ensures ruling in {Amend, Overrule, ReplanRefused} ==> Settled(nodes, n, owner, ruling) == nodes
    ensures ruling == DependsOn ==> Settled(nodes, n, owner, ruling) == Marked(nodes, {n.id}, Pending)
  {
    hide Below, Ancestors, Deliberating, Ruled, Tree, Marked, Find;
    var up := Below(Ancestors(nodes, n), owner);
    RuledIs(nodes, n, owner, up, Ruled(nodes, n, owner));
    BranchOf(nodes, n, owner);
    StatusOfPart(nodes, up, {owner}, Split);
    MarksReturn(nodes, n.id, up);
  }

  lemma {:induction false} StatusOfPart(nodes: seq<Node>, a: set<string>, b: set<string>, s: Status)
    requires StatusOf(nodes, a + b, s)
    ensures StatusOf(nodes, a, s)
  {
  }

  /** Suspending a node and others, then putting all back. */
  lemma {:induction false} MarksReturn(nodes: seq<Node>, x: string, a: set<string>)
    requires StatusOf(nodes, {x}, Running) && StatusOf(nodes, a, Split) && x !in a
    ensures var resumed := Marked(Marked(nodes, {x} + a, Suspended), a, Split);
      Marked(resumed, {x}, Running) == nodes && Marked(resumed, {x}, Pending) == Marked(nodes, {x}, Pending)
  {
  }

  ghost function Stranded(nodes: seq<Node>, n: Node, owner: string): seq<Node>
    requires Tree(nodes)
  {
    Marked(Marked(nodes, Below(Ancestors(nodes, n), owner), Suspended), {n.id}, Failed)
  }

  lemma {:induction false} MarksCancel(nodes: seq<Node>, x: string, a: set<string>, owner: string)
    requires owner != x && owner !in a && StatusOf(nodes, {owner}, Split)
    ensures Marked(Marked(Marked(nodes, {x} + a, Suspended), {owner}, Running), {owner}, Split) ==
      Marked(nodes, {x} + a, Suspended)
    ensures Marked(Marked(nodes, {x} + a, Suspended), {x}, Failed) == Marked(Marked(nodes, a, Suspended), {x}, Failed)
  {
  }

  lemma {:induction false} UnusableStrands(nodes: seq<Node>, n: Node, owner: string)
    requires Escalating(nodes, n, owner) && n.parent.Some?
    ensures Settled(nodes, n, owner, Unusable) == Stranded(nodes, n, owner)
  {
    var a, ruled := Below(Ancestors(nodes, n), owner), Ruled(nodes, n, owner);
    RuledIs(nodes, n, owner, a, ruled);
    MarksCancel(nodes, n.id, a, owner);
    UnusableIs(nodes, n, owner, ruled);
  }

  lemma {:induction false} UnusableIs(nodes: seq<Node>, n: Node, owner: string, ruled: seq<Node>)
    requires Tree(nodes) && n.parent.Some? && ruled == Ruled(nodes, n, owner)
    ensures Settled(nodes, n, owner, Unusable) == Marked(ruled, {n.id}, Failed)
  {
  }

  lemma {:induction false} RuledIs(nodes: seq<Node>, n: Node, owner: string, a: set<string>, ruled: seq<Node>)
    requires Escalating(nodes, n, owner) && ruled == Ruled(nodes, n, owner) && a == Below(Ancestors(nodes, n), owner)
    ensures ruled == Marked(nodes, {n.id} + a, Suspended) && owner != n.id && owner !in a
  {
    BranchOf(nodes, n, owner);
    MarksCancel(nodes, n.id, a, owner);
  }

  lemma {:induction false} ParentFirst(nodes: seq<Node>, n: Node)
    requires Tree(nodes) && n in nodes && Ancestors(nodes, n) != []
    ensures n.parent == Some(Ancestors(nodes, n)[0])
  {
  }

  lemma {:induction false} StrandedParent(nodes: seq<Node>, n: Node, owner: string, after: seq<Node>)
    requires Escalating(nodes, n, owner) && n.parent.Some? && n.parent != Some(owner)
    requires after == Stranded(nodes, n, owner)
    ensures after != Marked(nodes, {n.id}, Failed)
  {
    BranchOf(nodes, n, owner);
    var up := Ancestors(nodes, n);
    var p := Find(nodes, n.parent.value).value;
    assert up[0] == p.id && p.id in Below(up, owner);
    var i :| 0 <= i < |nodes| && nodes[i] == p;
    assert after[i].status == Suspended && Marked(nodes, {n.id}, Failed)[i].status == Split;
  }
  /** An unusable ruling fails the node and leaves every intermediate ancestor suspended; so it leaves
      no other trace exactly when the owner is the node's parent. */
  lemma {:induction false} FailedRulingStrandsTheBranch(nodes: seq<Node>, n: Node, owner: string)
    requires Escalating(nodes, n, owner) && n.parent.Some?
    ensures Settled(nodes, n, owner, Unusable) == Stranded(nodes, n, owner)
    ensures Settled(nodes, n, owner, Unusable) == Marked(nodes, {n.id}, Failed) <==> n.parent == Some(owner)
  {
    UnusableStrands(nodes, n, owner);
    ParentFirst(nodes, n);
    if n.parent == Some(owner) {
      assert Below(Ancestors(nodes, n), owner) == {};
      MarkNone(nodes, Suspended);
    } else {
      StrandedParent(nodes, n, owner, Stranded(nodes, n, owner));
    }
  }

  lemma {:induction false} LineParents(nodes: seq<Node>, cursor: Option<string>, k: nat)
    requires Tree(nodes) && k + 1 < |Line(nodes, cursor)|
    ensures Find(nodes, Line(nodes, cursor)[k]).value.parent == Some(Line(nodes, cursor)[k + 1])
    decreases k
  {
    var n := Find(nodes, cursor.value).value;
    ParentIsHigher(nodes, n);
    if k > 0 { LineParents(nodes, n.parent, k - 1); }
  }

  /** The owner's child on the suspended branch. */
  function TopOfBranch(nodes: seq<Node>, n: Node, owner: string): string
    requires Tree(nodes) && Position(Ancestors(nodes, n), owner) > 0
  {
    Ancestors(nodes, n)[Position(Ancestors(nodes, n), owner) - 1]
  }

  lemma {:induction false} SuspendedChild(nodes: seq<Node>, n: Node, owner: string) returns (c: Node)
    requires Escalating(nodes, n, owner) && Position(Ancestors(nodes, n), owner) > 0
    ensures c in Stranded(nodes, n, owner) && c.status == Suspended && IsChild(c, owner)
    ensures c.id == TopOfBranch(nodes, n, owner)
  {
    var up, after := Ancestors(nodes, n), Stranded(nodes, n, owner);
    BranchOf(nodes, n, owner);
    var k := Position(up, owner) - 1;
    LineParents(nodes, n.parent, k);
    var was := Find(nodes, up[k]).value;
    var i :| 0 <= i < |nodes| && nodes[i] == was;
    assert up[k] in Below(up, owner);
    c := after[i];
  }

  lemma {:induction false} OwnerIsSplit(nodes: seq<Node>, n: Node, owner: string, m: Node)
    requires Escalating(nodes, n, owner) && m in Stranded(nodes, n, owner) && m.id == owner
    ensures m.status == Split
  {
    BranchOf(nodes, n, owner);
    var after := Stranded(nodes, n, owner);
    var i :| 0 <= i < |after| && after[i] == m;
    assert nodes[i].id == owner;
  }

  lemma {:induction false} WaitsForChild(nodes: seq<Node>, stale: set<string>, m: Node, c: Node)
    requires m.status == Split && c in nodes && IsChild(c, m.id) && c.status != Complete
    requires forall k | k in nodes && k.id in stale :: k.status == Complete
    ensures m !in NextNodes(nodes, stale)
  {
    assert c in Children(nodes, m.id);
    SelectedMeans(nodes, stale, m);
  }

  // ---- A replan the parent agrees to ----

  /** The replan alone: everything below the parent deleted, the parent pending. */
  ghost function Replanned(nodes: seq<Node>, p: string): seq<Node> {
    Marked(WithoutBelow(nodes, p), {p}, Pending)
  }

  lemma {:induction false} MarkedLiesBelow(
    nodes: seq<Node>, ids: set<string>, s: Status, n: Node, n': Node, x: string)
    requires SameShape(n, n')
    ensures LiesBelow(Marked(nodes, ids, s), n', x) <==> LiesBelow(nodes, n, x)
    decreases n.depth
  {
    if n.parent.Some? {
      MarkedFind(nodes, ids, s, n.parent.value);
      var p, p' := Find(nodes, n.parent.value), Find(Marked(nodes, ids, s), n.parent.value);
      if p.Some? && p.value.depth < n.depth { MarkedLiesBelow(nodes, ids, s, p.value, p'.value, x); }
    }
  }

  /** Statuses do not matter to what lies below a node. */
  lemma {:induction false} MarkedBelowIds(nodes: seq<Node>, ids: set<string>, s: Status, x: string)
    ensures BelowIds(Marked(nodes, ids, s), x) == BelowIds(nodes, x)
  {
    hide LiesBelow;
    var marked := Marked(nodes, ids, s);
    forall i | 0 <= i < |nodes| ensures LiesBelow(marked, marked[i], x) <==> LiesBelow(nodes, nodes[i], x) {
      MarkedLiesBelow(nodes, ids, s, nodes[i], marked[i], x);
    }
    forall id ensures id in BelowIds(marked, x) <==> id in BelowIds(nodes, x) {
      if id in BelowIds(marked, x) {
        var n :| n in marked && LiesBelow(marked, n, x) && n.id == id;
        var i :| 0 <= i < |marked| && marked[i] == n;
        assert nodes[i] in nodes && nodes[i].id == id;
      }
      if id in BelowIds(nodes, x) {
        var n :| n in nodes && LiesBelow(nodes, n, x) && n.id == id;
        var i :| 0 <= i < |nodes| && nodes[i] == n;
        assert marked[i] in marked && marked[i].id == id;
      }
    }
  }

  lemma {:induction false} BelowIsDeeper(nodes: seq<Node>, n: Node, m: Node)
    requires Tree(nodes) && n in nodes && m in nodes && LiesBelow(nodes, n, m.id)
    ensures m.depth < n.depth
    decreases n.depth
  {
    ParentIsHigher(nodes, n);
    FindMember(nodes, n);
    FindMember(nodes, m);
    if n.parent.value != m.id { BelowIsDeeper(nodes, Find(nodes, n.parent.value).value, m); }
  }

  /** The two readings of descent agree: a node lies below another exactly when that is on its way up. */
  lemma {:induction false} BelowIsDescent(nodes: seq<Node>, n: Node, x: string)
    requires Tree(nodes) && n in nodes
    ensures LiesBelow(nodes, n, x) <==> x in Ancestors(nodes, n)
    decreases n.depth
  {
    ParentIsHigher(nodes, n);
    FindMember(nodes, n);
    if n.parent.Some? {
      var p := Find(nodes, n.parent.value).value;
      BelowIsDescent(nodes, p, x);
      assert Ancestors(nodes, n) == [p.id] + Ancestors(nodes, p);
    }
  }

  ghost function Trimmed(nodes: seq<Node>, gone: set<string>, p: string): seq<Node> {
    Marked(WithoutIds(nodes, gone), {p}, Pending)
  }

  lemma {:induction false} TrimmedSnoc(nodes: seq<Node>, x: Node, gone: set<string>, p: string)
    ensures Trimmed(nodes + [x], gone, p) ==
      Trimmed(nodes, gone, p) + if x.id in gone then [] else [if x.id == p then x.(status := Pending) else x]
  {
    assert (nodes + [x])[..|nodes|] == nodes;
    var kept := WithoutIds(nodes, gone);
    assert Marked(kept + [x], {p}, Pending) == Marked(kept, {p}, Pending) + Marked([x], {p}, Pending);
  }

  lemma {:induction false} TrimForgets(nodes: seq<Node>, ids: set<string>, s: Status, gone: set<string>, p: string)
    requires forall x | x in nodes && x.id in ids :: x.id == p || x.id in gone
    ensures Trimmed(Marked(nodes, ids, s), gone, p) == Trimmed(nodes, gone, p)
  {
    hide Trimmed;
    if nodes == [] {
      assert Marked(nodes, ids, s) == nodes;
    } else {
      var front, x := nodes[..|nodes| - 1], nodes[|nodes| - 1];
      var x' := if x.id in ids then x.(status := s) else x;
      TrimForgets(front, ids, s, gone, p);
      TrimmedSnoc(front, x, gone, p);
      TrimmedSnoc(Marked(front, ids, s), x', gone, p);
      MarkedSnoc(front, x, ids, s);
      assert nodes == front + [x] && x in nodes;
    }
  }

  /** A mark on the parent or below it does not survive the replan. */
  lemma {:induction false} ReplanForgets(nodes: seq<Node>, ids: set<string>, s: Status, p: string)
    requires forall x | x in nodes && x.id in ids :: x.id == p || x.id in BelowIds(nodes, p)
    ensures Replanned(Marked(nodes, ids, s), p) == Replanned(nodes, p)
  {
    MarkedBelowIds(nodes, ids, s, p);
    TrimForgets(nodes, ids, s, BelowIds(nodes, p), p);
  }

  lemma {:induction false} MarkedSnoc(nodes: seq<Node>, x: Node, ids: set<string>, s: Status)
    ensures Marked(nodes + [x], ids, s) == Marked(nodes, ids, s) + [if x.id in ids then x.(status := s) else x]
  {
  }

  lemma {:induction false} ReplanAfterRuling(nodes: seq<Node>, n: Node, owner: string)
    requires Escalating(nodes, n, owner) && n.parent.Some?
    ensures Settled(nodes, n, owner, ReplanAgreed)
         == Replanned(Marked(nodes, {n.id} + Below(Ancestors(nodes, n), owner), Suspended), n.parent.value)
  {
    hide Below, Ancestors, Deliberating, Ruled, StatusOf, WithoutBelow, Tree, Marked;
    RuledIs(nodes, n, owner, Below(Ancestors(nodes, n), owner), Ruled(nodes, n, owner));
  }

  lemma {:induction false} NearOwner(nodes: seq<Node>, n: Node, owner: string, x: Node)
    requires Escalating(nodes, n, owner) && n.parent.Some? && Position(Ancestors(nodes, n), owner) <= 1
    requires x in nodes && x.id in {n.id} + Below(Ancestors(nodes, n), owner)
    ensures x.id == n.parent.value || IsChild(x, n.parent.value)
  {
    ParentFirst(nodes, n);
    FindMember(nodes, n);
    FindMember(nodes, x);
  }

  /** With the owner above the grandparent, the grandparent stays suspended. */
  lemma {:induction false} GrandparentStays(nodes: seq<Node>, n: Node, owner: string, q: Node)
    requires Escalating(nodes, n, owner) && n.parent.Some? && Position(Ancestors(nodes, n), owner) > 1
    requires q in nodes && q.id == Ancestors(nodes, n)[1]
    ensures q.(status := Suspended) in Settled(nodes, n, owner, ReplanAgreed)
    ensures q.status == Split && forall r | r in Replanned(nodes, n.parent.value) && r.id == q.id :: r.status == Split
  {
    var up, p := Ancestors(nodes, n), n.parent.value;
    var branch := {n.id} + Below(up, owner);
    ParentFirst(nodes, n);
    LineParents(nodes, n.parent, 0);
    var parent := Find(nodes, p).value;
    FindMember(nodes, q);
    ParentIsHigher(nodes, parent);
    ParentIsHigher(nodes, q);
    BelowMember(nodes, q, p);
    if LiesBelow(nodes, q, p) { BelowIsDeeper(nodes, q, parent); }
    assert up[1] in Below(up, owner);
    ReplanAfterRuling(nodes, n, owner);
    SurvivesReplan(nodes, branch, p, q);
    KeptByReplan(nodes, p, q.id, Below(up, owner));
  }

  lemma {:induction false} SurvivesReplan(nodes: seq<Node>, ids: set<string>, p: string, q: Node)
    requires q in nodes && q.id in ids && q.id != p && q.id !in BelowIds(nodes, p)
    ensures q.(status := Suspended) in Replanned(Marked(nodes, ids, Suspended), p)
  {
    var marked := Marked(nodes, ids, Suspended);
    MarkedBelowIds(nodes, ids, Suspended, p);
    var i :| 0 <= i < |nodes| && nodes[i] == q;
    assert marked[i] in marked && marked[i] in WithoutBelow(marked, p);
    var kept := WithoutBelow(marked, p);
    var j :| 0 <= j < |kept| && kept[j] == marked[i];
    assert Replanned(marked, p)[j] == kept[j];
  }

  lemma {:induction false} KeptByReplan(nodes: seq<Node>, p: string, q: string, ids: set<string>)
    requires StatusOf(nodes, ids, Split) && q in ids && q != p
    ensures forall r | r in Replanned(nodes, p) && r.id == q :: r.status == Split
  {
    var kept := WithoutBelow(nodes, p);
    forall r | r in Replanned(nodes, p) && r.id == q ensures r.status == Split {
      var j :| 0 <= j < |kept| && Replanned(nodes, p)[j] == r;
      assert kept[j] in kept;
    }
  }

  /** An agreed replan leaves no trace beyond the parent's if and only if the owner is the parent or the
      grandparent; any ancestor between the parent and a higher owner stays suspended. */
  lemma {:induction false} AgreedReplanStrandsTheRest(nodes: seq<Node>, n: Node, owner: string)
    requires Escalating(nodes, n, owner) && n.parent.Some?
    ensures Settled(nodes, n, owner, ReplanAgreed) == Replanned(nodes, n.parent.value)
       <==> Position(Ancestors(nodes, n), owner) <= 1
  {
    var up, p := Ancestors(nodes, n), n.parent.value;
    if Position(up, owner) <= 1 {
      forall x | x in nodes && x.id in {n.id} + Below(up, owner) ensures x.id == p || x.id in BelowIds(nodes, p) {
        NearOwner(nodes, n, owner, x);
        BelowMember(nodes, x, p);
      }
      ReplanAfterRuling(nodes, n, owner);
      ReplanForgets(nodes, {n.id} + Below(up, owner), Suspended, p);
    } else {
      GrandparentStays(nodes, n, owner, Find(nodes, up[1]).value);
    }
  }

  lemma {:induction false} PendingRow(nodes: seq<Node>, n: Node, owner: string)
    requires Escalating(nodes, n, owner) && n.parent.Some?
    ensures Find(Settled(nodes, n, owner, DependsOn), n.id) == Some(n.(status := Pending))
  {
    FindMember(nodes, n);
    RulingLeavesNoTrace(nodes, n, owner, DependsOn);
    hide Settled, Tree, Escalating, Marked, Find;
    MarkedFind(nodes, {n.id}, Pending, n.id);
  }

  lemma {:induction false} FailedRow(nodes: seq<Node>, n: Node, owner: string)
    requires Escalating(nodes, n, owner) && n.parent.Some?
    ensures Find(Settled(nodes, n, owner, Unusable), n.id) == Some(n.(status := Failed))
  {
    FindMember(nodes, n);
    BranchOf(nodes, n, owner);
    FailedRulingStrandsTheBranch(nodes, n, owner);
    hide Settled, Tree, Escalating, Marked, Find, Below;
    var up := Below(Ancestors(nodes, n), owner);
    MarkedFind(nodes, up, Suspended, n.id);
    MarkedFind(Marked(nodes, up, Suspended), {n.id}, Failed, n.id);
  }

  lemma {:induction false} GoneRow(nodes: seq<Node>, n: Node, owner: string)
    requires Escalating(nodes, n, owner) && n.parent.Some?
    ensures Find(Settled(nodes, n, owner, ReplanAgreed), n.id) == None
  {
    var p := n.parent.value;
    var branch := {n.id} + Below(Ancestors(nodes, n), owner);
    assert LiesBelow(nodes, n, p);
    BelowMember(nodes, n, p);
    MarkedBelowIds(nodes, branch, Suspended, p);
    ReplanAfterRuling(nodes, n, owner);
    hide Settled, Tree, Escalating, Marked, Find, Below, Ancestors;
    MarkedFind(WithoutBelow(Marked(nodes, branch, Suspended), p), {p}, Pending, n.id);
  }

  /** Where the rulings that end the node's run leave its own row: pending, failed, or gone. */
  lemma {:induction false} SettledRow(nodes: seq<Node>, n: Node, owner: string)
    requires Escalating(nodes, n, owner)
    ensures n.parent.Some?
    ensures Find(Settled(nodes, n, owner, DependsOn), n.id) == Some(n.(status := Pending))
    ensures Find(Settled(nodes, n, owner, Unusable), n.id) == Some(n.(status := Failed))
    ensures Find(Settled(nodes, n, owner, ReplanAgreed), n.id) == None
  {
    hide Settled, Tree, StatusOf, Marked, Find, Below;
    PendingRow(nodes, n, owner);
    FailedRow(nodes, n, owner);
    GoneRow(nodes, n, owner);
  }

  // ---- A stranded branch ----

  /** The root has split, its child has split, and the grandchild runs. */
  const THREE := [
    Node("root", None, 1, Split, [], map[]),
    Node("root-01", Some("root"), 2, Split, [], map[]),
    Node("root-01-01", Some("root-01"), 3, Running, [], map[])]

  lemma {:induction false} ThreeFound()
    ensures Tree(THREE) && Find(THREE, "root") == Some(THREE[0]) && Find(THREE, "root-01") == Some(THREE[1])
  {
    assert THREE[0] in THREE && THREE[1] in THREE;
    assert ParentInTree(THREE, THREE[1]) && ParentInTree(THREE, THREE[2]);
    FindMember(THREE, THREE[0]);
    FindMember(THREE, THREE[1]);
  }

  lemma {:induction false} ThreeLine()
    ensures Tree(THREE) && Ancestors(THREE, THREE[2]) == ["root-01", "root"]
  {
    ThreeFound();
    assert Line(THREE, None) == [];
    assert Line(THREE, Some("root")) == ["root"];
  }

  /** The failure exists: here the root owns the assumption, rules unusably, and its child stays suspended. */
  lemma {:induction false} ThreeIsStranded()
    ensures Escalating(THREE, THREE[2], "root") && Position(Ancestors(THREE, THREE[2]), "root") > 0
    ensures Settled(THREE, THREE[2], "root", Unusable)
         == [THREE[0], THREE[1].(status := Suspended), THREE[2].(status := Failed)]
  {
    ThreeLine();
    var up := Ancestors(THREE, THREE[2]);
    assert Position(up, "root") == 1 by { assert up[1..] == ["root"]; }
    assert Below(up, "root") == {"root-01"};
    assert THREE[2] in THREE;
    UnusableStrands(THREE, THREE[2], "root");
  }

  // ---- How long the owner waits ----

  /** The owner is split and one of its children is suspended. */
  ghost predicate HeldBack(nodes: seq<Node>, owner: string, child: string) {
    && (exists m :: m in nodes && m.id == owner && m.status == Split)
    && (exists c :: c in nodes && c.id == child && c.parent == Some(owner) && c.status == Suspended)
  }

  /** A step that puts neither the child nor the owner into another status: whatever else is finished,
      split, reopened, retried, replanned or turned. A replan above the owner would delete both. */
  predicate Spares(nodes: seq<Node>, step: Step, owner: string, child: string) {
    match step
    case Finish(_, _) => true
    case Grow(id, _, _, _) => id != child
    case Reopen(id, again) => id != child && owner !in again && child !in again
    case Retry(again) => owner !in again && child !in again
    case Replan(id) => id != owner && id != child && owner !in BelowIds(nodes, id)
    case Turn(id, _) => id != owner && id != child
  }

  lemma {:induction false} HeldBackIsUnselected(
    nodes: seq<Node>, stale: set<string>, owner: string, child: string, m: Node)
    requires UniqueIds(nodes) && HeldBack(nodes, owner, child) && m in nodes && m.id in {owner, child}
    requires forall k | k in nodes && k.id in stale :: k.status == Complete
    ensures m !in NextNodes(nodes, stale) && m.status in {Split, Suspended}
  {
    var o :| o in nodes && o.id == owner && o.status == Split;
    var c :| c in nodes && c.id == child && c.parent == Some(owner) && c.status == Suspended;
    FindMember(nodes, o);
    FindMember(nodes, c);
    FindMember(nodes, m);
    WaitsForChild(nodes, stale, o, c);
    if m == c && m in NextNodes(nodes, stale) { OnlyLiveNodesAreSelected(nodes, stale, m); }
  }

  lemma {:induction false} MarkedKeepsHeld(nodes: seq<Node>, ids: set<string>, s: Status, owner: string, child: string)
    requires HeldBack(nodes, owner, child) && child !in ids && (owner in ids ==> s == Split)
    ensures HeldBack(Marked(nodes, ids, s), owner, child)
  {
    var r := Marked(nodes, ids, s);
    var o :| o in nodes && o.id == owner && o.status == Split;
    var c :| c in nodes && c.id == child && c.parent == Some(owner) && c.status == Suspended;
    var i, j :| 0 <= i < |nodes| && 0 <= j < |nodes| && nodes[i] == o && nodes[j] == c;
    assert r[i] in r && r[j] in r;
  }

  lemma {:induction false} GrownKeepsHeld(nodes: seq<Node>, kids: seq<Node>, owner: string, child: string)
    requires HeldBack(nodes, owner, child)
    ensures HeldBack(nodes + kids, owner, child)
  {
    var o :| o in nodes && o.id == owner && o.status == Split;
    var c :| c in nodes && c.id == child && c.parent == Some(owner) && c.status == Suspended;
    assert o in nodes + kids && c in nodes + kids;
  }

  lemma {:induction false} AcceptKeepsHeld(
    nodes: seq<Node>, id: string, fps: map<string, string>, owner: string, child: string)
    requires HeldBack(nodes, owner, child) && id !in {owner, child}
    ensures HeldBack(Accept(nodes, id, fps), owner, child)
  {
    var r := Accept(nodes, id, fps);
    var o :| o in nodes && o.id == owner && o.status == Split;
    var c :| c in nodes && c.id == child && c.parent == Some(owner) && c.status == Suspended;
    var i, j :| 0 <= i < |nodes| && 0 <= j < |nodes| && nodes[i] == o && nodes[j] == c;
    assert r[i] in r && r[j] in r;
  }

  /** A replan of a node that the owner does not lie below leaves the owner and its child. */
  lemma {:induction false} PrunedKeepsHeld(nodes: seq<Node>, id: string, owner: string, child: string)
    requires Tree(nodes) && HeldBack(nodes, owner, child) && id != owner && owner !in BelowIds(nodes, id)
    ensures HeldBack(WithoutBelow(nodes, id), owner, child)
  {
    var o :| o in nodes && o.id == owner && o.status == Split;
    var c :| c in nodes && c.id == child && c.parent == Some(owner) && c.status == Suspended;
    GoneWithParent(nodes, c, id);
    assert o in WithoutBelow(nodes, id) && c in WithoutBelow(nodes, id);
  }

  ghost predicate StaleAreComplete(nodes: seq<Node>, stale: set<string>) {
    forall k | k in nodes && k.id in stale :: k.status == Complete
  }

  /** Neither of the two can finish: they are not selected and do not run. */
  lemma {:induction false} FinishSpares(nodes: seq<Node>, stale: set<string>, id: string, owner: string, child: string)
    requires Invariant(nodes) && HeldBack(nodes, owner, child)
    requires exists n :: n in nodes && n.id == id && (n in NextNodes(nodes, stale) || n.status == Running)
    requires StaleAreComplete(nodes, stale)
    ensures id !in {owner, child}
  {
    hide HeldBack, NextNodes;
    var n :| n in nodes && n.id == id && (n in NextNodes(nodes, stale) || n.status == Running);
    if id in {owner, child} { HeldBackIsUnselected(nodes, stale, owner, child, n); }
  }

  lemma {:induction false} InvariantIsTree(nodes: seq<Node>)
    requires Invariant(nodes)
    ensures Tree(nodes)
  {
  }

  lemma {:induction false} SparedStep(nodes: seq<Node>, stale: set<string>, step: Step, owner: string, child: string)
    requires Invariant(nodes) && Enabled(nodes, stale, step) && HeldBack(nodes, owner, child)
    requires Spares(nodes, step, owner, child)
    requires StaleAreComplete(nodes, stale)
    ensures HeldBack(Runs.After(nodes, step), owner, child)
  {
    hide HeldBack, Invariant, NextNodes, Lists, BelowIds;
    match step
    case Finish(id, fps) =>
      FinishSpares(nodes, stale, id, owner, child);
      AcceptKeepsHeld(nodes, id, fps, owner, child);
    case Grow(id, cs, existing, left) =>
      var kids := Kids(Find(nodes, id).value, cs, existing, left);
      GrownKeepsHeld(nodes, kids, owner, child);
      MarkedKeepsHeld(nodes + kids, {id}, Split, owner, child);
    case Reopen(id, again) =>
      MarkedKeepsHeld(nodes, again, Pending, owner, child);
      MarkedKeepsHeld(Marked(nodes, again, Pending), {id}, Split, owner, child);
    case Retry(again) => MarkedKeepsHeld(nodes, again, Pending, owner, child);
    case Replan(id) =>
      InvariantIsTree(nodes);
      PrunedKeepsHeld(nodes, id, owner, child);
      MarkedKeepsHeld(WithoutBelow(nodes, id), {id}, Pending, owner, child);
    case Turn(id, status) => MarkedKeepsHeld(nodes, {id}, status, owner, child);
  }

  /** A sequence of steps, from any state, that spare the owner and the child. */
  ghost predicate SparingRun(
    states: seq<seq<Node>>, stales: seq<set<string>>, steps: seq<Step>, owner: string, child: string) {
    && |states| == |steps| + 1 == |stales|
    && (forall i | 0 <= i < |steps| ::
          Runs.Follows(states, stales, steps, i) && Spares(states[i], steps[i], owner, child))
    && (forall i | 0 <= i < |states| :: StaleAreComplete(states[i], stales[i]))
  }

  lemma {:induction false} SparedFollows(
    states: seq<seq<Node>>, stales: seq<set<string>>, steps: seq<Step>, owner: string, child: string, k: nat)
    requires SparingRun(states, stales, steps, owner, child) && k + 1 < |states|
    requires Invariant(states[k]) && HeldBack(states[k], owner, child)
    ensures Invariant(states[k + 1]) && HeldBack(states[k + 1], owner, child)
  {
    hide HeldBack, Invariant, Runs.Enabled, Runs.After, Spares;
    assert Runs.Follows(states, stales, steps, k) && StaleAreComplete(states[k], stales[k]);
    StepKeepsInvariant(states[k], stales[k], steps[k]);
    SparedStep(states[k], stales[k], steps[k], owner, child);
  }

  lemma {:induction false} StaysHeldBack(
    states: seq<seq<Node>>, stales: seq<set<string>>, steps: seq<Step>, owner: string, child: string, i: nat)
    requires SparingRun(states, stales, steps, owner, child) && i < |states|
    requires Invariant(states[0]) && HeldBack(states[0], owner, child)
    ensures Invariant(states[i]) && HeldBack(states[i], owner, child)
  {
    hide HeldBack, Invariant, SparingRun;
    if i > 0 {
      StaysHeldBack(states, stales, steps, owner, child, i - 1);
      SparedFollows(states, stales, steps, owner, child, i - 1);
    }
  }

  lemma {:induction false} StrandedInvariant(nodes: seq<Node>, n: Node, owner: string)
    requires Invariant(nodes) && Escalating(nodes, n, owner)
    ensures Invariant(Stranded(nodes, n, owner))
  {
    var r, a := Stranded(nodes, n, owner), Below(Ancestors(nodes, n), owner);
    FewerSplits(nodes, a, n.id, r);
    RestatedKeepsInvariant(nodes, r);
  }

  lemma {:induction false} FewerSplits(nodes: seq<Node>, a: set<string>, x: string, r: seq<Node>)
    requires Sound(nodes) && r == Marked(Marked(nodes, a, Suspended), {x}, Failed)
    ensures Restated(nodes, r) && forall m | m in r && m.status == Split :: HasChild(nodes, m.id)
  {
    forall m | m in r && m.status == Split ensures HasChild(nodes, m.id) {
      var i :| 0 <= i < |r| && r[i] == m;
      assert nodes[i] in nodes && nodes[i].status == Split;
    }
  }

  /** After a failure under a distant owner, the owner is not picked again, to aggregate or otherwise, for as
      long as no step puts the owner or its suspended child into another status: until a retry, a reopening,
      a replan or another escalation reaches one of them, whatever happens elsewhere and whatever goes
      stale. */
  lemma {:induction false} StrandedOwnerWaits(
    nodes: seq<Node>, n: Node, owner: string,
    states: seq<seq<Node>>, stales: seq<set<string>>, steps: seq<Step>, i: nat, m: Node)
    requires Invariant(nodes) && Escalating(nodes, n, owner) && Position(Ancestors(nodes, n), owner) > 0
    requires SparingRun(states, stales, steps, owner, TopOfBranch(nodes, n, owner))
    requires states[0] == Stranded(nodes, n, owner) && i < |states| && m in states[i] && m.id == owner
    ensures m.status == Split && m !in NextNodes(states[i], stales[i])
  {
    hide HeldBack, Escalating, NextNodes, Runs.Follows, Below;
    var child := TopOfBranch(nodes, n, owner);
    HeldAtFirst(nodes, n, owner);
    StrandedInvariant(nodes, n, owner);
    StaysHeldBack(states, stales, steps, owner, child, i);
    assert StaleAreComplete(states[i], stales[i]);
    HeldBackIsUnselected(states[i], stales[i], owner, child, m);
    OwnerStaysSplit(states[i], owner, child, m);
  }

  lemma {:induction false} OwnerStaysSplit(nodes: seq<Node>, owner: string, child: string, m: Node)
    requires UniqueIds(nodes) && HeldBack(nodes, owner, child) && m in nodes && m.id == owner
    ensures m.status == Split
  {
    var o :| o in nodes && o.id == owner && o.status == Split;
    FindMember(nodes, o);
    FindMember(nodes, m);
  }

  lemma {:induction false} HeldAtFirst(nodes: seq<Node>, n: Node, owner: string)
    requires Escalating(nodes, n, owner) && Position(Ancestors(nodes, n), owner) > 0
    ensures HeldBack(Stranded(nodes, n, owner), owner, TopOfBranch(nodes, n, owner))
  {
    var r := Stranded(nodes, n, owner);
    var c := SuspendedChild(nodes, n, owner);
    var o := Find(nodes, owner).value;
    var i :| 0 <= i < |nodes| && nodes[i] == o;
    assert r[i] in r && r[i].id == owner;
    OwnerIsSplit(nodes, n, owner, r[i]);
  }
}

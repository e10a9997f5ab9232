/** `retry` and `reopen_children` (src/store.rs): sending subtrees back to pending, found by a prefix
    test on directory paths. */
module Subtrees {
  import opened Text
  import opened Nodes
  import opened Selection
  import opened Splits
  import opened Runs
  import opened Escalation

  // ---- Paths ----

  /** The directories below the root's: `/children/<id>` for every level. */
  function Tail(line: seq<string>): (s: string)
    ensures s == "" || s[0] == '/'
    ensures s == "" <==> line == []
  {
    if line == [] then "" else "/children/" + (line[0] + Tail(line[1..]))
  }

  /** The ids from the root down to `cursor`. */
  function RootLine(nodes: seq<Node>, cursor: Option<string>): (ids: seq<string>)
    requires Tree(nodes)
    decreases DepthOf(nodes, cursor)
  {
    if cursor.None? || Find(nodes, cursor.value).None? then []
    else
      var n := Find(nodes, cursor.value).value;
      ParentIsHigher(nodes, n);
      RootLine(nodes, n.parent) + [n.id]
  }

  function LineOf(nodes: seq<Node>, n: Node): seq<string>
    requires Tree(nodes)
  {
    RootLine(nodes, n.parent) + [n.id]
  }

  /** A node's directory; `base` is the root node's. */
  function PathOf(base: string, nodes: seq<Node>, n: Node): string
    requires Tree(nodes)
  {
    base + Tail(LineOf(nodes, n)[1..])
  }

  lemma {:induction false} TailSnoc(line: seq<string>, id: string)
    ensures Tail(line + [id]) == Tail(line) + "/children/" + id
  {
    if line == [] {
      assert ([] + [id])[1..] == [];
    } else {
      assert (line + [id])[1..] == line[1..] + [id];
      TailSnoc(line[1..], id);
    }
  }

  lemma {:induction false} RootLineOf(nodes: seq<Node>, n: Node)
    requires Tree(nodes) && n in nodes
    ensures RootLine(nodes, Some(n.id)) == LineOf(nodes, n)
  {
    FindMember(nodes, n);
  }

  lemma {:induction false} ChildLine(nodes: seq<Node>, p: Node, c: Node)
    requires Tree(nodes) && p in nodes && c in nodes && c.parent == Some(p.id)
    ensures LineOf(nodes, c) == LineOf(nodes, p) + [c.id]
  {
    FindMember(nodes, p);
  }

  /** A child's directory is its parent's `children` directory and its own id. */
  lemma {:induction false} ChildPath(base: string, nodes: seq<Node>, p: Node, c: Node)
    requires Tree(nodes) && p in nodes && c in nodes && c.parent == Some(p.id)
    ensures PathOf(base, nodes, c) == PathOf(base, nodes, p) + "/children/" + c.id
  {
    ChildLine(nodes, p, c);
    TailChild(LineOf(nodes, p), c.id);
  }

  lemma {:induction false} TailChild(line: seq<string>, id: string)
    requires line != []
    ensures Tail((line + [id])[1..]) == Tail(line[1..]) + "/children/" + id
  {
    assert (line + [id])[1..] == line[1..] + [id];
    TailSnoc(line[1..], id);
  }

  predicate SlashFree(line: seq<string>) { forall k | 0 <= k < |line| :: '/' !in line[k] }

  /** A slash-free name followed by a slash can only match itself. */
  lemma {:induction false} NamesMatch(a: string, x: string, b: string, y: string)
    requires '/' !in a && '/' !in b && x != "" && x[0] == '/' && (y == "" || y[0] == '/')
    ensures a + x <= b + y <==> a == b && x <= y
  {
    LengthsDiffer(a, x, b, y);
    if a + x <= b + y {
      assert a == (a + x)[..|a|] == (b + y)[..|b|] == b;
      assert forall k | 0 <= k < |x| :: x[k] == (a + x)[|a| + k] == (b + y)[|b| + k] == y[k];
    }
  }

  lemma {:induction false} LengthsDiffer(a: string, x: string, b: string, y: string)
    requires '/' !in a && '/' !in b && x != "" && x[0] == '/' && (y == "" || y[0] == '/')
    ensures |a| != |b| ==> !(a + x <= b + y)
  {
    if |a| < |b| {
      assert (a + x)[|a|] == x[0] && (b + y)[|a|] == b[|a|];
    }
    if |a| > |b| {
      assert (a + x)[|b|] == a[|b|];
      assert y != "" ==> (b + y)[|b|] == y[0];
    }
  }

  lemma {:induction false} SameHead(h: string, x: string, y: string)
    ensures h + x <= h + y <==> x <= y
  {
    if h + x <= h + y {
      assert forall k | 0 <= k < |x| :: x[k] == (h + x)[|h| + k] == (h + y)[|h| + k] == y[k];
    }
  }

  ghost predicate ProperPrefix(a: seq<string>, b: seq<string>) { |a| < |b| && a == b[..|a|] }

  /** The prefix test on paths, with the slash appended, is the prefix relation on lines. */
  lemma {:induction false} TailsMatch(a: seq<string>, b: seq<string>)
    requires SlashFree(a) && SlashFree(b)
    ensures Tail(a) + "/" <= Tail(b) <==> ProperPrefix(a, b)
  {
    if a == [] {
      assert Tail(a) + "/" == "/";
    } else if b != [] {
      var x, y := Tail(a[1..]) + "/", Tail(b[1..]);
      TailsMatch(a[1..], b[1..]);
      assert Tail(a) + "/" == "/children/" + (a[0] + x);
      SameHead("/children/", a[0] + x, b[0] + y);
      NamesMatch(a[0], x, b[0], y);
      if ProperPrefix(a, b) { assert b[..|a|][1..] == b[1..][..|a| - 1]; }
      if a[0] == b[0] && ProperPrefix(a[1..], b[1..]) { assert b[..|a|] == [b[0]] + b[1..][..|a| - 1]; }
    }
  }

  // ---- Lines and ancestry ----

  /** The last id of a line is the node's own, the first is the root's. */
  lemma {:induction false} RootFirst(nodes: seq<Node>, n: Node)
    requires Tree(nodes) && n in nodes
    ensures LineOf(nodes, n)[0] == nodes[0].id
    decreases DepthOf(nodes, Some(n.id))
  {
    ParentIsHigher(nodes, n);
    var i :| 0 <= i < |nodes| && nodes[i] == n;
    if i > 0 {
      assert ParentInTree(nodes, nodes[i]);
      var p :| p in nodes && p.id == n.parent.value && n.depth == p.depth + 1;
      RootFirst(nodes, p);
      RootLineOf(nodes, p);
    }
  }

  /** A line extends another exactly when its node is a descendant of the other's. */
  lemma {:induction false} PrefixIsAncestor(nodes: seq<Node>, a: Node, n: Node)
    requires Tree(nodes) && a in nodes && n in nodes
    ensures ProperPrefix(LineOf(nodes, a), LineOf(nodes, n)) <==> a.id in Ancestors(nodes, n)
    decreases DepthOf(nodes, Some(n.id))
  {
    ParentIsHigher(nodes, n);
    var line, up := LineOf(nodes, a), LineOf(nodes, n);
    if n.parent.Some? {
      var p := Find(nodes, n.parent.value).value;
      RootLineOf(nodes, p);
      PrefixIsAncestor(nodes, a, p);
      assert up == LineOf(nodes, p) + [n.id];
      assert Ancestors(nodes, n) == [p.id] + Ancestors(nodes, p);
      if a.id == p.id {
        FindMember(nodes, a);
        assert up[..|line|] == line;
      } else {
        assert up[..|up| - 1] == LineOf(nodes, p);
        assert line[|line| - 1] == a.id && up[|up| - 2] == p.id;
        assert |line| < |up| - 1 ==> up[..|line|] == LineOf(nodes, p)[..|line|];
      }
    }
  }

  ghost predicate SafeNames(nodes: seq<Node>) { forall n | n in nodes :: '/' !in n.id }

  lemma {:induction false} LineIsSafe(nodes: seq<Node>, cursor: Option<string>)
    requires Tree(nodes) && SafeNames(nodes)
    ensures SlashFree(RootLine(nodes, cursor))
    decreases DepthOf(nodes, cursor)
  {
    if cursor.Some? && Find(nodes, cursor.value).Some? {
      ParentIsHigher(nodes, Find(nodes, cursor.value).value);
      LineIsSafe(nodes, Find(nodes, cursor.value).value.parent);
    }
  }

  predicate Under(base: string, nodes: seq<Node>, a: Node, n: Node)
    requires Tree(nodes)
  {
    PathOf(base, nodes, a) + "/" <= PathOf(base, nodes, n)
  }

  /** Main result: the path test selects exactly the proper descendants. */
  lemma {:induction false} UnderIsDescendant(base: string, nodes: seq<Node>, a: Node, n: Node)
    requires Tree(nodes) && SafeNames(nodes) && a in nodes && n in nodes
    ensures Under(base, nodes, a, n) <==> a.id in Ancestors(nodes, n)
  {
    var x, y := LineOf(nodes, a), LineOf(nodes, n);
    RootFirst(nodes, a);
    RootFirst(nodes, n);
    LineIsSafe(nodes, a.parent);
    LineIsSafe(nodes, n.parent);
    TailsMatch(x[1..], y[1..]);
    SameHead(base, Tail(x[1..]) + "/", Tail(y[1..]));
    assert PathOf(base, nodes, a) + "/" == base + (Tail(x[1..]) + "/");
    SameFirst(x, y);
    PrefixIsAncestor(nodes, a, n);
  }

  lemma {:induction false} SameFirst(x: seq<string>, y: seq<string>)
    requires x != [] && y != [] && x[0] == y[0]
    ensures ProperPrefix(x[1..], y[1..]) <==> ProperPrefix(x, y)
  {
    if |x| < |y| {
      assert y[..|x|] == [y[0]] + y[1..][..|x| - 1];
      assert x == [x[0]] + x[1..];
      assert y[..|x|][1..] == y[1..][..|x| - 1];
    }
  }

  // ---- Retry and reopen ----

  /** A node's id and all its descendants' ids. */
  ghost function Subtree(nodes: seq<Node>, a: Node): set<string>
    requires Tree(nodes)
  {
    set n | n in nodes && (n.id == a.id || a.id in Ancestors(nodes, n)) :: n.id
  }

  lemma {:induction false} MemberOfSubtree(nodes: seq<Node>, a: Node, n: Node)
    requires Tree(nodes) && a in nodes && n in nodes
    ensures n.id in Subtree(nodes, a) <==> n.id == a.id || a.id in Ancestors(nodes, n)
  {
    if n.id in Subtree(nodes, a) {
      var m :| m in nodes && (m.id == a.id || a.id in Ancestors(nodes, m)) && m.id == n.id;
      FindMember(nodes, m);
      FindMember(nodes, n);
    }
  }

  /** The filter both operations use. */
  method InSubtree(base: string, walk: seq<Node>, a: Node, n: Node) returns (inside: bool)
    requires Tree(walk) && SafeNames(walk) && a in walk && n in walk
    ensures inside <==> n.id in Subtree(walk, a)
  {
    UnderIsDescendant(base, walk, a, n);
    MemberOfSubtree(walk, a, n);
    inside := n.id == a.id || PathOf(base, walk, a) + "/" <= PathOf(base, walk, n);
  }

  /** The ids of a set that a loop has met among its first `i` nodes. */
  ghost function Met(walk: seq<Node>, ids: set<string>, i: nat): set<string>
    requires i <= |walk|
  {
    set k | 0 <= k < i && walk[k].id in ids :: walk[k].id
  }

  lemma {:induction false} MetSnoc(walk: seq<Node>, ids: set<string>, i: nat)
    requires i < |walk|
    ensures Met(walk, ids, i + 1) == Met(walk, ids, i) + if walk[i].id in ids then {walk[i].id} else {}
  {
  }

  lemma {:induction false} MetAll(walk: seq<Node>, ids: set<string>)
    requires ids <= Ids(walk)
    ensures Met(walk, ids, |walk|) == ids
  {
    forall id | id in ids ensures id in Met(walk, ids, |walk|) {
      var n :| n in walk && n.id == id;
      var k :| 0 <= k < |walk| && walk[k] == n;
    }
  }

  /** Of the listed ids, the direct children of the parent. */
  function Reopenable(nodes: seq<Node>, parent: string, childIds: seq<string>, n: nat): (r: seq<string>)
    requires n <= |childIds|
    decreases n
  {
    if n == 0 then []
    else
      var child := Find(nodes, childIds[n - 1]);
      Reopenable(nodes, parent, childIds, n - 1)
      + if child.Some? && child.value.parent == Some(parent) then [childIds[n - 1]] else []
  }

  /** The ids `reopen_children` puts back to pending. */
  ghost function Reopened(nodes: seq<Node>, parent: string, childIds: seq<string>, n: nat): set<string>
    requires Tree(nodes) && n <= |childIds|
    decreases n
  {
    if n == 0 then {}
    else
      var child := Find(nodes, childIds[n - 1]);
      Reopened(nodes, parent, childIds, n - 1)
      + if child.Some? && child.value.parent == Some(parent) then Subtree(nodes, child.value) else {}
  }

  class Store {
    const base: string
    var nodes: seq<Node>

    method SetStatus(id: string, s: Status)
      modifies this`nodes
      ensures nodes == Marked(old(nodes), {id}, s)
    {
      nodes := Marked(nodes, {id}, s);
    }

    /** The inner loop: every node of an earlier walk that is the target or lies under its path. */
    method ResetSubtree(walk: seq<Node>, a: Node)
      requires Tree(walk) && SafeNames(walk) && a in walk
      modifies this`nodes
      ensures nodes == Marked(old(nodes), Subtree(walk, a), Pending)
    {
      ghost var was, ids := nodes, Subtree(walk, a);
      MarkNone(was, Pending);
      for i := 0 to |walk|
        invariant nodes == Marked(was, Met(walk, ids, i), Pending)
      {
        var inside := InSubtree(base, walk, a, walk[i]);
        MetSnoc(walk, ids, i);
        MarkTwice(was, Met(walk, ids, i), {walk[i].id}, Pending);
        if inside { SetStatus(walk[i].id, Pending); }
      }
      MetAll(walk, ids);
    }

    /** `retry`: an unknown id is an error and changes nothing; nodes already pending are not counted. */
    method Retry(id: string) returns (count: Option<nat>)
      requires Tree(nodes) && SafeNames(nodes)
      modifies this`nodes
      ensures count.None? <==> Find(old(nodes), id).None?
      ensures count.None? ==> nodes == old(nodes)
      ensures count.Some? ==> nodes == Marked(old(nodes), Subtree(old(nodes), Find(old(nodes), id).value), Pending)
      ensures count.Some? ==>
        count.value == Moved(old(nodes), Subtree(old(nodes), Find(old(nodes), id).value), |old(nodes)|)
    {
      var walk := nodes;
      var target := Find(walk, id);
      if target.None? { return None; }
      var n := ResetCounting(walk, target.value);
      count := Some(n);
    }

    method ResetCounting(walk: seq<Node>, a: Node) returns (n: nat)
      requires Tree(walk) && SafeNames(walk) && a in walk && nodes == walk
      modifies this`nodes
      ensures nodes == Marked(walk, Subtree(walk, a), Pending)
      ensures n == Moved(walk, Subtree(walk, a), |walk|)
    {
      hide ResetSoFar;
      ResetStarts(walk, Subtree(walk, a));
      n := 0;
      for i := 0 to |walk|
        invariant ResetSoFar(walk, Subtree(walk, a), i, nodes, n)
      {
        var inside := InSubtree(base, walk, a, walk[i]);
        ResetNext(walk, Subtree(walk, a), i, nodes, n);
        if inside && walk[i].status != Pending {
          SetStatus(walk[i].id, Pending);
          n := n + 1;
        }
      }
      ResetEnds(walk, a, nodes, n);
    }

    /** `reopen_children`. */
    method ReopenChildren(parent: string, childIds: seq<string>) returns (reopened: seq<string>)
      requires Tree(nodes) && SafeNames(nodes)
      modifies this`nodes
      ensures reopened == Reopenable(old(nodes), parent, childIds, |childIds|)
      ensures nodes ==
        if reopened == [] then old(nodes)
        else Marked(Marked(old(nodes), Reopened(old(nodes), parent, childIds, |childIds|), Pending), {parent}, Split)
    {
      var walk := nodes;
      ghost var again: set<string> := {};
      reopened := [];
      MarkNone(walk, Pending);
      for k := 0 to |childIds|
        invariant reopened == Reopenable(walk, parent, childIds, k)
        invariant again == Reopened(walk, parent, childIds, k) && (reopened == [] ==> again == {})
        invariant nodes == Marked(walk, again, Pending)
      {
        var child := Find(walk, childIds[k]);
        ghost var next := ReopenStep(walk, parent, childIds, k, child, again);
        if child.Some? && child.value.parent == Some(parent) {
          ghost var below := Subtree(walk, child.value);
          MarkTwice(walk, again, below, Pending);
          ResetSubtree(walk, child.value);
          reopened := reopened + [childIds[k]];
        }
        again := next;
      }
      if reopened != [] {
        SetStatus(parent, Split);
      }
    }
  }

  lemma {:induction false} ReopenStep(
    nodes: seq<Node>, parent: string, childIds: seq<string>, k: nat, child: Option<Node>, again: set<string>)
    returns (next: set<string>)
    requires Tree(nodes) && k < |childIds| && child == Find(nodes, childIds[k])
    requires again == Reopened(nodes, parent, childIds, k)
    ensures next == Reopened(nodes, parent, childIds, k + 1)
    ensures next ==
      if child.Some? && child.value.parent == Some(parent) then again + Subtree(nodes, child.value) else again
    ensures Reopenable(nodes, parent, childIds, k + 1) == Reopenable(nodes, parent, childIds, k)
      + if child.Some? && child.value.parent == Some(parent) then [childIds[k]] else []
  {
    next := Reopened(nodes, parent, childIds, k + 1);
  }

  /** How many of the first `n` nodes are in the set and not yet pending. */
  ghost function Moved(nodes: seq<Node>, ids: set<string>, n: nat): nat
    requires n <= |nodes|
    decreases n
  {
    if n == 0 then 0
    else Moved(nodes, ids, n - 1) + if nodes[n - 1].id in ids && nodes[n - 1].status != Pending then 1 else 0
  }

  lemma {:induction false} MarkIdle(nodes: seq<Node>, ids: set<string>, n: Node)
    requires UniqueIds(nodes) && n in nodes && n.status == Pending
    ensures Marked(nodes, ids + {n.id}, Pending) == Marked(nodes, ids, Pending)
  {
    forall i | 0 <= i < |nodes| && nodes[i].id == n.id ensures nodes[i] == n {
      FindMember(nodes, n);
      FindMember(nodes, nodes[i]);
    }
  }

  /** `now` is the walk with the first `i` members of the set put back, `n` of them moved. */
  ghost predicate ResetSoFar(walk: seq<Node>, ids: set<string>, i: nat, now: seq<Node>, n: nat)
    requires i <= |walk|
  {
    now == Marked(walk, Met(walk, ids, i), Pending) && n == Moved(walk, ids, i)
  }

  /** One more node of the loop: marked, or left alone because nothing would change. */
  lemma {:induction false} ResetNext(walk: seq<Node>, ids: set<string>, i: nat, now: seq<Node>, n: nat)
    requires Tree(walk) && i < |walk| && ResetSoFar(walk, ids, i, now, n)
    ensures if walk[i].id in ids && walk[i].status != Pending
            then ResetSoFar(walk, ids, i + 1, Marked(now, {walk[i].id}, Pending), n + 1)
            else ResetSoFar(walk, ids, i + 1, now, n)
  {
    hide Met;
    MetSnoc(walk, ids, i);
    MarkTwice(walk, Met(walk, ids, i), {walk[i].id}, Pending);
    if walk[i].status == Pending { MarkIdle(walk, Met(walk, ids, i), walk[i]); }
    assert Met(walk, ids, i) + {} == Met(walk, ids, i);
  }

  lemma {:induction false} ResetStarts(walk: seq<Node>, ids: set<string>)
    ensures ResetSoFar(walk, ids, 0, walk, 0)
  {
    MarkNone(walk, Pending);
    assert Met(walk, ids, 0) == {};
  }

  lemma {:induction false} ResetEnds(walk: seq<Node>, a: Node, now: seq<Node>, n: nat)
    requires Tree(walk) && ResetSoFar(walk, Subtree(walk, a), |walk|, now, n)
    ensures now == Marked(walk, Subtree(walk, a), Pending) && n == Moved(walk, Subtree(walk, a), |walk|)
  {
    MetAll(walk, Subtree(walk, a));
  }

  // ---- What reopening touches ----

  /** The listed id is a direct child of the parent, and the node is it or below it. */
  ghost predicate ReopensAt(nodes: seq<Node>, parent: string, childId: string, m: Node)
    requires Tree(nodes)
  {
    exists c :: c in nodes && c.id == childId && c.parent == Some(parent)
                && (m.id == childId || childId in Ancestors(nodes, m))
  }

  lemma {:induction false} ReopensAtMeans(nodes: seq<Node>, parent: string, childId: string, m: Node)
    requires Tree(nodes) && m in nodes
    ensures ReopensAt(nodes, parent, childId, m) <==>
      var child := Find(nodes, childId);
      child.Some? && child.value.parent == Some(parent) && m.id in Subtree(nodes, child.value)
  {
    var child := Find(nodes, childId);
    if child.Some? {
      MemberOfSubtree(nodes, child.value, m);
      forall c | c in nodes && c.id == childId ensures c == child.value {
        FindMember(nodes, c);
      }
    }
  }

  ghost predicate ReopensSome(nodes: seq<Node>, parent: string, childIds: seq<string>, n: nat, m: Node)
    requires Tree(nodes) && n <= |childIds|
  {
    exists k | 0 <= k < n :: ReopensAt(nodes, parent, childIds[k], m)
  }

  lemma {:induction false} ReopenedOneMore(
    nodes: seq<Node>, parent: string, childIds: seq<string>, k: nat, n: nat, m: Node)
    requires Tree(nodes) && n == k + 1 && n <= |childIds| && m in nodes
    ensures m.id in Reopened(nodes, parent, childIds, n) <==>
      m.id in Reopened(nodes, parent, childIds, k) || ReopensAt(nodes, parent, childIds[k], m)
  {
    hide Subtree, ReopensAt, Tree;
    ReopensAtMeans(nodes, parent, childIds[k], m);
  }

  lemma {:induction false} ReopenedNone(nodes: seq<Node>, parent: string, childIds: seq<string>, m: Node)
    requires Tree(nodes)
    ensures m.id !in Reopened(nodes, parent, childIds, 0) && !ReopensSome(nodes, parent, childIds, 0, m)
  {
  }

  /** A node is put back exactly when it is a listed direct child of the parent or lies below one. */
  lemma {:induction false} ReopenedMeans(nodes: seq<Node>, parent: string, childIds: seq<string>, n: nat, m: Node)
    requires Tree(nodes) && n <= |childIds| && m in nodes
    ensures m.id in Reopened(nodes, parent, childIds, n) <==> ReopensSome(nodes, parent, childIds, n, m)
  {
    hide Reopened, ReopensSome, ReopensAt, Tree;
    if n == 0 {
      ReopenedNone(nodes, parent, childIds, m);
    } else {
      ReopenedMeans(nodes, parent, childIds, n - 1, m);
      ReopenedOneMore(nodes, parent, childIds, n - 1, n, m);
      ReopensMore(nodes, parent, childIds, n - 1, n, m);
    }
  }

  lemma {:induction false} ReopensMore(
    nodes: seq<Node>, parent: string, childIds: seq<string>, k: nat, n: nat, m: Node)
    requires Tree(nodes) && n == k + 1 && n <= |childIds|
    ensures ReopensSome(nodes, parent, childIds, n, m) <==>
      ReopensSome(nodes, parent, childIds, k, m) || ReopensAt(nodes, parent, childIds[k], m)
  {
  }

  lemma {:induction false} ChildIdIsSafe(p: string, k: nat)
    requires '/' !in p
    ensures '/' !in ChildId(p, k)
  {
    assert '/' !in Pad2(k);
  }

  /** Generated ids never contain a slash, so the path test is safe on every reachable tree. */
  lemma {:induction false} GeneratedNamesAreSafe(nodes: seq<Node>, n: Node)
    requires Tree(nodes) && Numbered(nodes) && n in nodes
    ensures '/' !in n.id
    decreases DepthOf(nodes, Some(n.id))
  {
    if n.id != ROOT {
      var p, k := IsGenerated(nodes, n);
      FindMember(nodes, p);
      ParentIsHigher(nodes, n);
      GeneratedNamesAreSafe(nodes, p);
      ChildIdIsSafe(p.id, k);
    }
  }

  /** Putting nodes back to pending, or splitting one, makes none failed, suspended or running. */
  lemma {:induction false} MarkedIsLive(nodes: seq<Node>, ids: set<string>, s: Status)
    requires s in {Pending, Split}
    ensures Live(Marked(nodes, ids, s)) <==>
      forall n | n in nodes && n.id !in ids :: n.status in {Pending, Split, Complete}
  {
    var r := Marked(nodes, ids, s);
    if Live(r) {
      forall n | n in nodes && n.id !in ids ensures n.status in {Pending, Split, Complete} {
        var i :| 0 <= i < |nodes| && nodes[i] == n;
        assert r[i] in r;
      }
    }
    if forall n | n in nodes && n.id !in ids :: n.status in {Pending, Split, Complete} {
      forall m | m in r ensures m.status in {Pending, Split, Complete} {
        var i :| 0 <= i < |r| && r[i] == m;
        assert nodes[i] in nodes;
      }
    }
  }

  /** Main result: a reopening that matched a child is the reopen step of the run model, so it keeps
      the invariant of runs; it leaves no node failed, suspended or running that was not, and then the tree
      does not deadlock. One that matched none changes nothing. */
  lemma {:induction false} ReopeningKeepsInvariant(
    nodes: seq<Node>, parent: string, childIds: seq<string>, stale: set<string>)
    requires Invariant(nodes) && Reopenable(nodes, parent, childIds, |childIds|) != []
    ensures var after := Marked(Marked(nodes, Reopened(nodes, parent, childIds, |childIds|), Pending), {parent}, Split);
            && after == After(nodes, Step.Reopen(parent, Reopened(nodes, parent, childIds, |childIds|)))
            && Invariant(after) && (Live(nodes) ==> Live(after))
            && (Live(after) ==> (NextNodes(after, stale) == [] <==> Finished(after, stale)))
  {
    hide Live, NextNodes, Finished, Reopened;
    var again := Reopened(nodes, parent, childIds, |childIds|);
    var after := Marked(Marked(nodes, again, Pending), {parent}, Split);
    ReopenableChild(nodes, parent, childIds, |childIds|);
    StepKeepsInvariant(nodes, stale, Step.Reopen(parent, again));
    MarkKeepsLive(nodes, again, Pending);
    MarkKeepsLive(Marked(nodes, again, Pending), {parent}, Split);
    LiveDoesNotDeadlock(after, stale);
  }

  lemma {:induction false} MarkKeepsLive(nodes: seq<Node>, ids: set<string>, s: Status)
    requires s in {Pending, Split}
    ensures Live(nodes) ==> Live(Marked(nodes, ids, s))
  {
    MarkedIsLive(nodes, ids, s);
  }

  lemma {:induction false} LiveDoesNotDeadlock(nodes: seq<Node>, stale: set<string>)
    requires Invariant(nodes)
    ensures Live(nodes) ==> (NextNodes(nodes, stale) == [] <==> Finished(nodes, stale))
  {
    if Live(nodes) { NoDeadlock(nodes, stale); }
  }

  lemma {:induction false} ReopenableChild(nodes: seq<Node>, parent: string, childIds: seq<string>, n: nat)
    requires n <= |childIds| && Reopenable(nodes, parent, childIds, n) != []
    ensures HasChild(nodes, parent)
  {
    if Reopenable(nodes, parent, childIds, n - 1) != [] {
      ReopenableChild(nodes, parent, childIds, n - 1);
    } else {
      var c := Find(nodes, childIds[n - 1]).value;
      assert c in nodes && IsChild(c, parent);
    }
  }

  /** So does a retry, which also revives what it puts back: afterwards no node is failed, suspended or running
      exactly when none outside the subtree was, and then the tree does not deadlock. */
  lemma {:induction false} RetryKeepsInvariant(nodes: seq<Node>, a: Node, stale: set<string>)
    requires Invariant(nodes) && a in nodes
    ensures var after := Marked(nodes, Subtree(nodes, a), Pending);
      && Invariant(after)
      && (Live(after) <==>
            forall n | n in nodes && n.id !in Subtree(nodes, a) :: n.status in {Pending, Split, Complete})
      && (Live(after) ==> (NextNodes(after, stale) == [] <==> Finished(after, stale)))
  {
    hide NextNodes, Finished, Live;
    StepKeepsInvariant(nodes, stale, Step.Retry(Subtree(nodes, a)));
    MarkedIsLive(nodes, Subtree(nodes, a), Pending);
    LiveDoesNotDeadlock(Marked(nodes, Subtree(nodes, a), Pending), stale);
  }
}

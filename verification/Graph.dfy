/** Finite dependency graphs: cycles, sources and topological orders. */
module Graph {

  /** `g[n]` lists what `n` depends on. Targets that are not keys carry no edge. */
  type Digraph = map<string, seq<string>>

  predicate Edge(g: Digraph, a: string, b: string) {
    a in g && b in g && b in g[a]
  }

  predicate Hop(g: Digraph, p: seq<string>, i: nat)
    requires i + 1 < |p|
  {
    Edge(g, p[i], p[i + 1])
  }

  ghost predicate IsPath(g: Digraph, p: seq<string>) {
    && p != [] && p[0] in g
    && (forall i | 0 <= i < |p| - 1 :: Hop(g, p, i))
  }

  /** A cycle is a path of at least one edge that returns to its start. */
  ghost predicate Cyclic(g: Digraph) {
    exists p :: IsCycle(g, p)
  }

  ghost predicate IsCycle(g: Digraph, p: seq<string>) {
    IsPath(g, p) && |p| >= 2 && p[0] == p[|p| - 1]
  }

  /** `order` lists each key of `g` once, every node after what it depends on. */
  ghost predicate Topological(g: Digraph, order: seq<string>) {
    && (forall n :: n in order <==> n in g)
    && DependenciesFirst(g, order)
  }

  ghost predicate DependenciesFirst(g: Digraph, order: seq<string>) {
    && (forall i, j | 0 <= i < j < |order| :: order[i] != order[j])
    && (forall i, d | 0 <= i < |order| && Edge(g, order[i], d) :: d in order[..i])
  }

  lemma {:induction false} PathSlice(g: Digraph, p: seq<string>, i: nat, j: nat)
    requires IsPath(g, p) && i < j <= |p|
    ensures IsPath(g, p[i..j])
  {
    var c := p[i..j];
    forall k | 0 <= k < |c| - 1 ensures Hop(g, c, k) { assert Hop(g, p, i + k); }
    if i > 0 { assert Hop(g, p, i - 1); }
  }

  lemma {:induction false} PathNode(g: Digraph, p: seq<string>, i: nat)
    requires IsPath(g, p) && i < |p|
    ensures p[i] in g
  {
    if i > 0 { assert Hop(g, p, i - 1); }
  }

  lemma {:induction false} PathDescends(g: Digraph, order: seq<string>, p: seq<string>, i: nat) returns (j: nat)
    requires DependenciesFirst(g, order) && IsPath(g, p)
    requires i < |order| && order[i] == p[0]
    ensures j <= i && order[j] == p[|p| - 1]
    ensures |p| >= 2 ==> j < i
    decreases |p|
  {
    if |p| == 1 {
      j := i;
    } else {
      assert Hop(g, p, 0);
      var k :| 0 <= k < i && order[k] == p[1];
      var q := p[1..];
      forall m | 0 <= m < |q| - 1 ensures Hop(g, q, m) { assert Hop(g, p, m + 1); }
      j := PathDescends(g, order, q, k);
    }
  }

  /** A graph with a topological order has no cycle. */
  lemma {:induction false} OrderedIsAcyclic(g: Digraph, order: seq<string>)
    requires Topological(g, order)
    ensures !Cyclic(g)
  {
    if p :| IsCycle(g, p) {
      assert p[0] in order;
      var i :| 0 <= i < |order| && order[i] == p[0];
      var j := PathDescends(g, order, p, i);
    }
  }

  /** `n` depends on some member of `s`. */
  predicate DependsInto(g: Digraph, n: string, s: set<string>)
    requires n in g
  {
    exists d :: d in s && d in g[n]
  }

  /** If every node of `s` depends on a node of `s`, paths inside `s` have every length. */
  lemma {:induction false} WalkInside(g: Digraph, s: set<string>, start: string, k: nat) returns (p: seq<string>)
    requires start in s && s <= g.Keys
    requires forall n | n in s :: DependsInto(g, n, s)
    ensures IsPath(g, p) && |p| == k + 1 && p[0] == start && forall i | 0 <= i < |p| :: p[i] in s
    decreases k
  {
    if k == 0 {
      p := [start];
    } else {
      assert DependsInto(g, start, s);
      var d :| d in s && d in g[start];
      var rest := WalkInside(g, s, d, k - 1);
      p := [start] + rest;
      forall i | 0 <= i < |p| - 1 ensures Hop(g, p, i) {
        if i > 0 { assert Hop(g, rest, i - 1); }
      }
    }
  }

  /** Pigeonhole: a sequence longer than the set it draws from repeats. */
  lemma {:induction false} Repeats(p: seq<string>, s: set<string>) returns (i: nat, j: nat)
    requires |p| > |s| && forall i | 0 <= i < |p| :: p[i] in s
    ensures i < j < |p| && p[i] == p[j]
    decreases |p|
  {
    var last := p[|p| - 1];
    if k :| 0 <= k < |p| - 1 && p[k] == last {
      i, j := k, |p| - 1;
    } else {
      i, j := Repeats(p[..|p| - 1], s - {last});
    }
  }

  /** In an acyclic graph every non-empty set of nodes has one that depends on none of them. */
  lemma {:induction false} AcyclicHasSource(g: Digraph, s: set<string>) returns (n: string)
    requires !Cyclic(g) && s != {} && s <= g.Keys
    ensures n in s && !DependsInto(g, n, s)
  {
    if m :| m in s && !DependsInto(g, m, s) {
      n := m;
    } else {
      var start :| start in s;
      var p := WalkInside(g, s, start, |s|);
      var i, j := Repeats(p, s);
      var c := p[i..j + 1];
      assert IsCycle(g, c) by {
        PathSlice(g, p, i, j + 1);
      }
      assert false;
    }
  }

  lemma {:induction false} OrderOf(g: Digraph, s: set<string>) returns (order: seq<string>)
    requires !Cyclic(g) && s <= g.Keys
    ensures forall n :: n in order <==> n in s
    ensures forall i, j | 0 <= i < j < |order| :: order[i] != order[j]
    ensures forall i, d | 0 <= i < |order| && d in s && d in g[order[i]] :: d in order[..i]
    decreases |s|
  {
    if s == {} {
      order := [];
    } else {
      var n := AcyclicHasSource(g, s);
      var rest := OrderOf(g, s - {n});
      order := [n] + rest;
      assert forall d | d in s :: d !in g[n];
      forall i, d | 0 <= i < |order| && d in s && d in g[order[i]] ensures d in order[..i] {
        if i > 0 {
          assert order[..i] == [n] + rest[..i - 1];
          assert d != n ==> d in g[rest[i - 1]] && d in s - {n};
        }
      }
    }
  }

  /** An acyclic graph has a topological order. */
  lemma {:induction false} AcyclicIsOrdered(g: Digraph) returns (order: seq<string>)
    requires !Cyclic(g)
    ensures Topological(g, order)
  {
    order := OrderOf(g, g.Keys);
  }

  /** `g` with the first `n` of `keys` inserted; a repeated key keeps its last entry. */
  function Extended(g: Digraph, keys: seq<string>, deps: seq<seq<string>>, n: nat): (r: Digraph)
    requires n <= |keys| && n <= |deps|
    ensures forall k | k in g :: k in r
    ensures forall k | k in r :: k in g || k in keys
    ensures forall i | 0 <= i < n :: keys[i] in r
    decreases n
  {
    if n == 0 then g else Extended(g, keys, deps, n - 1)[keys[n - 1] := deps[n - 1]]
  }

  lemma {:induction false} ExtendedPrefix(
    g: Digraph, keys: seq<string>, deps: seq<seq<string>>, last: seq<string>, n: nat)
    requires n <= |keys| && n <= |deps|
    ensures Extended(g, keys, deps + [last], n) == Extended(g, keys, deps, n)
  {
    if n > 0 { ExtendedPrefix(g, keys, deps, last, n - 1); }
  }

  ghost predicate Distinct(keys: seq<string>) {
    forall i, j | 0 <= i < j < |keys| :: keys[i] != keys[j]
  }

  lemma {:induction false} ExtendedAt(g: Digraph, keys: seq<string>, deps: seq<seq<string>>, n: nat, i: nat)
    requires i < n <= |keys| && n <= |deps| && Distinct(keys)
    ensures Extended(g, keys, deps, n)[keys[i]] == deps[i]
  {
    if i < n - 1 {
      ExtendedAt(g, keys, deps, n - 1, i);
      assert keys[i] != keys[n - 1];
    }
  }

  /** A key that is given twice keeps the last entry. */
  lemma {:induction false} ExtendedLast(g: Digraph, keys: seq<string>, deps: seq<seq<string>>, n: nat, i: nat)
    requires i < n <= |keys| && n <= |deps| && forall j | i < j < n :: keys[j] != keys[i]
    ensures Extended(g, keys, deps, n)[keys[i]] == deps[i]
  {
    if i < n - 1 { ExtendedLast(g, keys, deps, n - 1, i); }
  }

  lemma {:induction false} ExtendedOutside(g: Digraph, keys: seq<string>, deps: seq<seq<string>>, n: nat, k: string)
    requires n <= |keys| && n <= |deps| && k in g && k !in keys
    ensures Extended(g, keys, deps, n)[k] == g[k]
  {
    if n > 0 { ExtendedOutside(g, keys, deps, n - 1, k); }
  }

  /** Every dependency names a node. */
  ghost predicate Closed(g: Digraph) {
    forall n, k | n in g && 0 <= k < |g[n]| :: g[n][k] in g
  }

  /** `d` is an old node, or the new name of a node that `p` has `keys[i]` depend on. */
  ghost predicate Grounded(g: Digraph, p: Digraph, keys: seq<string>, ids: seq<string>, i: nat, d: string)
    requires i < |keys| == |ids|
  {
    d in g || exists j :: 0 <= j < |ids| && ids[j] == d && Edge(p, keys[i], keys[j])
  }

  ghost function IndexOf(s: seq<string>, x: string): (i: nat)
    requires x in s
    ensures i < |s| && s[i] == x
  {
    var i: nat :| i < |s| && s[i] == x;
    i
  }

  /** Nothing leads from a closed set of nodes back out of it. */
  lemma {:induction false} PathStaysInside(r: Digraph, inside: set<string>, c: seq<string>, i: nat, j: nat)
    requires IsPath(r, c) && i <= j < |c| && c[i] in inside
    requires forall n, d | n in inside && Edge(r, n, d) :: d in inside
    ensures c[j] in inside
  {
    if i < j {
      PathStaysInside(r, inside, c, i, j - 1);
      assert Hop(r, c, j - 1);
    }
  }

  /** `r` adds to `g` the nodes `ids`, whose mutual dependencies copy those of `p`. */
  ghost predicate Extends(r: Digraph, g: Digraph, p: Digraph, keys: seq<string>, ids: seq<string>) {
    && |keys| == |ids| && Distinct(ids) && (forall n :: n in r <==> n in g || n in ids)
    && (forall n | n in g :: n !in ids && r[n] == g[n])
    && (forall i, d | 0 <= i < |ids| && d in r[ids[i]] :: Grounded(g, p, keys, ids, i, d))
  }

  lemma {:induction false} NewCycleIsCopied(
    r: Digraph, g: Digraph, p: Digraph, keys: seq<string>, ids: seq<string>, c: seq<string>)
    requires Extends(r, g, p, keys, ids) && IsCycle(r, c) && forall k | k in keys :: k in p
    requires forall k | 0 <= k < |c| :: c[k] !in g
    ensures Cyclic(p)
  {
    forall k | 0 <= k < |c| ensures c[k] in ids { PathNode(r, c, k); }
    var q := seq(|c|, k requires 0 <= k < |c| => keys[IndexOf(ids, c[k])]);
    forall k | 0 <= k < |q| - 1 ensures Hop(p, q, k) {
      assert Hop(r, c, k);
      var i := IndexOf(ids, c[k]);
      assert Grounded(g, p, keys, ids, i, c[k + 1]);
      var j :| 0 <= j < |ids| && ids[j] == c[k + 1] && Edge(p, keys[i], keys[j]);
      assert j == IndexOf(ids, c[k + 1]);
    }
    assert IsCycle(p, q);
  }

  /** Adding new nodes whose mutual dependencies copy an acyclic graph, and that
      otherwise depend on old nodes only, keeps a closed graph closed and acyclic. */
  lemma {:induction false} ExtensionIsAcyclic(r: Digraph, g: Digraph, p: Digraph, keys: seq<string>, ids: seq<string>)
    requires Extends(r, g, p, keys, ids) && !Cyclic(g) && Closed(g) && !Cyclic(p)
    requires forall k | k in keys :: k in p
    ensures !Cyclic(r) && Closed(r)
  {
    forall n, k | n in r && 0 <= k < |r[n]| ensures r[n][k] in r {
      if n in ids { assert Grounded(g, p, keys, ids, IndexOf(ids, n), r[n][k]); }
    }
    if c :| IsCycle(r, c) {
      if c[0] in g {
        forall j | 0 <= j < |c| ensures c[j] in g { PathStaysInside(r, g.Keys, c, 0, j); }
        forall k | 0 <= k < |c| - 1 ensures Hop(g, c, k) { assert Hop(r, c, k); }
        assert IsCycle(g, c);
      } else {
        forall k | 0 <= k < |c| ensures c[k] !in g {
          if c[k] in g { PathStaysInside(r, g.Keys, c, k, |c| - 1); }
        }
        NewCycleIsCopied(r, g, p, keys, ids, c);
      }
    }
  }

  /** `r` adds to a closed acyclic graph new nodes with the entries of `own`: its cycles are those of `own`. */
  lemma {:induction false} ExtensionCycles(r: Digraph, g: Digraph, own: Digraph)
    requires !Cyclic(g) && Closed(g) && (forall n :: n in r <==> n in g || n in own)
    requires forall n | n in g :: n !in own && r[n] == g[n]
    requires forall n | n in own :: r[n] == own[n]
    ensures Cyclic(r) <==> Cyclic(own)
  {
    if c :| IsCycle(own, c) {
      forall k | 0 <= k < |c| - 1 ensures Hop(r, c, k) { assert Hop(own, c, k); }
      assert IsCycle(r, c);
    }
    if c :| IsCycle(r, c) {
      if c[0] in g {
        forall j | 0 <= j < |c| ensures c[j] in g { PathStaysInside(r, g.Keys, c, 0, j); }
        forall k | 0 <= k < |c| - 1 ensures Hop(g, c, k) { assert Hop(r, c, k); }
        assert IsCycle(g, c);
      } else {
        forall k | 0 <= k < |c| ensures c[k] in own {
          PathNode(r, c, k);
          if c[k] in g { PathStaysInside(r, g.Keys, c, k, |c| - 1); }
        }
        forall k | 0 <= k < |c| - 1 ensures Hop(own, c, k) { assert Hop(r, c, k); }
        assert IsCycle(own, c);
      }
    }
  }
}

/** `reject_split_topology` (src/scheduler.rs): the depth-first validation of a
    proposed split's sibling dependencies. Siblings are numbered: the children that
    exist already come first, then the proposed subtasks. */
module SplitTopology {
  import opened Text
  import opened Contracts
  import opened Graph
  import opened Aliases

  datatype Rejection = UnknownSibling(dep: string) | DependencyCycle

  /** The validator's name for a subtask: its trimmed id, or `#n` when it has none. */
  function Key(c: Contract, i: nat): string {
    if Trim(c.id) == "" then "#" + Decimal(i + 1) else Trim(c.id)
  }

  /** A subtask can be named by its position, its two-digit position or its key. */
  function SubtaskSibling(c: Contract, i: nat): Sibling {
    Sibling(Key(c, i), [Decimal(i + 1), Pad2(i + 1), Key(c, i)])
  }

  /** An existing child can be named by its id or by its last id segment. */
  function ExistingSibling(id: string): Sibling {
    Sibling(id, [id, id, AfterLastDash(id)])
  }

  /** The keys of the first `n` subtasks. */
  function Keys(cs: seq<Contract>, n: nat): (r: seq<string>)
    requires n <= |cs|
    ensures |r| == n && forall i | 0 <= i < n :: r[i] == Key(cs[i], i)
    decreases n
  {
    if n == 0 then [] else Keys(cs, n - 1) + [Key(cs[n - 1], n - 1)]
  }

  function ExistingSiblings(existing: seq<string>, n: nat): (sibs: seq<Sibling>)
    requires n <= |existing|
    ensures |sibs| == n
    decreases n
  {
    if n == 0 then [] else ExistingSiblings(existing, n - 1) + [ExistingSibling(existing[n - 1])]
  }

  /** The siblings as the validator knows them: every existing child, then `n` subtasks. */
  function Known(cs: seq<Contract>, existing: seq<string>, n: nat): (sibs: seq<Sibling>)
    requires n <= |cs|
    ensures |sibs| == |existing| + n
    decreases n
  {
    if n == 0 then ExistingSiblings(existing, |existing|)
    else Known(cs, existing, n - 1) + [SubtaskSibling(cs[n - 1], n - 1)]
  }

  /** A dependency the validator refuses: not blank, and no sibling's alias. */
  predicate Unknown(sibs: seq<Sibling>, dep: string) {
    Trim(dep) != "" && Meaning(sibs, Trim(dep)).None?
  }

  /** One of the first `n` dependencies is unknown. */
  predicate AnyUnknown(sibs: seq<Sibling>, deps: seq<string>, n: nat)
    requires n <= |deps|
    decreases n
  {
    n > 0 && (Unknown(sibs, deps[n - 1]) || AnyUnknown(sibs, deps, n - 1))
  }

  predicate HasUnknown(sibs: seq<Sibling>, cs: seq<Contract>, n: nat)
    requires n <= |cs|
    decreases n
  {
    n > 0 && (AnyUnknown(sibs, cs[n - 1].dependsOn, |cs[n - 1].dependsOn|) || HasUnknown(sibs, cs, n - 1))
  }

  /** Some subtask has a dependency that is not blank and names no sibling. */
  lemma {:induction false} AnyUnknownMeans(sibs: seq<Sibling>, deps: seq<string>, n: nat)
    requires n <= |deps|
    ensures AnyUnknown(sibs, deps, n) <==> exists k :: 0 <= k < n && Unknown(sibs, deps[k])
  {
    if n > 0 { AnyUnknownMeans(sibs, deps, n - 1); }
  }

  /** `name` is a dependency of some subtask, trimmed, that no sibling goes by. */
  ghost predicate Blamed(sibs: seq<Sibling>, cs: seq<Contract>, name: string) {
    exists i, k :: 0 <= i < |cs| && 0 <= k < |cs[i].dependsOn|
      && Unknown(sibs, cs[i].dependsOn[k]) && name == Trim(cs[i].dependsOn[k])
  }

  lemma {:induction false} HasUnknownMeans(sibs: seq<Sibling>, cs: seq<Contract>, n: nat)
    requires n <= |cs|
    ensures HasUnknown(sibs, cs, n) <==>
      exists i, k :: 0 <= i < n && 0 <= k < |cs[i].dependsOn| && Unknown(sibs, cs[i].dependsOn[k])
  {
    if n > 0 {
      HasUnknownMeans(sibs, cs, n - 1);
      AnyUnknownMeans(sibs, cs[n - 1].dependsOn, |cs[n - 1].dependsOn|);
    }
  }

  /** The names that the first `n` dependencies resolve to, blank entries skipped. */
  function Resolved(sibs: seq<Sibling>, deps: seq<string>, n: nat): (r: seq<string>)
    requires n <= |deps|
    decreases n
  {
    if n == 0 then [] else
    var rest := Resolved(sibs, deps, n - 1);
    var m := Meaning(sibs, Trim(deps[n - 1]));
    if Trim(deps[n - 1]) == "" || m.None? then rest else rest + [sibs[m.value].name]
  }

  /** The resolved dependencies of the first `n` subtasks. */
  function ResolvedAll(sibs: seq<Sibling>, cs: seq<Contract>, n: nat): (r: seq<seq<string>>)
    requires n <= |cs|
    ensures |r| == n
    decreases n
  {
    if n == 0 then []
    else ResolvedAll(sibs, cs, n - 1) + [Resolved(sibs, cs[n - 1].dependsOn, |cs[n - 1].dependsOn|)]
  }

  /** Everyone the validator knows: the existing children and all the subtasks. */
  function AllKnown(cs: seq<Contract>, existing: seq<string>): seq<Sibling> { Known(cs, existing, |cs|) }

  /** Some subtask depends on a name nobody answers to. */
  predicate NamesUnknown(cs: seq<Contract>, existing: seq<string>) { HasUnknown(AllKnown(cs, existing), cs, |cs|) }

  function ProposedGraph(cs: seq<Contract>, existing: seq<string>): Digraph {
    Extended(map[], Keys(cs, |cs|), ResolvedAll(Known(cs, existing, |cs|), cs, |cs|), |cs|)
  }

  ghost predicate Accepted(cs: seq<Contract>, existing: seq<string>) {
    !NamesUnknown(cs, existing) && !Cyclic(ProposedGraph(cs, existing))
  }

  // ---- What the tables mean ----

  lemma {:induction false} ExistingAt(ids: seq<string>, n: nat, k: nat)
    requires k < n <= |ids|
    ensures ExistingSiblings(ids, n)[k] == ExistingSibling(ids[k])
  {
    if k < n - 1 { ExistingAt(ids, n - 1, k); }
  }

  lemma {:induction false} KnownAt(cs: seq<Contract>, existing: seq<string>, n: nat, k: nat)
    requires n <= |cs| && k < |existing| + n
    ensures Known(cs, existing, n)[k]
         == if k < |existing| then ExistingSibling(existing[k])
            else SubtaskSibling(cs[k - |existing|], k - |existing|)
  {
    if k < |existing| + n - 1 && n > 0 {
      KnownAt(cs, existing, n - 1, k);
    } else if n == 0 {
      ExistingAt(existing, |existing|, k);
    }
  }

  /** The validator's name for sibling `k`. */
  function NameAt(cs: seq<Contract>, existing: seq<string>, k: nat): string
    requires k < |existing| + |cs|
  {
    if k < |existing| then existing[k]
    else if Trim(cs[k - |existing|].id) != "" then Trim(cs[k - |existing|].id)
    else "#" + Decimal(k - |existing| + 1)
  }

  /** Sibling `k` goes by `d` in the validator's table. */
  predicate KnownClaim(cs: seq<Contract>, existing: seq<string>, k: nat, d: string)
    requires k < |existing| + |cs|
  {
    var i := k - |existing|;
    if i < 0 then d == existing[k] || d == AfterLastDash(existing[k])
    else d == Decimal(i + 1) || d == Pad2(i + 1) || d == NameAt(cs, existing, k)
  }

  lemma {:induction false} Listed(d: string, a: string, b: string, c: string)
    ensures d in [a, b, c] <==> d == a || d == b || d == c
    ensures forall x :: d in [x] + [a, b, c] <==> d == x || d == a || d == b || d == c
  {
  }

  lemma {:induction false} KnownClaims(cs: seq<Contract>, existing: seq<string>, k: nat, d: string)
    requires k < |existing| + |cs|
    ensures d in AllKnown(cs, existing)[k].aliases <==> KnownClaim(cs, existing, k, d)
  {
    KnownAt(cs, existing, |cs|, k);
    if k < |existing| {
      Listed(d, existing[k], existing[k], AfterLastDash(existing[k]));
    } else {
      var i := k - |existing|;
      Listed(d, Decimal(i + 1), Pad2(i + 1), Key(cs[i], i));
    }
  }

  lemma {:induction false} LastClaimIs(sibs: seq<Sibling>, n: nat, d: string, m: nat)
    requires m < n <= |sibs|
    ensures LastClaim(sibs, n, d) == Some(m)
       <==> d in sibs[m].aliases && forall j | m < j < n :: d !in sibs[j].aliases
  {
  }

  lemma {:induction false} ResolvedContains(sibs: seq<Sibling>, deps: seq<string>, n: nat, k: nat, m: nat)
    requires k < n <= |deps| && Trim(deps[k]) != "" && Meaning(sibs, Trim(deps[k])) == Some(m)
    ensures sibs[m].name in Resolved(sibs, deps, n)
  {
    if k < n - 1 { ResolvedContains(sibs, deps, n - 1, k, m); }
  }

  lemma {:induction false} KeysAt(cs: seq<Contract>, n: nat, i: nat)
    requires i < n <= |cs|
    ensures Keys(cs, n)[i] == Key(cs[i], i)
  {
  }

  lemma {:induction false} ResolvedAllAt(sibs: seq<Sibling>, cs: seq<Contract>, n: nat, i: nat)
    requires i < n <= |cs|
    ensures ResolvedAll(sibs, cs, n)[i] == Resolved(sibs, cs[i].dependsOn, |cs[i].dependsOn|)
  {
    if i < n - 1 { ResolvedAllAt(sibs, cs, n - 1, i); }
  }

  /** The sibling that `d` denotes: the last that goes by it. */
  ghost predicate Denotes(cs: seq<Contract>, existing: seq<string>, d: string, k: nat) {
    && k < |existing| + |cs| && KnownClaim(cs, existing, k, d)
    && forall j: nat | k < j < |existing| + |cs| :: !KnownClaim(cs, existing, j, d)
  }

  lemma {:induction false} MeaningDenotes(cs: seq<Contract>, existing: seq<string>, d: string, k: nat)
    ensures Meaning(AllKnown(cs, existing), d) == Some(k) <==> Denotes(cs, existing, d, k)
  {
    var known := AllKnown(cs, existing);
    forall j: nat | j < |known| ensures d in known[j].aliases <==> KnownClaim(cs, existing, j, d) {
      KnownClaims(cs, existing, j, d);
    }
    hide KnownClaim;
    if k < |known| { LastClaimIs(known, |known|, d, k); }
  }

  /** A dependency is refused exactly when it is not blank and no existing child and no subtask goes by it. */
  lemma {:induction false} UnknownMeans(cs: seq<Contract>, existing: seq<string>, dep: string)
    ensures Unknown(AllKnown(cs, existing), dep) <==>
      Trim(dep) != "" && forall j: nat | j < |existing| + |cs| :: !KnownClaim(cs, existing, j, Trim(dep))
  {
    var known := AllKnown(cs, existing);
    forall j: nat | j < |known|
      ensures Trim(dep) in known[j].aliases <==> KnownClaim(cs, existing, j, Trim(dep))
    {
      KnownClaims(cs, existing, j, Trim(dep));
    }
    hide KnownClaim;
  }

  /** So a split names an unknown sibling exactly when some dependency of some subtask is such a name. */
  lemma {:induction false} NamesUnknownMeans(cs: seq<Contract>, existing: seq<string>)
    ensures NamesUnknown(cs, existing) <==>
      exists i, k :: 0 <= i < |cs| && 0 <= k < |cs[i].dependsOn| && Trim(cs[i].dependsOn[k]) != ""
        && forall j: nat | j < |existing| + |cs| :: !KnownClaim(cs, existing, j, Trim(cs[i].dependsOn[k]))
  {
    HasUnknownMeans(AllKnown(cs, existing), cs, |cs|);
    hide HasUnknown, KnownClaim, Unknown;
    forall dep
      ensures Unknown(AllKnown(cs, existing), dep) <==>
        Trim(dep) != "" && forall j: nat | j < |existing| + |cs| :: !KnownClaim(cs, existing, j, Trim(dep))
    {
      UnknownMeans(cs, existing, dep);
    }
  }

  lemma {:induction false} ResolvedMeans(sibs: seq<Sibling>, deps: seq<string>, n: nat, v: string)
    requires n <= |deps|
    ensures v in Resolved(sibs, deps, n) <==> exists k :: 0 <= k < n && Names(sibs, deps[k], v)
  {
    if n > 0 { ResolvedMeans(sibs, deps, n - 1, v); }
  }

  /** The dependency is not blank and is an alias of a sibling called `v`. */
  ghost predicate Names(sibs: seq<Sibling>, dep: string, v: string) {
    Trim(dep) != "" && Meaning(sibs, Trim(dep)).Some? && sibs[Meaning(sibs, Trim(dep)).value].name == v
  }

  lemma {:induction false} NamesMeans(cs: seq<Contract>, existing: seq<string>, dep: string, v: string)
    ensures Names(AllKnown(cs, existing), dep, v) <==>
      Trim(dep) != "" && exists m: nat :: Denotes(cs, existing, Trim(dep), m) && NameAt(cs, existing, m) == v
  {
    hide Denotes, Meaning;
    var known := AllKnown(cs, existing);
    forall m: nat ensures Meaning(known, Trim(dep)) == Some(m) <==> Denotes(cs, existing, Trim(dep), m) {
      MeaningDenotes(cs, existing, Trim(dep), m);
    }
    forall m: nat | m < |known| ensures known[m].name == NameAt(cs, existing, m) { KnownAt(cs, existing, |cs|, m); }
  }

  lemma {:induction false} KeyAt(cs: seq<Contract>, existing: seq<string>, m: nat)
    requires |existing| <= m < |existing| + |cs|
    ensures Keys(cs, |cs|)[m - |existing|] == NameAt(cs, existing, m)
  {
  }

  lemma {:induction false} ProposedAt(cs: seq<Contract>, existing: seq<string>, keys: seq<string>, i: nat)
    requires keys == Keys(cs, |cs|) && i < |cs| && forall j | i < j < |cs| :: keys[j] != keys[i]
    ensures keys[i] in ProposedGraph(cs, existing)
    ensures ProposedGraph(cs, existing)[keys[i]] ==
      Resolved(AllKnown(cs, existing), cs[i].dependsOn, |cs[i].dependsOn|)
  {
    hide Resolved, ResolvedAll, Known, Keys;
    ExtendedLast(map[], keys, ResolvedAll(Known(cs, existing, |cs|), cs, |cs|), |cs|, i);
    ResolvedAllAt(Known(cs, existing, |cs|), cs, |cs|, i);
  }

  lemma {:induction false} ProposedList(cs: seq<Contract>, existing: seq<string>, u: nat)
    requires |existing| <= u < |existing| + |cs|
    requires forall m: nat | u < m < |existing| + |cs| :: NameAt(cs, existing, m) != NameAt(cs, existing, u)
    ensures NameAt(cs, existing, u) in ProposedGraph(cs, existing)
    ensures ProposedGraph(cs, existing)[NameAt(cs, existing, u)] ==
      Resolved(AllKnown(cs, existing), cs[u - |existing|].dependsOn, |cs[u - |existing|].dependsOn|)
  {
    hide Resolved, NameAt, ProposedGraph, AllKnown;
    var i, keys := u - |existing|, Keys(cs, |cs|);
    KeyAt(cs, existing, u);
    forall j | i < j < |cs| ensures keys[j] != keys[i] {
      KeyAt(cs, existing, |existing| + j);
      assert NameAt(cs, existing, |existing| + j) != NameAt(cs, existing, u);
    }
    ProposedAt(cs, existing, keys, i);
  }

  lemma {:induction false} ListMeans(cs: seq<Contract>, existing: seq<string>, deps: seq<string>, v: string)
    ensures v in Resolved(AllKnown(cs, existing), deps, |deps|) <==>
      exists d, m: nat :: d in deps && Trim(d) != ""
                       && Denotes(cs, existing, Trim(d), m) && NameAt(cs, existing, m) == v
  {
    hide Names, Resolved, NameAt, AllKnown, Trim, KnownClaim;
    var known := AllKnown(cs, existing);
    ResolvedMeans(known, deps, |deps|, v);
    forall d
      ensures Names(known, d, v) <==>
        Trim(d) != "" && exists m: nat :: Denotes(cs, existing, Trim(d), m) && NameAt(cs, existing, m) == v
    {
      NamesMeans(cs, existing, d, v);
    }
    assert (exists d :: d in deps && Names(known, d, v)) <==> exists k :: 0 <= k < |deps| && Names(known, deps[k], v);
  }

  /** The proposed graph, edge by edge: its nodes are the subtasks' names, and a subtask, or the last one of its
      name, leads to the names of what its dependencies denote. */
  lemma {:induction false} ProposedMeans(cs: seq<Contract>, existing: seq<string>, u: nat, v: string)
    requires |existing| <= u < |existing| + |cs|
    requires forall m: nat | u < m < |existing| + |cs| :: NameAt(cs, existing, m) != NameAt(cs, existing, u)
    ensures NameAt(cs, existing, u) in ProposedGraph(cs, existing)
    ensures v in ProposedGraph(cs, existing)[NameAt(cs, existing, u)] <==>
      exists d, m: nat :: d in cs[u - |existing|].dependsOn && Trim(d) != ""
                       && Denotes(cs, existing, Trim(d), m) && NameAt(cs, existing, m) == v
  {
    hide Denotes, Resolved, NameAt, ProposedGraph;
    ProposedList(cs, existing, u);
    ListMeans(cs, existing, cs[u - |existing|].dependsOn, v);
  }

  lemma {:induction false} ProposedKeys(cs: seq<Contract>, existing: seq<string>, u: string)
    ensures u in ProposedGraph(cs, existing) <==>
      exists m: nat :: |existing| <= m < |existing| + |cs| && NameAt(cs, existing, m) == u
  {
    hide NameAt, Known, ResolvedAll;
    var keys := Keys(cs, |cs|);
    forall m: nat | |existing| <= m < |existing| + |cs| ensures NameAt(cs, existing, m) in keys {
      KeyAt(cs, existing, m);
    }
    if u in keys {
      var i: nat :| i < |keys| && keys[i] == u;
      KeyAt(cs, existing, |existing| + i);
    }
    KeysOnly(map[], keys, ResolvedAll(Known(cs, existing, |cs|), cs, |cs|), |cs|, u);
  }

  lemma {:induction false} KeysOnly(g: Digraph, keys: seq<string>, deps: seq<seq<string>>, n: nat, u: string)
    requires n <= |keys| && n <= |deps|
    ensures u in Extended(g, keys, deps, n) <==> u in g || u in keys[..n]
  {
    if n > 0 { KeysOnly(g, keys, deps, n - 1, u); }
  }

  // ---- The validator ----

  method CanonicalTable(cs: seq<Contract>, existing: seq<string>)
    returns (table: map<string, string>, keys: seq<string>)
    ensures Describes(table, Known(cs, existing, |cs|))
    ensures keys == Keys(cs, |cs|)
  {
    table, keys := map[], [];
    for i := 0 to |existing|
      invariant Describes(table, ExistingSiblings(existing, i))
    {
      var s := ExistingSibling(existing[i]);
      Insert(table, ExistingSiblings(existing, i), s);
      table := table[s.aliases[0] := s.name][s.aliases[1] := s.name][s.aliases[2] := s.name];
    }
    for i := 0 to |cs|
      invariant Describes(table, Known(cs, existing, i))
      invariant keys == Keys(cs, i)
    {
      var s := SubtaskSibling(cs[i], i);
      Insert(table, Known(cs, existing, i), s);
      table := table[s.aliases[0] := s.name][s.aliases[1] := s.name][s.aliases[2] := s.name];
      keys := keys + [s.name];
    }
  }

  method ResolveDependencies(table: map<string, string>, names: seq<string>, ghost sibs: seq<Sibling>)
    returns (unknown: Option<string>, deps: seq<string>)
    requires Describes(table, sibs)
    ensures unknown.None? <==> !AnyUnknown(sibs, names, |names|)
    ensures unknown.None? ==> deps == Resolved(sibs, names, |names|)
    ensures unknown.Some? ==> exists k :: 0 <= k < |names| && Unknown(sibs, names[k]) && unknown.value == Trim(names[k])
  {
    deps := [];
    for j := 0 to |names|
      invariant !AnyUnknown(sibs, names, j)
      invariant deps == Resolved(sibs, names, j)
    {
      var dep := Trim(names[j]);
      assert LookupAgrees(table, sibs, dep);
      if dep != "" {
        if dep !in table {
          AnyUnknownMeans(sibs, names, |names|);
          return Some(dep), deps;
        }
        deps := deps + [table[dep]];
      }
    }
    unknown := None;
  }

  lemma {:induction false} NoListYet(sibs: seq<Sibling>, cs: seq<Contract>, keys: seq<string>)
    requires |cs| == |keys|
    ensures !HasUnknown(sibs, cs, 0) && Extended(map[], keys, ResolvedAll(sibs, cs, 0), 0) == map[]
  {
  }

  lemma {:induction false} OneMoreList(
    sibs: seq<Sibling>, cs: seq<Contract>, keys: seq<string>, deps: seq<string>, i: nat, j: nat)
    requires j == i + 1 && j <= |cs| == |keys| && deps == Resolved(sibs, cs[i].dependsOn, |cs[i].dependsOn|)
    ensures Extended(map[], keys, ResolvedAll(sibs, cs, j), j) ==
      Extended(map[], keys, ResolvedAll(sibs, cs, i), i)[keys[i] := deps]
    ensures HasUnknown(sibs, cs, j) <==>
      AnyUnknown(sibs, cs[i].dependsOn, |cs[i].dependsOn|) || HasUnknown(sibs, cs, i)
  {
    hide Resolved, AnyUnknown;
    ExtendedPrefix(map[], keys, ResolvedAll(sibs, cs, i), deps, i);
  }

  lemma {:induction false} IsBlamed(sibs: seq<Sibling>, cs: seq<Contract>, i: nat, name: string)
    requires i < |cs|
    requires exists k ::
      0 <= k < |cs[i].dependsOn| && Unknown(sibs, cs[i].dependsOn[k]) && name == Trim(cs[i].dependsOn[k])
    ensures Blamed(sibs, cs, name)
  {
  }

  method ProposedEdges(cs: seq<Contract>, table: map<string, string>, keys: seq<string>, ghost sibs: seq<Sibling>)
    returns (unknown: Option<string>, edges: Digraph)
    requires Describes(table, sibs) && |keys| == |cs|
    ensures unknown.None? ==>
      !HasUnknown(sibs, cs, |cs|) && edges == Extended(map[], keys, ResolvedAll(sibs, cs, |cs|), |cs|)
    ensures unknown.Some? ==> Blamed(sibs, cs, unknown.value)
  {
    hide Resolved, ResolvedAll, AnyUnknown, HasUnknown, Unknown, Blamed, Describes, Extended, Trim;
    edges := map[];
    NoListYet(sibs, cs, keys);
    for i := 0 to |cs|
      invariant !HasUnknown(sibs, cs, i)
      invariant edges == Extended(map[], keys, ResolvedAll(sibs, cs, i), i)
    {
      var deps;
      unknown, deps := ResolveDependencies(table, cs[i].dependsOn, sibs);
      if unknown.Some? {
        IsBlamed(sibs, cs, i, unknown.value);
        return;
      }
      OneMoreList(sibs, cs, keys, deps, i, i + 1);
      edges := edges[keys[i] := deps];
    }
    unknown := None;
  }

  /** The two mutable sets of the depth-first search. `trail` is the recursion's
      current path and `finished` the order in which nodes were done. */
  class Search {
    var visiting: set<string>
    var done: set<string>
    ghost var trail: seq<string>
    ghost var finished: seq<string>

    constructor ()
      ensures visiting == {} && done == {} && trail == [] && finished == []
    {
      visiting, done, trail, finished := {}, {}, [], [];
    }

    ghost predicate Valid(g: Digraph)
      reads this
    {
      && visiting <= g.Keys && done <= g.Keys && visiting !! done
      && (forall n :: n in visiting <==> n in trail)
      && (trail != [] ==> IsPath(g, trail))
      && (forall n :: n in done <==> n in finished)
      && DependenciesFirst(g, finished)
    }

    /** Reports a cycle only if there is one; otherwise `node` is done, everything
        it depends on was done before it, and the search path is restored. */
    method Visit(g: Digraph, node: string) returns (cycle: bool)
      requires node in g && Valid(g)
      requires trail != [] ==> Edge(g, trail[|trail| - 1], node)
      modifies this
      ensures cycle ==> Cyclic(g)
      ensures !cycle ==> Valid(g) && node in done
      ensures !cycle ==> trail == old(trail) && visiting == old(visiting) && old(done) <= done
      decreases g.Keys - visiting
    {
      if node in done { return false; }
      if node in visiting {
        ClosesCycle(g, trail, node);
        return true;
      }
      ghost var stack := trail;
      visiting, trail := visiting + {node}, trail + [node];
      ExtendsTrail(g, stack, node);
      var deps := g[node];
      for k := 0 to |deps|
        invariant Valid(g) && trail == stack + [node] && visiting == old(visiting) + {node}
        invariant old(done) <= done && node !in done
        invariant forall j | 0 <= j < k && deps[j] in g :: deps[j] in done
      {
        if deps[k] in g {
          var found := Visit(g, deps[k]);
          if found { return true; }
        }
      }
      visiting, trail := visiting - {node}, stack;
      FinishLast(g, finished, node);
      done, finished := done + {node}, finished + [node];
      cycle := false;
    }
  }

  lemma {:induction false} FinishLast(g: Digraph, finished: seq<string>, node: string)
    requires DependenciesFirst(g, finished) && node !in finished && node in g
    requires forall d | Edge(g, node, d) :: d in finished
    ensures DependenciesFirst(g, finished + [node])
  {
    var order := finished + [node];
    forall i, d | 0 <= i < |order| && Edge(g, order[i], d) ensures d in order[..i] {
      assert order[..i] == finished[..i];
      assert i == |finished| ==> order[..i] == finished;
    }
  }

  lemma {:induction false} ExtendsTrail(g: Digraph, stack: seq<string>, node: string)
    requires node in g && (stack != [] ==> IsPath(g, stack) && Edge(g, stack[|stack| - 1], node))
    ensures IsPath(g, stack + [node])
  {
    var p := stack + [node];
    forall i | 0 <= i < |p| - 1 ensures Hop(g, p, i) {
      if i < |stack| - 1 { assert Hop(g, stack, i); }
    }
  }

  lemma {:induction false} ClosesCycle(g: Digraph, stack: seq<string>, node: string)
    requires node in g && node in stack && IsPath(g, stack) && Edge(g, stack[|stack| - 1], node)
    ensures Cyclic(g)
  {
    var i :| 0 <= i < |stack| && stack[i] == node;
    ExtendsTrail(g, stack, node);
    var p := stack + [node];
    PathSlice(g, p, i, |p|);
    assert IsCycle(g, p[i..|p|]);
  }

  /** The verdict of the validator, on every list of subtasks and existing children:
      it names an unknown sibling if and only if there is one, it reports a cycle if
      and only if every name is known and the proposed graph has one, and it accepts
      in all other cases. */
  method RejectSplitTopology(cs: seq<Contract>, existing: seq<string>) returns (r: Option<Rejection>)
    ensures NamesUnknown(cs, existing) <==> r.Some? && r.value.UnknownSibling?
    ensures r.Some? && r.value.UnknownSibling? <==>
      exists i, k :: 0 <= i < |cs| && 0 <= k < |cs[i].dependsOn| && Trim(cs[i].dependsOn[k]) != ""
        && forall j: nat | j < |existing| + |cs| :: !KnownClaim(cs, existing, j, Trim(cs[i].dependsOn[k]))
    ensures r.Some? && r.value.UnknownSibling? ==> Blamed(AllKnown(cs, existing), cs, r.value.dep)
    ensures r == Some(DependencyCycle) <==> !NamesUnknown(cs, existing) && Cyclic(ProposedGraph(cs, existing))
    ensures r == None <==> Accepted(cs, existing)
  {
    ghost var sibs := Known(cs, existing, |cs|);
    var table, keys := CanonicalTable(cs, existing);
    var unknown, edges := ProposedEdges(cs, table, keys, sibs);
    HasUnknownMeans(sibs, cs, |cs|);
    NamesUnknownMeans(cs, existing);
    if unknown.Some? { return Some(UnknownSibling(unknown.value)); }
    var cycle := FindCycle(edges, keys);
    return if cycle then Some(DependencyCycle) else None;
  }

  /** The search from every key decides cyclicity. */
  method FindCycle(g: Digraph, keys: seq<string>) returns (cycle: bool)
    requires forall k :: k in g <==> k in keys
    ensures cycle <==> Cyclic(g)
  {
    var search := new Search();
    for i := 0 to |keys|
      invariant fresh(search) && search.Valid(g) && search.trail == []
      invariant forall k | 0 <= k < i :: keys[k] in search.done
    {
      var found := search.Visit(g, keys[i]);
      if found { return true; }
    }
    OrderedIsAcyclic(g, search.finished);
    return false;
  }
}

/** The second, independent resolution of a split's dependency names, in
    `add_children` (src/store.rs), and its agreement with the validator's. */
module Splits {
  import opened Text
  import opened Contracts
  import opened Graph
  import opened Aliases
  import opened SplitTopology

  function ChildId(parent: string, k: nat): string {
    parent + "-" + Pad2(k)
  }

  /** The ids of the `n` children that follow a parent's first `e`. */
  function ChildIds(parent: string, e: nat, n: nat): (ids: seq<string>)
    ensures |ids| == n
    decreases n
  {
    if n == 0 then [] else ChildIds(parent, e, n - 1) + [ChildId(parent, e + n)]
  }

  /** A new child answers to its generated id, its positions, and its raw id if it has one. */
  function StoredSibling(c: Contract, parent: string, e: nat, i: nat): Sibling {
    var cid := ChildId(parent, e + i + 1);
    Sibling(cid, (if c.id == "" then [] else [c.id]) + [Decimal(i + 1), Pad2(i + 1), cid])
  }

  /** The siblings as the store knows them: every existing child, then the first `n` new ones. */
  function StoredSiblings(cs: seq<Contract>, parent: string, existing: seq<string>, n: nat): (sibs: seq<Sibling>)
    requires n <= |cs|
    ensures |sibs| == |existing| + n
    decreases n
  {
    if n == 0 then ExistingSiblings(existing, |existing|)
    else StoredSiblings(cs, parent, existing, n - 1) + [StoredSibling(cs[n - 1], parent, |existing|, n - 1)]
  }

  /** A name that resolves to nothing is kept as it is. */
  function Stored(sibs: seq<Sibling>, dep: string): string {
    var m := Meaning(sibs, dep);
    if m.Some? then sibs[m.value].name else dep
  }

  function StoredDeps(sibs: seq<Sibling>, deps: seq<string>, n: nat): (r: seq<string>)
    requires n <= |deps|
    ensures |r| == n && forall k | 0 <= k < n :: r[k] == Stored(sibs, deps[k])
    decreases n
  {
    if n == 0 then [] else StoredDeps(sibs, deps, n - 1) + [Stored(sibs, deps[n - 1])]
  }

  /** The resolved dependencies of the first `n` subtasks. */
  function StoredSplit(sibs: seq<Sibling>, cs: seq<Contract>, n: nat): (r: seq<seq<string>>)
    requires n <= |cs|
    ensures |r| == n
    decreases n
  {
    if n == 0 then []
    else StoredSplit(sibs, cs, n - 1) + [StoredDeps(sibs, cs[n - 1].dependsOn, |cs[n - 1].dependsOn|)]
  }

  /** Everyone the resolver knows once the split is stored. */
  function AfterStoring(cs: seq<Contract>, parent: string, existing: seq<string>): seq<Sibling> {
    StoredSiblings(cs, parent, existing, |cs|)
  }

  /** `id_map`: the existing children's aliases, then each new child's; later claims win. */
  method IdMap(cs: seq<Contract>, parent: string, existing: seq<string>) returns (table: map<string, string>)
    ensures Describes(table, AfterStoring(cs, parent, existing))
  {
    table := map[];
    for i := 0 to |existing|
      invariant Describes(table, ExistingSiblings(existing, i))
    {
      var s := ExistingSibling(existing[i]);
      Insert(table, ExistingSiblings(existing, i), s);
      table := table[s.aliases[0] := s.name][s.aliases[1] := s.name][s.aliases[2] := s.name];
    }
    for i := 0 to |cs|
      invariant Describes(table, StoredSiblings(cs, parent, existing, i))
    {
      ghost var known := StoredSiblings(cs, parent, existing, i);
      var s := StoredSibling(cs[i], parent, |existing|, i);
      if cs[i].id != "" {
        InsertFour(table, known, s);
        table := table[s.aliases[0] := s.name][s.aliases[1] := s.name][s.aliases[2] := s.name][s.aliases[3] := s.name];
      } else {
        Insert(table, known, s);
        table := table[s.aliases[0] := s.name][s.aliases[1] := s.name][s.aliases[2] := s.name];
      }
    }
  }

  method ResolveNames(table: map<string, string>, names: seq<string>, ghost sibs: seq<Sibling>)
    returns (resolved: seq<string>)
    requires Describes(table, sibs)
    ensures resolved == StoredDeps(sibs, names, |names|)
  {
    resolved := [];
    for j := 0 to |names|
      invariant resolved == StoredDeps(sibs, names, j)
    {
      assert LookupAgrees(table, sibs, names[j]);
      resolved := resolved + [if names[j] in table then table[names[j]] else names[j]];
    }
  }

  /** What the split's children are stored with: one list of resolved dependencies each. */
  function StoredLists(cs: seq<Contract>, parent: string, existing: seq<string>): (r: seq<seq<string>>)
    ensures |r| == |cs|
  {
    StoredSplit(AfterStoring(cs, parent, existing), cs, |cs|)
  }

  // ---- What the store makes of a name ----

  /** The id that sibling `k` has once the split is stored. */
  function IdAt(parent: string, existing: seq<string>, k: nat): string {
    if k < |existing| then existing[k] else ChildId(parent, k + 1)
  }

  /** Sibling `k` goes by `d` in the store's table. */
  predicate StoredClaim(cs: seq<Contract>, parent: string, existing: seq<string>, k: nat, d: string)
    requires k < |existing| + |cs|
  {
    var i := k - |existing|;
    if i < 0 then d == existing[k] || d == AfterLastDash(existing[k])
    else (d != "" && d == cs[i].id) || d == Decimal(i + 1) || d == Pad2(i + 1) || d == ChildId(parent, k + 1)
  }

  lemma {:induction false} StoredClaims(cs: seq<Contract>, parent: string, existing: seq<string>, k: nat, d: string)
    requires k < |existing| + |cs|
    ensures d in AfterStoring(cs, parent, existing)[k].aliases <==> StoredClaim(cs, parent, existing, k, d)
  {
    hide StoredSiblings, Decimal, Pad2, AfterLastDash, ChildId;
    StoredAt(cs, parent, existing, |cs|, k);
    if k < |existing| {
      Listed(d, existing[k], existing[k], AfterLastDash(existing[k]));
    } else {
      var i := k - |existing|;
      Listed(d, Decimal(i + 1), Pad2(i + 1), ChildId(parent, k + 1));
      if cs[i].id == "" {
        assert StoredSibling(cs[i], parent, |existing|, i).aliases
            == [Decimal(i + 1), Pad2(i + 1), ChildId(parent, k + 1)];
      }
    }
  }

  lemma {:induction false} ChildIdsAt(parent: string, e: nat, n: nat, k: nat)
    requires k < n
    ensures ChildIds(parent, e, n)[k] == ChildId(parent, e + k + 1)
  {
    if k < n - 1 { ChildIdsAt(parent, e, n - 1, k); }
  }

  lemma {:induction false} StoredAt(cs: seq<Contract>, parent: string, existing: seq<string>, n: nat, k: nat)
    requires n <= |cs| && k < |existing| + n
    ensures StoredSiblings(cs, parent, existing, n)[k]
         == if k < |existing| then ExistingSibling(existing[k])
            else StoredSibling(cs[k - |existing|], parent, |existing|, k - |existing|)
  {
    if k < |existing| + n - 1 && n > 0 {
      StoredAt(cs, parent, existing, n - 1, k);
    } else if n == 0 {
      ExistingAt(existing, |existing|, k);
    }
  }

  lemma {:induction false} StoredSplitAt(sibs: seq<Sibling>, cs: seq<Contract>, n: nat, i: nat)
    requires i < n <= |cs|
    ensures StoredSplit(sibs, cs, n)[i] == StoredDeps(sibs, cs[i].dependsOn, |cs[i].dependsOn|)
  {
    if i < n - 1 { StoredSplitAt(sibs, cs, n - 1, i); }
  }

  /** The sibling that the store takes `d` for: the last that goes by it. */
  ghost predicate TakenFor(cs: seq<Contract>, parent: string, existing: seq<string>, d: string, k: nat) {
    && k < |existing| + |cs| && StoredClaim(cs, parent, existing, k, d)
    && forall j: nat | k < j < |existing| + |cs| :: !StoredClaim(cs, parent, existing, j, d)
  }

  /** What a dependency is stored as: the id of the sibling it is taken for, itself when there is none. */
  ghost predicate IsWritten(cs: seq<Contract>, parent: string, existing: seq<string>, d: string, written: string) {
    && (forall k: nat | TakenFor(cs, parent, existing, d, k) :: written == IdAt(parent, existing, k))
    && ((forall k: nat | k < |existing| + |cs| :: !StoredClaim(cs, parent, existing, k, d)) ==> written == d)
  }

  ghost predicate IsStoredAs(
    cs: seq<Contract>, parent: string, existing: seq<string>, deps: seq<string>, stored: seq<string>)
  {
    |stored| == |deps| && forall k | 0 <= k < |deps| :: IsWritten(cs, parent, existing, deps[k], stored[k])
  }

  lemma {:induction false} StoredMeans(cs: seq<Contract>, parent: string, existing: seq<string>, d: string)
    ensures IsWritten(cs, parent, existing, d, Stored(AfterStoring(cs, parent, existing), d))
  {
    var sibs := AfterStoring(cs, parent, existing);
    forall k: nat | k < |sibs|
      ensures d in sibs[k].aliases <==> StoredClaim(cs, parent, existing, k, d)
      ensures sibs[k].name == IdAt(parent, existing, k)
    {
      StoredClaims(cs, parent, existing, k, d);
      StoredAt(cs, parent, existing, |cs|, k);
    }
    hide StoredClaim, IdAt, StoredSiblings;
    forall k: nat | TakenFor(cs, parent, existing, d, k) ensures Meaning(sibs, d) == Some(k) {
      LastClaimIs(sibs, |sibs|, d, k);
    }
  }

  lemma {:induction false} ListsAreStored(cs: seq<Contract>, parent: string, existing: seq<string>)
    ensures forall i | 0 <= i < |cs| ::
      IsStoredAs(cs, parent, existing, cs[i].dependsOn, StoredLists(cs, parent, existing)[i])
  {
    hide AfterStoring, IsWritten;
    forall i | 0 <= i < |cs|
      ensures IsStoredAs(cs, parent, existing, cs[i].dependsOn, StoredLists(cs, parent, existing)[i])
    {
      StoredSplitAt(AfterStoring(cs, parent, existing), cs, |cs|, i);
      forall d ensures IsWritten(cs, parent, existing, d, Stored(AfterStoring(cs, parent, existing), d)) {
        StoredMeans(cs, parent, existing, d);
      }
    }
  }

  lemma {:induction false} IdsAreNumbered(parent: string, e: nat, n: nat)
    ensures forall i | 0 <= i < n :: ChildIds(parent, e, n)[i] == parent + "-" + Pad2(e + i + 1)
  {
    forall i: nat | i < n ensures ChildIds(parent, e, n)[i] == parent + "-" + Pad2(e + i + 1) {
      ChildIdsAt(parent, e, n, i);
    }
  }

  /** The ids and resolved dependencies of the children a split creates. */
  method ResolveChildren(cs: seq<Contract>, parent: string, existing: seq<string>)
    returns (ids: seq<string>, deps: seq<seq<string>>)
    ensures ids == ChildIds(parent, |existing|, |cs|)
    ensures deps == StoredLists(cs, parent, existing)
    ensures |ids| == |cs| && forall i | 0 <= i < |cs| :: ids[i] == parent + "-" + Pad2(|existing| + i + 1)
    ensures |deps| == |cs| && forall i | 0 <= i < |cs| :: IsStoredAs(cs, parent, existing, cs[i].dependsOn, deps[i])
  {
    ghost var sibs := AfterStoring(cs, parent, existing);
    var table := IdMap(cs, parent, existing);
    ids := GenerateIds(parent, |existing|, |cs|);
    deps := [];
    for i := 0 to |cs|
      invariant deps == StoredSplit(sibs, cs, i)
    {
      var resolved := ResolveNames(table, cs[i].dependsOn, sibs);
      deps := deps + [resolved];
    }
    ListsAreStored(cs, parent, existing);
    IdsAreNumbered(parent, |existing|, |cs|);
  }

  method GenerateIds(parent: string, e: nat, n: nat) returns (ids: seq<string>)
    ensures ids == ChildIds(parent, e, n)
  {
    ids := [];
    for i := 0 to n
      invariant ids == ChildIds(parent, e, i)
    {
      ids := ids + [ChildId(parent, e + (i + 1))];
    }
  }

  lemma {:induction false} ChildIdShape(parent: string, k: nat)
    ensures '-' in ChildId(parent, k) && AfterLastDash(ChildId(parent, k)) == Pad2(k)
    ensures NoWhite(parent) ==> NoWhite(ChildId(parent, k)) && Trim(ChildId(parent, k)) == ChildId(parent, k)
  {
    NumbersArePlain(k);
    AfterLastDashOf(parent, Pad2(k));
    assert ChildId(parent, k)[|parent|] == '-';
    if NoWhite(parent) { NoWhiteIsTrimmed(ChildId(parent, k)); }
  }

  lemma {:induction false} ChildIdInjective(parent: string, j: nat, k: nat)
    requires ChildId(parent, j) == ChildId(parent, k)
    ensures j == k
  {
    ChildIdShape(parent, j);
    ChildIdShape(parent, k);
    Pad2Injective(j, k);
  }

  /** The dependency is written as its target is: an existing child's alias without
      surrounding space, a subtask's raw id, or one of its two position numbers. */
  predicate Spelled(cs: seq<Contract>, e: nat, target: nat, dep: string)
    requires target < e + |cs|
  {
    if target < e then dep == Trim(dep)
    else dep == Decimal(target - e + 1) || dep == Pad2(target - e + 1) || dep == cs[target - e].id
  }

  /** No later child of the split is about to be given the dependency's text as its id. */
  predicate Unclaimed(cs: seq<Contract>, parent: string, e: nat, target: nat, dep: string) {
    forall n | target + 1 < n <= e + |cs| && e < n :: dep != ChildId(parent, n)
  }

  /** What a caller can check of a dependency whose target the validator knows: it is spelled as the target
      is, or is the id the target will have, and no later child takes that text as its id. */
  predicate Agreed(cs: seq<Contract>, parent: string, e: nat, target: nat, dep: string)
    requires target < e + |cs|
  {
    && (Spelled(cs, e, target, dep) || (target >= e && dep == ChildId(parent, target + 1)))
    && Unclaimed(cs, parent, e, target, dep)
  }

  /** Node ids contain no white space (see `Runs.GeneratedIdsArePlain`). */
  predicate PlainIds(parent: string, existing: seq<string>) {
    NoWhite(parent) && forall k | 0 <= k < |existing| :: NoWhite(existing[k])
  }

  lemma {:induction false} SegmentIsPlain(s: string)
    requires NoWhite(s)
    ensures NoWhite(AfterLastDash(s))
  {
    if s != "" && s[|s| - 1] != '-' { SegmentIsPlain(s[..|s| - 1]); }
  }

  lemma {:induction false} NumbersAreTrimmed(n: nat)
    ensures Trim(Decimal(n)) == Decimal(n) && Trim(Pad2(n)) == Pad2(n)
  {
    NumbersArePlain(n);
    NoWhiteIsTrimmed(Decimal(n));
    NoWhiteIsTrimmed(Pad2(n));
  }

  lemma {:induction false} ExistingClaimsAgree(
    cs: seq<Contract>, parent: string, existing: seq<string>, k: nat, dep: string)
    requires PlainIds(parent, existing) && k < |existing|
    ensures StoredClaim(cs, parent, existing, k, dep) <==> KnownClaim(cs, existing, k, Trim(dep)) && dep == Trim(dep)
  {
    TrimIdempotent(dep);
    NoWhiteIsTrimmed(existing[k]);
    SegmentIsPlain(existing[k]);
    NoWhiteIsTrimmed(AfterLastDash(existing[k]));
  }

  /** A new child that the store takes for `dep` is one the validator takes for its trimmed text, or is
      about to be given it as its id. */
  lemma {:induction false} NewClaimIsKnown(
    cs: seq<Contract>, parent: string, existing: seq<string>, k: nat, dep: string)
    requires |existing| <= k < |existing| + |cs| && Trim(dep) != ""
    requires StoredClaim(cs, parent, existing, k, dep)
    ensures KnownClaim(cs, existing, k, Trim(dep)) || dep == ChildId(parent, k + 1)
  {
    NumbersAreTrimmed(k - |existing| + 1);
  }

  /** What the validator takes a dependency for, the store takes it for exactly when it is spelled as its
      target is, or as the id the target gets. */
  lemma {:induction false} TargetClaim(
    cs: seq<Contract>, parent: string, existing: seq<string>, m: nat, dep: string)
    requires PlainIds(parent, existing) && m < |existing| + |cs| && Trim(dep) != ""
    requires KnownClaim(cs, existing, m, Trim(dep))
    ensures StoredClaim(cs, parent, existing, m, dep)
       <==> Spelled(cs, |existing|, m, dep) || (m >= |existing| && dep == ChildId(parent, m + 1))
  {
    if m < |existing| { ExistingClaimsAgree(cs, parent, existing, m, dep); }
  }

  /** Behind the validator's choice only an id about to be given can claim the dependency. */
  lemma {:induction false} LaterClaim(
    cs: seq<Contract>, parent: string, existing: seq<string>, dep: string, m: nat, j: nat)
    requires PlainIds(parent, existing) && Trim(dep) != "" && m < j < |existing| + |cs|
    requires Meaning(AllKnown(cs, existing), Trim(dep)) == Some(m)
    ensures dep in AfterStoring(cs, parent, existing)[j].aliases
       <==> j >= |existing| && dep == ChildId(parent, j + 1)
  {
    StoredClaims(cs, parent, existing, j, dep);
    KnownClaims(cs, existing, j, Trim(dep));
    if j < |existing| {
      ExistingClaimsAgree(cs, parent, existing, j, dep);
    } else if StoredClaim(cs, parent, existing, j, dep) {
      NewClaimIsKnown(cs, parent, existing, j, dep);
    }
  }

  /** The main result on names: whatever the subtasks are called, the two resolutions of a dependency that
      the validator knows agree if and only if it is spelled as its target is, or is the id its target will
      have, and no later child of the split is given that very text as its id. */
  lemma {:induction false} NamingAgrees(
    cs: seq<Contract>, parent: string, existing: seq<string>, dep: string, m: nat)
    requires PlainIds(parent, existing) && Trim(dep) != ""
    requires Meaning(AllKnown(cs, existing), Trim(dep)) == Some(m)
    ensures Meaning(AfterStoring(cs, parent, existing), dep) == Some(m) <==> Agreed(cs, parent, |existing|, m, dep)
  {
    var stored, e := AfterStoring(cs, parent, existing), |existing|;
    KnownClaims(cs, existing, m, Trim(dep));
    StoredClaims(cs, parent, existing, m, dep);
    TargetClaim(cs, parent, existing, m, dep);
    forall j | m < j < |stored|
      ensures dep in stored[j].aliases <==> j >= e && dep == ChildId(parent, j + 1)
    {
      LaterClaim(cs, parent, existing, dep, m, j);
    }
    LastClaimIs(stored, |stored|, dep, m);
    assert Unclaimed(cs, parent, e, m, dep) <==> forall j | m < j < |stored| :: dep !in stored[j].aliases by {
      UnclaimedMeans(cs, parent, e, m, dep, stored);
    }
  }

  lemma {:induction false} UnclaimedMeans(
    cs: seq<Contract>, parent: string, e: nat, m: nat, dep: string, stored: seq<Sibling>)
    requires |stored| == e + |cs|
    requires forall j | m < j < |stored| :: dep in stored[j].aliases <==> j >= e && dep == ChildId(parent, j + 1)
    ensures Unclaimed(cs, parent, e, m, dep) <==> forall j | m < j < |stored| :: dep !in stored[j].aliases
  {
    if Unclaimed(cs, parent, e, m, dep) {
      forall j | m < j < |stored| ensures dep !in stored[j].aliases {
        assert j >= e ==> dep != ChildId(parent, j + 1);
      }
    } else {
      var n :| m + 1 < n <= e + |cs| && e < n && dep == ChildId(parent, n);
      assert dep in stored[n - 1].aliases;
    }
  }

  /** What a caller can check before a split: no two subtasks share a key, no dependency is blank, and
      each that the validator knows is one on which the store agrees. */
  ghost predicate Tidy(cs: seq<Contract>, parent: string, existing: seq<string>) {
    && Distinct(Keys(cs, |cs|))
    && forall i, k | 0 <= i < |cs| && 0 <= k < |cs[i].dependsOn| ::
         TidyDependency(cs, parent, existing, cs[i].dependsOn[k])
  }

  ghost predicate TidyDependency(cs: seq<Contract>, parent: string, existing: seq<string>, dep: string) {
    var m := Meaning(AllKnown(cs, existing), Trim(dep));
    Trim(dep) != "" && (m.Some? ==> Agreed(cs, parent, |existing|, m.value, dep))
  }

  /** Where a stored dependency leads: `before` holds the existing children's ids. */
  ghost predicate Leads(before: seq<string>, p: Digraph, keys: seq<string>, ids: seq<string>, i: nat, d: string) {
    d in before || (i < |keys| == |ids| && exists j :: 0 <= j < |ids| && ids[j] == d && Edge(p, keys[i], keys[j]))
  }

  /** The dependency graph of the store once the split's children are in it. */
  function AfterSplit(g: Digraph, cs: seq<Contract>, parent: string, existing: seq<string>): Digraph {
    Extended(g, ChildIds(parent, |existing|, |cs|), StoredLists(cs, parent, existing), |cs|)
  }

  lemma {:induction false} StoredListAt(cs: seq<Contract>, parent: string, existing: seq<string>, i: nat, d: string)
    requires i < |cs|
    ensures d in StoredLists(cs, parent, existing)[i] <==>
      exists k | 0 <= k < |cs[i].dependsOn| :: d == Stored(AfterStoring(cs, parent, existing), cs[i].dependsOn[k])
  {
    var sibs, deps := AfterStoring(cs, parent, existing), cs[i].dependsOn;
    StoredSplitAt(sibs, cs, |cs|, i);
    var r := StoredDeps(sibs, deps, |deps|);
    if k :| 0 <= k < |deps| && d == Stored(sibs, deps[k]) { assert r[k] == d; }
  }

  /** An accepted, tidy dependency is stored as the child that the validator took it for. */
  lemma {:induction false} StoredTarget(cs: seq<Contract>, parent: string, existing: seq<string>, i: nat, k: nat)
    returns (m: nat)
    requires PlainIds(parent, existing) && Accepted(cs, existing) && Tidy(cs, parent, existing)
    requires i < |cs| && k < |cs[i].dependsOn|
    ensures m < |existing| + |cs| && Trim(cs[i].dependsOn[k]) != ""
    ensures Meaning(AllKnown(cs, existing), Trim(cs[i].dependsOn[k])) == Some(m)
    ensures Meaning(AfterStoring(cs, parent, existing), cs[i].dependsOn[k]) == Some(m)
    ensures Stored(AfterStoring(cs, parent, existing), cs[i].dependsOn[k]) == IdAt(parent, existing, m)
  {
    hide Cyclic, ProposedGraph, Agreed, StoredSiblings, Known;
    var dep, known := cs[i].dependsOn[k], AllKnown(cs, existing);
    assert TidyDependency(cs, parent, existing, dep);
    HasUnknownMeans(known, cs, |cs|);
    assert !Unknown(known, dep);
    m := Meaning(known, Trim(dep)).value;
    NamingAgrees(cs, parent, existing, dep, m);
    StoredAt(cs, parent, existing, |cs|, m);
  }

  /** What the proposed graph is, one key at a time. */
  ghost predicate IsProposed(p: Digraph, cs: seq<Contract>, known: seq<Sibling>, keys: seq<string>) {
    && |keys| == |cs| && (forall k :: k in p <==> k in keys)
    && forall i | 0 <= i < |cs| :: ProposedEntry(p, cs[i], known, keys[i])
  }

  ghost predicate ProposedEntry(p: Digraph, c: Contract, known: seq<Sibling>, key: string)
    requires key in p
  {
    p[key] == Resolved(known, c.dependsOn, |c.dependsOn|)
  }

  lemma {:induction false} ProposedIs(cs: seq<Contract>, existing: seq<string>)
    requires Distinct(Keys(cs, |cs|))
    ensures IsProposed(ProposedGraph(cs, existing), cs, AllKnown(cs, existing), Keys(cs, |cs|))
  {
    var keys, known := Keys(cs, |cs|), AllKnown(cs, existing);
    var deps := ResolvedAll(known, cs, |cs|);
    forall i | 0 <= i < |cs|
      ensures ProposedEntry(Extended(map[], keys, deps, |cs|), cs[i], known, keys[i])
    {
      ExtendedAt(map[], keys, deps, |cs|, i);
      ResolvedAllAt(known, cs, |cs|, i);
    }
  }

  lemma {:induction false} ProposedEdge(
    cs: seq<Contract>, known: seq<Sibling>, keys: seq<string>, p: Digraph, i: nat, k: nat, m: nat, j: nat)
    requires IsProposed(p, cs, known, keys)
    requires i < |cs| && j < |cs| && k < |cs[i].dependsOn| && m < |known| && known[m].name == keys[j]
    requires Trim(cs[i].dependsOn[k]) != "" && Meaning(known, Trim(cs[i].dependsOn[k])) == Some(m)
    ensures Edge(p, keys[i], keys[j])
  {
    assert ProposedEntry(p, cs[i], known, keys[i]);
    ResolvedContains(known, cs[i].dependsOn, |cs[i].dependsOn|, k, m);
  }

  lemma {:induction false} KnownName(cs: seq<Contract>, existing: seq<string>, m: nat)
    requires |existing| <= m < |existing| + |cs|
    ensures AllKnown(cs, existing)[m].name == Keys(cs, |cs|)[m - |existing|]
  {
    KnownAt(cs, existing, |cs|, m);
    KeysAt(cs, |cs|, m - |existing|);
  }

  lemma {:induction false} LeadsBack(
    before: seq<string>, p: Digraph, keys: seq<string>, ids: seq<string>, i: nat, m: nat)
    requires m < |before|
    ensures Leads(before, p, keys, ids, i, before[m])
  {
  }

  lemma {:induction false} LeadsAcross(
    before: seq<string>, p: Digraph, keys: seq<string>, ids: seq<string>, i: nat, j: nat)
    requires i < |keys| == |ids| && j < |ids| && Edge(p, keys[i], keys[j])
    ensures Leads(before, p, keys, ids, i, ids[j])
  {
  }

  lemma {:induction false} TargetLeads(
    e: nat, keys: seq<string>, before: seq<string>, ids: seq<string>, p: Digraph, i: nat, m: nat, d: string)
    requires |before| == e && i < |keys| == |ids| && m < e + |ids|
    requires if m < e then before[m] == d else ids[m - e] == d && Edge(p, keys[i], keys[m - e])
    ensures Leads(before, p, keys, ids, i, d)
  {
    if m < e {
      LeadsBack(before, p, keys, ids, i, m);
    } else {
      LeadsAcross(before, p, keys, ids, i, m - e);
    }
  }

  lemma {:induction false} TargetId(parent: string, existing: seq<string>, n: nat, m: nat)
    requires |existing| <= m < |existing| + n
    ensures ChildIds(parent, |existing|, n)[m - |existing|] == IdAt(parent, existing, m)
  {
    ChildIdsAt(parent, |existing|, n, m - |existing|);
  }

  /** A subtask that the validator takes a dependency for is one the proposed graph has an edge to. */
  lemma {:induction false} MeaningEdge(cs: seq<Contract>, existing: seq<string>, i: nat, k: nat, m: nat)
    requires Distinct(Keys(cs, |cs|)) && i < |cs| && k < |cs[i].dependsOn| && |existing| <= m < |existing| + |cs|
    requires Trim(cs[i].dependsOn[k]) != "" && Meaning(AllKnown(cs, existing), Trim(cs[i].dependsOn[k])) == Some(m)
    ensures Edge(ProposedGraph(cs, existing), Keys(cs, |cs|)[i], Keys(cs, |cs|)[m - |existing|])
  {
    hide Edge, ProposedGraph, IsProposed, AllKnown, Meaning;
    ProposedIs(cs, existing);
    KnownName(cs, existing, m);
    ProposedEdge(
      cs, AllKnown(cs, existing), Keys(cs, |cs|), ProposedGraph(cs, existing), i, k, m, m - |existing|);
  }

  lemma {:induction false} StoredAtTarget(
    cs: seq<Contract>, parent: string, existing: seq<string>, i: nat, m: nat, p: Digraph, keys: seq<string>)
    requires i < |cs| == |keys| && m < |existing| + |cs|
    requires m >= |existing| ==> Edge(p, keys[i], keys[m - |existing|])
    ensures Leads(existing, p, keys, ChildIds(parent, |existing|, |cs|), i, IdAt(parent, existing, m))
  {
    hide Edge, Leads;
    if m >= |existing| { TargetId(parent, existing, |cs|, m); }
    TargetLeads(|existing|, keys, existing, ChildIds(parent, |existing|, |cs|), p, i, m, IdAt(parent, existing, m));
  }

  /** A stored dependency of an accepted, tidy split is an existing child, or a new
      child that the proposed graph has the subtask depend on. */
  lemma {:induction false} StoredEdge(cs: seq<Contract>, parent: string, existing: seq<string>, i: nat, d: string)
    requires PlainIds(parent, existing) && Accepted(cs, existing) && Tidy(cs, parent, existing)
    requires i < |cs| && d in StoredLists(cs, parent, existing)[i]
    ensures Leads(existing, ProposedGraph(cs, existing), Keys(cs, |cs|), ChildIds(parent, |existing|, |cs|), i, d)
  {
    hide ProposedGraph, StoredDeps, Leads, Edge, Accepted;
    StoredListAt(cs, parent, existing, i, d);
    var k :| 0 <= k < |cs[i].dependsOn| && d == Stored(AfterStoring(cs, parent, existing), cs[i].dependsOn[k]);
    var m := StoredTarget(cs, parent, existing, i, k);
    if m >= |existing| { MeaningEdge(cs, existing, i, k, m); }
    StoredAtTarget(cs, parent, existing, i, m, ProposedGraph(cs, existing), Keys(cs, |cs|));
  }

  lemma {:induction false} ChildIdsDistinct(parent: string, e: nat, n: nat)
    ensures Distinct(ChildIds(parent, e, n))
  {
    var ids := ChildIds(parent, e, n);
    forall i, j | 0 <= i < j < |ids| ensures ids[i] != ids[j] {
      ChildIdsAt(parent, e, n, i);
      ChildIdsAt(parent, e, n, j);
      if ids[i] == ids[j] { ChildIdInjective(parent, e + i + 1, e + j + 1); }
    }
  }

  lemma {:induction false} AfterSplitAt(g: Digraph, cs: seq<Contract>, parent: string, existing: seq<string>, i: nat)
    requires i < |cs|
    ensures ChildIds(parent, |existing|, |cs|)[i] in AfterSplit(g, cs, parent, existing)
    ensures AfterSplit(g, cs, parent, existing)[ChildIds(parent, |existing|, |cs|)[i]]
         == StoredLists(cs, parent, existing)[i]
  {
    ChildIdsDistinct(parent, |existing|, |cs|);
    ExtendedAt(g, ChildIds(parent, |existing|, |cs|), StoredLists(cs, parent, existing), |cs|, i);
  }

  lemma {:induction false} SplitExtends(g: Digraph, cs: seq<Contract>, parent: string, existing: seq<string>)
    requires PlainIds(parent, existing) && Accepted(cs, existing) && Tidy(cs, parent, existing)
    requires forall id | id in existing :: id in g
    requires forall id | id in ChildIds(parent, |existing|, |cs|) :: id !in g
    ensures Extends(AfterSplit(g, cs, parent, existing), g, ProposedGraph(cs, existing), Keys(cs, |cs|),
                    ChildIds(parent, |existing|, |cs|))
  {
    var ids, p := ChildIds(parent, |existing|, |cs|), ProposedGraph(cs, existing);
    var r := AfterSplit(g, cs, parent, existing);
    ChildIdsDistinct(parent, |existing|, |cs|);
    ExtensionOutside(g, ids, StoredLists(cs, parent, existing));
    forall i, d | 0 <= i < |ids| && d in r[ids[i]] ensures Grounded(g, p, Keys(cs, |cs|), ids, i, d) {
      AfterSplitAt(g, cs, parent, existing, i);
      StoredEdge(cs, parent, existing, i, d);
      LeadsGrounded(g, existing, p, Keys(cs, |cs|), ids, i, d);
    }
  }

  lemma {:induction false} LeadsGrounded(
    g: Digraph, before: seq<string>, p: Digraph, keys: seq<string>, ids: seq<string>, i: nat, d: string)
    requires i < |keys| == |ids| && Leads(before, p, keys, ids, i, d) && forall id | id in before :: id in g
    ensures Grounded(g, p, keys, ids, i, d)
  {
  }

  lemma {:induction false} ExtensionOutside(g: Digraph, ids: seq<string>, deps: seq<seq<string>>)
    requires |ids| == |deps| && forall id | id in ids :: id !in g
    ensures var r := Extended(g, ids, deps, |ids|);
      && (forall n :: n in r <==> n in g || n in ids)
      && (forall n | n in g :: n !in ids && r[n] == g[n])
  {
    forall n | n in g ensures n !in ids && Extended(g, ids, deps, |ids|)[n] == g[n] {
      ExtendedOutside(g, ids, deps, |ids|, n);
    }
  }

  // ---- Exactly when storing keeps the graph acyclic ----

  /** The split's own edges, as they are stored. */
  function OwnGraph(cs: seq<Contract>, parent: string, existing: seq<string>): Digraph {
    AfterSplit(map[], cs, parent, existing)
  }

  /** Whatever the validator thought of it: storing a split makes a cycle if and only if the split's own
      children form one, under the store's reading of their names. */
  lemma {:induction false} CyclesAreOwn(g: Digraph, cs: seq<Contract>, parent: string, existing: seq<string>)
    requires !Cyclic(g) && Closed(g)
    requires forall id | id in ChildIds(parent, |existing|, |cs|) :: id !in g
    ensures Cyclic(AfterSplit(g, cs, parent, existing)) <==> Cyclic(OwnGraph(cs, parent, existing))
  {
    var ids, deps := ChildIds(parent, |existing|, |cs|), StoredLists(cs, parent, existing);
    ChildIdsDistinct(parent, |existing|, |cs|);
    ExtensionOutside(g, ids, deps);
    ExtensionOutside(map[], ids, deps);
    forall i | 0 <= i < |ids|
      ensures AfterSplit(g, cs, parent, existing)[ids[i]] == OwnGraph(cs, parent, existing)[ids[i]]
    {
      AfterSplitAt(g, cs, parent, existing, i);
      AfterSplitAt(map[], cs, parent, existing, i);
    }
    ExtensionCycles(AfterSplit(g, cs, parent, existing), g, OwnGraph(cs, parent, existing));
  }

  /** A dependency that the store knows is stored as an existing or a new child's id. */
  lemma {:induction false} MeantIsChild(
    cs: seq<Contract>, parent: string, existing: seq<string>, dep: string, m: nat)
    requires Meaning(AfterStoring(cs, parent, existing), dep) == Some(m)
    ensures m < |existing| + |cs| && Stored(AfterStoring(cs, parent, existing), dep) == IdAt(parent, existing, m)
    ensures IdAt(parent, existing, m) in existing || IdAt(parent, existing, m) in ChildIds(parent, |existing|, |cs|)
  {
    StoredAt(cs, parent, existing, |cs|, m);
    if m >= |existing| { TargetId(parent, existing, |cs|, m); }
  }

  /** One that it does not know is stored as it is, and is no child's id. */
  lemma {:induction false} UnmeantIsNoChild(cs: seq<Contract>, parent: string, existing: seq<string>, dep: string)
    requires Meaning(AfterStoring(cs, parent, existing), dep) == None
    ensures Stored(AfterStoring(cs, parent, existing), dep) == dep
    ensures dep !in existing && dep !in ChildIds(parent, |existing|, |cs|)
  {
    var stored, ids := AfterStoring(cs, parent, existing), ChildIds(parent, |existing|, |cs|);
    forall k | 0 <= k < |stored| ensures !StoredClaim(cs, parent, existing, k, dep) {
      StoredClaims(cs, parent, existing, k, dep);
    }
    forall k | 0 <= k < |existing| ensures existing[k] != dep { assert !StoredClaim(cs, parent, existing, k, dep); }
    forall i | 0 <= i < |ids| ensures ids[i] != dep {
      ChildIdsAt(parent, |existing|, |cs|, i);
      assert !StoredClaim(cs, parent, existing, |existing| + i, dep);
    }
  }

  /** The store knows the dependency, or it happens to be the id of some node of the tree. */
  ghost predicate LeadsSomewhere(g: Digraph, cs: seq<Contract>, parent: string, existing: seq<string>, dep: string) {
    Meaning(AfterStoring(cs, parent, existing), dep).Some? || dep in g
  }

  ghost predicate AllLeadSomewhere(g: Digraph, cs: seq<Contract>, parent: string, existing: seq<string>) {
    forall i, k | 0 <= i < |cs| && 0 <= k < |cs[i].dependsOn| ::
      LeadsSomewhere(g, cs, parent, existing, cs[i].dependsOn[k])
  }

  /** Storing a split leaves no edge to nowhere if and only if the store knows each dependency or the tree
      has a node of that very id. */
  lemma {:induction false} ClosedIffKnown(g: Digraph, cs: seq<Contract>, parent: string, existing: seq<string>)
    requires Closed(g) && forall id | id in existing :: id in g
    requires forall id | id in ChildIds(parent, |existing|, |cs|) :: id !in g
    ensures Closed(AfterSplit(g, cs, parent, existing)) <==> AllLeadSomewhere(g, cs, parent, existing)
  {
    hide StoredSiblings, StoredSplit, LeadsSomewhere;
    var ids, r := ChildIds(parent, |existing|, |cs|), AfterSplit(g, cs, parent, existing);
    ExtensionOutside(g, ids, StoredLists(cs, parent, existing));
    forall i, k | 0 <= i < |cs| && 0 <= k < |cs[i].dependsOn|
      ensures ids[i] in r && |r[ids[i]]| == |cs[i].dependsOn|
      ensures r[ids[i]][k] in r <==> LeadsSomewhere(g, cs, parent, existing, cs[i].dependsOn[k])
    {
      AfterSplitAt(g, cs, parent, existing, i);
      StoredSplitAt(AfterStoring(cs, parent, existing), cs, |cs|, i);
      EdgeLeads(g, r, cs, parent, existing, cs[i].dependsOn[k]);
    }
    if AllLeadSomewhere(g, cs, parent, existing) {
      forall n, k | n in r && 0 <= k < |r[n]| ensures r[n][k] in r {
        if n in ids {
          var i :| 0 <= i < |ids| && ids[i] == n;
          AfterSplitAt(g, cs, parent, existing, i);
          StoredSplitAt(AfterStoring(cs, parent, existing), cs, |cs|, i);
          assert LeadsSomewhere(g, cs, parent, existing, cs[i].dependsOn[k]);
        }
      }
    }
  }

  lemma {:induction false} EdgeLeads(
    g: Digraph, r: Digraph, cs: seq<Contract>, parent: string, existing: seq<string>, dep: string)
    requires forall n :: n in r <==> n in g || n in ChildIds(parent, |existing|, |cs|)
    requires forall id | id in existing :: id in g
    ensures Stored(AfterStoring(cs, parent, existing), dep) in r <==> LeadsSomewhere(g, cs, parent, existing, dep)
  {
    var m := Meaning(AfterStoring(cs, parent, existing), dep);
    if m.Some? {
      MeantIsChild(cs, parent, existing, dep, m.value);
    } else {
      UnmeantIsNoChild(cs, parent, existing, dep);
    }
  }

  /** The store knows every dependency, and the new children form no cycle under its reading. */
  ghost predicate WellStored(cs: seq<Contract>, parent: string, existing: seq<string>) {
    AllLeadSomewhere(map[], cs, parent, existing) && !Cyclic(OwnGraph(cs, parent, existing))
  }

  /** Storing any split keeps a closed graph closed and an acyclic one acyclic, each under its exact
      condition. */
  lemma {:induction false} SplitKeepsGraph(g: Digraph, cs: seq<Contract>, parent: string, existing: seq<string>)
    requires !Cyclic(g) && Closed(g)
    requires forall id | id in existing :: id in g
    requires forall id | id in ChildIds(parent, |existing|, |cs|) :: id !in g
    ensures !Cyclic(AfterSplit(g, cs, parent, existing)) <==> !Cyclic(OwnGraph(cs, parent, existing))
    ensures Closed(AfterSplit(g, cs, parent, existing)) <==> AllLeadSomewhere(g, cs, parent, existing)
    ensures WellStored(cs, parent, existing) ==>
      !Cyclic(AfterSplit(g, cs, parent, existing)) && Closed(AfterSplit(g, cs, parent, existing))
  {
    CyclesAreOwn(g, cs, parent, existing);
    ClosedIffKnown(g, cs, parent, existing);
  }

  // ---- Tidy names are enough ----

  lemma {:induction false} TidyIsAcyclic(g: Digraph, cs: seq<Contract>, parent: string, existing: seq<string>)
    requires !Cyclic(g) && Closed(g)
    requires PlainIds(parent, existing) && Accepted(cs, existing) && Tidy(cs, parent, existing)
    requires forall id | id in existing :: id in g
    requires forall id | id in ChildIds(parent, |existing|, |cs|) :: id !in g
    ensures !Cyclic(AfterSplit(g, cs, parent, existing))
  {
    SplitExtends(g, cs, parent, existing);
    ProposedIs(cs, existing);
    ExtensionIsAcyclic(AfterSplit(g, cs, parent, existing), g, ProposedGraph(cs, existing), Keys(cs, |cs|),
                       ChildIds(parent, |existing|, |cs|));
  }

  /** The existing children alone, without their dependencies. */
  function Edgeless(existing: seq<string>): Digraph {
    map id | id in existing :: []
  }

  lemma {:induction false} EdgelessIsFine(existing: seq<string>)
    ensures !Cyclic(Edgeless(existing)) && Closed(Edgeless(existing))
  {
    forall c ensures !IsCycle(Edgeless(existing), c) {
      assert IsCycle(Edgeless(existing), c) ==> Hop(Edgeless(existing), c, 0);
    }
  }

  /** A split that the validator accepts and whose names are tidy is stored well. */
  lemma {:induction false} TidyIsWellStored(cs: seq<Contract>, parent: string, existing: seq<string>)
    requires PlainIds(parent, existing) && Accepted(cs, existing) && Tidy(cs, parent, existing)
    requires forall id | id in ChildIds(parent, |existing|, |cs|) :: id !in existing
    ensures WellStored(cs, parent, existing)
  {
    hide Accepted, Cyclic, AfterSplit, Tidy;
    EdgelessIsFine(existing);
    TidyIsAcyclic(Edgeless(existing), cs, parent, existing);
    CyclesAreOwn(Edgeless(existing), cs, parent, existing);
    forall i, k | 0 <= i < |cs| && 0 <= k < |cs[i].dependsOn|
      ensures LeadsSomewhere(map[], cs, parent, existing, cs[i].dependsOn[k])
    {
      var m := StoredTarget(cs, parent, existing, i, k);
    }
  }

  // ---- Splits that are accepted and stored otherwise ----

  /** A blank name is claimed by the subtasks whose raw id it is, and by nobody else. */
  lemma {:induction false} BlankClaims(
    cs: seq<Contract>, parent: string, existing: seq<string>, dep: string, k: nat)
    requires PlainIds(parent, existing) && Trim(dep) == "" && k < |existing| + |cs|
    requires forall e | e in existing :: e != "" && AfterLastDash(e) != ""
    ensures StoredClaim(cs, parent, existing, k, dep) <==>
      k >= |existing| && dep != "" && cs[k - |existing|].id == dep
  {
    if k < |existing| {
      ExistingClaimsAgree(cs, parent, existing, k, dep);
      assert existing[k] in existing;
    } else {
      NumbersAreTrimmed(k - |existing| + 1);
      NumbersArePlain(k - |existing| + 1);
      ChildIdShape(parent, k + 1);
    }
  }

  /** A dependency of white space only, which the validator skips, is stored as it is, an edge to no node, if
      and only if it is empty or no subtask has it as its raw id; otherwise it is stored as such a subtask. */
  lemma {:induction false} BlankIsStored(cs: seq<Contract>, existing: seq<string>, parent: string, dep: string)
    requires PlainIds(parent, existing) && Trim(dep) == ""
    requires forall e | e in existing :: e != "" && AfterLastDash(e) != ""
    ensures !Unknown(AllKnown(cs, existing), dep)
    ensures Stored(AfterStoring(cs, parent, existing), dep) == dep <==>
      dep == "" || forall i | 0 <= i < |cs| :: cs[i].id != dep
    ensures dep !in existing && forall k: nat :: ChildId(parent, k) != dep
  {
    hide StoredSiblings, Known;
    var stored, m := AfterStoring(cs, parent, existing), Meaning(AfterStoring(cs, parent, existing), dep);
    forall j | 0 <= j < |stored|
      ensures dep in stored[j].aliases <==> j >= |existing| && dep != "" && cs[j - |existing|].id == dep
    {
      StoredClaims(cs, parent, existing, j, dep);
      BlankClaims(cs, parent, existing, dep, j);
    }
    forall k: nat ensures ChildId(parent, k) != dep { ChildIdIsNotBlank(parent, k, dep); }
    if m.Some? {
      MeantIsChild(cs, parent, existing, dep, m.value);
      assert cs[m.value - |existing|].id == dep;
    } else {
      UnmeantIsNoChild(cs, parent, existing, dep);
      if i :| 0 <= i < |cs| && cs[i].id == dep { assert dep != "" ==> dep in stored[|existing| + i].aliases; }
    }
  }

  lemma {:induction false} ChildIdIsNotBlank(parent: string, k: nat, dep: string)
    requires NoWhite(parent) && Trim(dep) == ""
    ensures ChildId(parent, k) != dep
  {
    ChildIdShape(parent, k);
  }

  // Splits of a childless root that the validator accepts.

  function Subtask(id: string, dependsOn: seq<string>): Contract {
    Contract("", [], [], [], id, dependsOn, [], [], 0)
  }

  /** The second subtask depends on the first, whose id is the one the second is about to get. */
  const CLASHING := [Subtask("root-02", []), Subtask("b", ["root-02"])]

  /** Two subtasks of one name; the first depends on the first. */
  const REPEATED := [Subtask("x", ["1"]), Subtask("x", [])]

  /** The second subtask depends on the first, whose id is padded. */
  const PADDED := [Subtask(" a", []), Subtask("b", ["a"])]

  /** One subtask, named by a space, that depends on a space. */
  const BLANK := [Subtask(" ", [" "])]

  lemma {:induction false} SmallNumbers()
    ensures Decimal(1) == "1" && Pad2(1) == "01" && Decimal(2) == "2" && Pad2(2) == "02"
    ensures ChildId("root", 1) == "root-01" && ChildId("root", 2) == "root-02"
  {
    assert Decimal(1) == "1" && Pad2(1) == "01";
    assert Decimal(2) == "2" && Pad2(2) == "02";
  }

  /** Of two subtasks, the second one's claim wins. */
  lemma {:induction false} TwoMeanings(cs: seq<Contract>, d: string)
    requires |cs| == 2
    ensures Meaning(AllKnown(cs, []), d)
         == if KnownClaim(cs, [], 1, d) then Some(1) else if KnownClaim(cs, [], 0, d) then Some(0) else None
    ensures Meaning(AfterStoring(cs, "root", []), d)
         == if StoredClaim(cs, "root", [], 1, d) then Some(1)
            else if StoredClaim(cs, "root", [], 0, d) then Some(0) else None
  {
    var known, stored := AllKnown(cs, []), AfterStoring(cs, "root", []);
    KnownClaims(cs, [], 0, d);
    KnownClaims(cs, [], 1, d);
    StoredClaims(cs, "root", [], 0, d);
    StoredClaims(cs, "root", [], 1, d);
    LastClaimIs(known, 2, d, 0);
    LastClaimIs(known, 2, d, 1);
    LastClaimIs(stored, 2, d, 0);
    LastClaimIs(stored, 2, d, 1);
  }

  lemma {:induction false} TwoKeys()
    ensures Keys(CLASHING, 2) == ["root-02", "b"] && Keys(REPEATED, 2) == ["x", "x"] && Keys(PADDED, 2) == ["a", "b"]
  {
    TrimFixed("root-02");
    TrimFixed("b");
    TrimFixed("x");
    TrimOfA();
  }

  lemma {:induction false} TrimOfA()
    ensures Trim(" a") == "a"
  {
    assert " a"[1..] == "a";
    assert TrimStart(" a") == TrimStart("a") == "a";
  }

  lemma {:induction false} ResolvedOne(known: seq<Sibling>, d: string, m: nat)
    requires Trim(d) == d != "" && Meaning(known, d) == Some(m)
    ensures Resolved(known, [d], 1) == [known[m].name] && !AnyUnknown(known, [d], 1)
  {
    assert Resolved(known, [d], 0) == [];
  }

  lemma {:induction false} PairIsKnown(known: seq<Sibling>, cs: seq<Contract>)
    requires |cs| == 2 && !AnyUnknown(known, cs[0].dependsOn, |cs[0].dependsOn|)
    requires !AnyUnknown(known, cs[1].dependsOn, |cs[1].dependsOn|)
    ensures !HasUnknown(known, cs, 2)
  {
    assert !HasUnknown(known, cs, 1);
  }

  lemma {:induction false} PairIsOrdered(p: Digraph, k0: string, k1: string)
    requires k0 != k1 && (forall k :: k in p <==> k == k0 || k == k1) && p[k0] == [] && p[k1] == [k0]
    ensures !Cyclic(p)
  {
    var order := [k0, k1];
    assert order[..1] == [k0] && order[..0] == [];
    assert Topological(p, order);
    OrderedIsAcyclic(p, order);
  }

  lemma {:induction false} PairGraph(
    cs: seq<Contract>, known: seq<Sibling>, keys: seq<string>, p: Digraph, k0: string, k1: string, d: string)
    requires |cs| == 2 && keys == [k0, k1] && k0 != k1 && cs[0].dependsOn == [] && cs[1].dependsOn == [d]
    requires IsProposed(p, cs, known, keys) && Resolved(known, [d], 1) == [k0]
    ensures !Cyclic(p)
  {
    assert ProposedEntry(p, cs[0], known, keys[0]) && ProposedEntry(p, cs[1], known, keys[1]);
    assert Resolved(known, [], 0) == [];
    PairIsOrdered(p, k0, k1);
  }

  /** No name unknown, and no edge but from the second key to the first: accepted. */
  lemma {:induction false} AcceptedPair(cs: seq<Contract>, k0: string, k1: string, d: string)
    requires |cs| == 2 && Keys(cs, 2) == [k0, k1] && k0 != k1 && cs[0].dependsOn == [] && cs[1].dependsOn == [d]
    requires Trim(d) == d != "" && Meaning(AllKnown(cs, []), d) == Some(0)
    ensures Accepted(cs, [])
  {
    hide ProposedGraph, IsProposed, Resolved, AnyUnknown, HasUnknown, Cyclic;
    var known := AllKnown(cs, []);
    KnownAt(cs, [], 2, 0);
    ResolvedOne(known, d, 0);
    NoneUnknown(known);
    PairIsKnown(known, cs);
    ProposedIs(cs, []);
    PairGraph(cs, known, Keys(cs, 2), ProposedGraph(cs, []), k0, k1, d);
  }

  lemma {:induction false} NoneUnknown(known: seq<Sibling>)
    ensures !AnyUnknown(known, [], 0)
  {
  }

  lemma {:induction false} SelfLoop(g: Digraph, n: string)
    requires n in g && n in g[n]
    ensures Cyclic(g)
  {
    assert Hop(g, [n, n], 0);
    assert IsCycle(g, [n, n]);
  }

  lemma {:induction false} StoredAlone(cs: seq<Contract>, i: nat, d: string)
    requires i < |cs| && cs[i].dependsOn == [d]
    ensures StoredLists(cs, "root", [])[i] == [Stored(AfterStoring(cs, "root", []), d)]
  {
    StoredSplitAt(AfterStoring(cs, "root", []), cs, |cs|, i);
  }

  lemma {:induction false} ClashMeanings()
    ensures Keys(CLASHING, 2) == ["root-02", "b"] && Trim("root-02") == "root-02"
    ensures Meaning(AllKnown(CLASHING, []), "root-02") == Some(0)
    ensures Meaning(AfterStoring(CLASHING, "root", []), "root-02") == Some(1)
  {
    SmallNumbers();
    TwoKeys();
    TrimFixed("root-02");
    TwoMeanings(CLASHING, "root-02");
  }

  lemma {:induction false} ClashIsStored()
    ensures StoredLists(CLASHING, "root", [])[1] == ["root-02"] && ChildIds("root", 0, 2)[1] == "root-02"
  {
    SmallNumbers();
    ChildIdsAt("root", 0, 2, 1);
    StoredAlone(CLASHING, 1, "root-02");
    ClashMeanings();
    StoredAt(CLASHING, "root", [], 2, 1);
  }

  /** A subtask may depend on itself once stored: its own generated id was another subtask's name. */
  lemma {:induction false} ClashMakesCycle()
    ensures Accepted(CLASHING, []) && Cyclic(AfterSplit(map[], CLASHING, "root", []))
  {
    hide Accepted, Cyclic, AfterSplit, AllKnown, Meaning;
    ClashMeanings();
    AcceptedPair(CLASHING, "root-02", "b", "root-02");
    ClashIsStored();
    StoredLoop(CLASHING, 1, "root-02");
  }

  /** A child stored as depending on itself. */
  lemma {:induction false} StoredLoop(cs: seq<Contract>, i: nat, id: string)
    requires i < |cs| && StoredLists(cs, "root", [])[i] == [id] && ChildIds("root", 0, |cs|)[i] == id
    ensures Cyclic(AfterSplit(map[], cs, "root", []))
  {
    hide Cyclic, StoredLists, AfterSplit;
    AfterSplitAt(map[], cs, "root", [], i);
    SelfLoop(AfterSplit(map[], cs, "root", []), id);
  }

  lemma {:induction false} RepeatMeanings()
    ensures Keys(REPEATED, 2) == ["x", "x"] && Trim("1") == "1"
    ensures Meaning(AllKnown(REPEATED, []), "1") == Some(0)
    ensures Meaning(AfterStoring(REPEATED, "root", []), "1") == Some(0)
  {
    hide Keys, Decimal, Pad2, Meaning, AllKnown, AfterStoring;
    SmallNumbers();
    TwoKeys();
    TrimFixed("1");
    TwoMeanings(REPEATED, "1");
  }

  lemma {:induction false} RepeatIsStored()
    ensures StoredLists(REPEATED, "root", [])[0] == ["root-01"] && ChildIds("root", 0, 2)[0] == "root-01"
  {
    SmallNumbers();
    ChildIdsAt("root", 0, 2, 0);
    StoredAlone(REPEATED, 0, "1");
    RepeatMeanings();
    StoredAt(REPEATED, "root", [], 2, 0);
  }

  lemma {:induction false} RepeatIsAccepted()
    ensures Accepted(REPEATED, [])
  {
    hide Cyclic, Resolved, Meaning, Known;
    var known, p := AllKnown(REPEATED, []), ProposedGraph(REPEATED, []);
    RepeatMeanings();
    ResolvedOne(known, "1", 0);
    NoneUnknown(known);
    PairIsKnown(known, REPEATED);
    RepeatGraph(known, p);
  }

  lemma {:induction false} RepeatGraph(known: seq<Sibling>, p: Digraph)
    requires Keys(REPEATED, 2) == ["x", "x"]
    requires p == Extended(map[], Keys(REPEATED, 2), ResolvedAll(known, REPEATED, 2), 2)
    ensures !Cyclic(p)
  {
    var deps := ResolvedAll(known, REPEATED, 2);
    ResolvedAllAt(known, REPEATED, 2, 1);
    assert p == Extended(map[], ["x", "x"], deps, 1)["x" := deps[1]];
    assert p["x"] == [] && forall k | k in p :: k == "x";
    var order := ["x"];
    assert order[..0] == [];
    assert Topological(p, order);
    OrderedIsAcyclic(p, order);
  }

  /** A repeated name hides the first subtask's edges from the validator: here one on itself. */
  lemma {:induction false} RepeatMakesCycle()
    ensures Accepted(REPEATED, []) && Cyclic(AfterSplit(map[], REPEATED, "root", []))
  {
    hide Accepted, Cyclic, AfterSplit, StoredLists, ChildId;
    RepeatIsAccepted();
    RepeatIsStored();
    StoredLoop(REPEATED, 0, "root-01");
  }

  lemma {:induction false} TrimOfSpace()
    ensures Trim(" ") == ""
  {
    assert " "[1..] == "";
    assert TrimStart(" ") == TrimStart("") == "";
  }

  lemma {:induction false} BlankIsAccepted()
    ensures Accepted(BLANK, [])
  {
    hide Meaning, Known;
    var known, p := AllKnown(BLANK, []), ProposedGraph(BLANK, []);
    TrimOfSpace();
    SmallNumbers();
    assert Resolved(known, [" "], 1) == Resolved(known, [" "], 0) == [];
    BlankGraph(known, p);
    assert !AnyUnknown(known, [" "], 1) && !HasUnknown(known, BLANK, 0);
  }

  lemma {:induction false} BlankGraph(known: seq<Sibling>, p: Digraph)
    requires Resolved(known, [" "], 1) == []
    requires p == Extended(map[], Keys(BLANK, 1), ResolvedAll(known, BLANK, 1), 1)
    ensures !Cyclic(p)
  {
    var deps, key := ResolvedAll(known, BLANK, 1), Keys(BLANK, 1)[0];
    ResolvedAllAt(known, BLANK, 1, 0);
    assert p == Extended(map[], Keys(BLANK, 1), deps, 0)[key := deps[0]];
    assert p[key] == [] && forall k | k in p :: k == key;
    var order := [key];
    assert order[..0] == [];
    assert Topological(p, order);
    OrderedIsAcyclic(p, order);
  }

  lemma {:induction false} BlankMeaning()
    ensures Meaning(AfterStoring(BLANK, "root", []), " ") == Some(0)
  {
    StoredClaims(BLANK, "root", [], 0, " ");
    LastClaimIs(AfterStoring(BLANK, "root", []), 1, " ", 0);
  }

  /** A blank name skips the validator and is a name to the store: here one of the subtask itself. */
  lemma {:induction false} BlankMakesCycle()
    ensures Accepted(BLANK, []) && Cyclic(AfterSplit(map[], BLANK, "root", []))
  {
    hide Accepted, Cyclic, AfterSplit, Meaning;
    BlankIsAccepted();
    BlankMeaning();
    StoredAlone(BLANK, 0, " ");
    StoredAt(BLANK, "root", [], 1, 0);
    ChildIdsAt("root", 0, 1, 0);
    StoredLoop(BLANK, 0, ChildId("root", 1));
  }

  lemma {:induction false} PaddedMeanings()
    ensures Keys(PADDED, 2) == ["a", "b"] && Trim("a") == "a"
    ensures Meaning(AllKnown(PADDED, []), "a") == Some(0)
    ensures Meaning(AfterStoring(PADDED, "root", []), "a") == None
  {
    SmallNumbers();
    TwoKeys();
    TrimFixed("a");
    TwoMeanings(PADDED, "a");
  }

  /** A padded id is known to the validator by its trimmed text only, to the store by its raw text only:
      the dependency is stored as a name no child has. */
  lemma {:induction false} PaddedIdIsLost()
    ensures Accepted(PADDED, []) && StoredLists(PADDED, "root", [])[1] == ["a"]
    ensures "a" !in ChildIds("root", 0, 2)
  {
    hide Accepted, AllKnown, AfterStoring, Meaning;
    PaddedMeanings();
    AcceptedPair(PADDED, "a", "b", "a");
    StoredAlone(PADDED, 1, "a");
    NoSuchChild();
  }

  lemma {:induction false} NoSuchChild()
    ensures "a" !in ChildIds("root", 0, 2)
  {
    forall k | 0 <= k < 2 ensures ChildIds("root", 0, 2)[k] != "a" {
      ChildIdsAt("root", 0, 2, k);
      ChildIdShape("root", k + 1);
    }
  }
}

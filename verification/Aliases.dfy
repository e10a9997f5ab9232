/** Tables built by inserting, sibling after sibling, each sibling's aliases: the
    `canonical` table of the validator and the `id_map` of `add_children`. */
module Aliases {
  import opened Text

  /** A sibling answers to its aliases and is written `name`. */
  datatype Sibling = Sibling(name: string, aliases: seq<string>)

  /** The last of the first `n` siblings that claims alias `d`. */
  function LastClaim(sibs: seq<Sibling>, n: nat, d: string): (r: Option<nat>)
    requires n <= |sibs|
    ensures r.Some? ==> r.value < n && d in sibs[r.value].aliases && forall j | r.value < j < n :: d !in sibs[j].aliases
    ensures r.None? ==> forall j | 0 <= j < n :: d !in sibs[j].aliases
  {
    if n == 0 then None
    else if d in sibs[n - 1].aliases then Some(n - 1)
    else LastClaim(sibs, n - 1, d)
  }

  /** The sibling an alias denotes: the last one that claims it. */
  function Meaning(sibs: seq<Sibling>, d: string): (r: Option<nat>)
    ensures r.Some? ==> r.value < |sibs|
  {
    LastClaim(sibs, |sibs|, d)
  }

  /** `table` maps each alias to the last claimant's name, and nothing else. */
  ghost predicate Describes(table: map<string, string>, sibs: seq<Sibling>) {
    forall d: string :: LookupAgrees(table, sibs, d)
  }

  ghost predicate LookupAgrees(table: map<string, string>, sibs: seq<Sibling>, d: string) {
    var c := Meaning(sibs, d);
    (d in table <==> c.Some?) && (c.Some? ==> table[d] == sibs[c.value].name)
  }

  lemma {:induction false} ClaimInPrefix(sibs: seq<Sibling>, s: Sibling, n: nat, d: string)
    requires n <= |sibs|
    ensures LastClaim(sibs + [s], n, d) == LastClaim(sibs, n, d)
  {
    if n > 0 { ClaimInPrefix(sibs, s, n - 1, d); }
  }

  /** One more sibling: its three aliases are inserted with its name. */
  lemma {:induction false} Insert(table: map<string, string>, sibs: seq<Sibling>, s: Sibling)
    requires Describes(table, sibs) && |s.aliases| == 3
    ensures Describes(table[s.aliases[0] := s.name][s.aliases[1] := s.name][s.aliases[2] := s.name], sibs + [s])
  {
    var table' := table[s.aliases[0] := s.name][s.aliases[1] := s.name][s.aliases[2] := s.name];
    forall d: string ensures LookupAgrees(table', sibs + [s], d) {
      assert LookupAgrees(table, sibs, d);
      ClaimInPrefix(sibs, s, |sibs|, d);
    }
  }

  lemma {:induction false} InsertFour(table: map<string, string>, sibs: seq<Sibling>, s: Sibling)
    requires Describes(table, sibs) && |s.aliases| == 4
    ensures Describes(
      table[s.aliases[0] := s.name][s.aliases[1] := s.name][s.aliases[2] := s.name][s.aliases[3] := s.name], sibs + [s])
  {
    var table' := table[s.aliases[0] := s.name][s.aliases[1] := s.name][s.aliases[2] := s.name][s.aliases[3] := s.name];
    forall d: string ensures LookupAgrees(table', sibs + [s], d) {
      assert LookupAgrees(table, sibs, d);
      ClaimInPrefix(sibs, s, |sibs|, d);
    }
  }
}

/** `reconcile` (src/store.rs): the index is repaired against the directory tree,
    and what a crash in the middle of `add_children` leaves behind. */
module Reconciliation {
  import opened Text
  import opened Nodes
  import Ledger

  /** A node directory; `subdirs` lists its `children/` in sorted order. */
  datatype Dir = Dir(name: string, subdirs: seq<Dir>)

  datatype Entry = Entry(id: string, parent: Option<string>, depth: nat, hasChildren: bool)

  datatype IndexRow = IndexRow(
    parent: Option<string>,
    depth: nat,
    status: Status,
    dependsOn: seq<string>,
    depFp: map<string, string>)

  type Rows = map<string, IndexRow>

  /** `walk_disk_rec`: a directory, then everything below it. */
  function Walk(d: Dir, parent: Option<string>, depth: nat): (es: seq<Entry>)
    ensures es != [] && es[0] == Entry(d.name, parent, depth, d.subdirs != [])
    decreases d
  {
    [Entry(d.name, parent, depth, d.subdirs != [])] + WalkAll(d.subdirs, d.name, depth + 1)
  }

  function WalkAll(ds: seq<Dir>, parent: string, depth: nat): seq<Entry>
    decreases ds
  {
    if ds == [] then [] else Walk(ds[0], Some(parent), depth) + WalkAll(ds[1..], parent, depth)
  }

  /** `walk_disk`: nothing when the tree has no root directory. */
  function WalkDisk(disk: Option<Dir>): seq<Entry> {
    if disk.None? then [] else Walk(disk.value, None, 1)
  }

  ghost predicate Unique(es: seq<Entry>) {
    forall i, j | 0 <= i < j < |es| :: es[i].id != es[j].id
  }

  function Repaired(status: Status, hasChildren: bool): Status {
    if status == Running || status == Pending then (if hasChildren then Split else Pending) else status
  }

  /** The row a directory gets: adopted without dependencies when the index has none, repaired otherwise. */
  function RowFor(rows: Rows, e: Entry): IndexRow {
    if e.id in rows then
      rows[e.id].(parent := e.parent, depth := e.depth, status := Repaired(rows[e.id].status, e.hasChildren))
    else IndexRow(e.parent, e.depth, if e.hasChildren then Split else Pending, [], map[])
  }

  /** The index after the first `n` directories, rows without a directory dropped. */
  function Reconciled(rows: Rows, es: seq<Entry>, n: nat): (r: Rows)
    requires n <= |es|
    decreases n
  {
    if n == 0 then map[] else Reconciled(rows, es, n - 1)[es[n - 1].id := RowFor(rows, es[n - 1])]
  }

  class Store {
    var index: Rows
    var ledger: map<string, int>

    constructor (index: Rows, ledger: map<string, int>)
      ensures this.index == index && this.ledger == ledger
    {
      this.index, this.ledger := index, ledger;
    }

    /** Adopt and repair: one pass over the directories. */
    method Repair(es: seq<Entry>) returns (seen: set<string>)
      modifies this`index
      ensures index == old(index) + Reconciled(old(index), es, |es|)
      ensures seen == Reconciled(old(index), es, |es|).Keys
    {
      var rows := index;
      seen := {};
      for i := 0 to |es|
        invariant index == rows + Reconciled(rows, es, i)
        invariant seen == Reconciled(rows, es, i).Keys
      {
        seen := seen + {es[i].id};
        index := index[es[i].id := RowFor(rows, es[i])];
      }
    }

    /** Drop the rows that no directory backs. */
    method Drop(ids: set<string>)
      modifies this
      ensures index == old(index) - ids && ledger == old(ledger) - ids
    {
      var gone := ids;
      while gone != {}
        invariant gone <= ids && index == old(index) - (ids - gone) && ledger == old(ledger) - (ids - gone)
        decreases gone
      {
        var id :| id in gone;
        index, ledger, gone := index - {id}, ledger - {id}, gone - {id};
      }
    }

    method Reconcile(disk: Option<Dir>)
      modifies this
      ensures index == Reconciled(old(index), WalkDisk(disk), |WalkDisk(disk)|)
      ensures ledger == old(ledger) - (old(index).Keys - index.Keys)
      ensures forall id :: id in index <==> exists e :: e in WalkDisk(disk) && e.id == id
      ensures forall id :: id in ledger <==>
        id in old(ledger) && (id in old(index) ==> exists e :: e in WalkDisk(disk) && e.id == id)
      ensures forall id | id in ledger :: ledger[id] == old(ledger)[id]
    {
      var rows := index;
      var seen := Repair(WalkDisk(disk));
      Drop(rows.Keys - seen);
      MergeThenDrop(rows, Reconciled(rows, WalkDisk(disk), |WalkDisk(disk)|));
      ReconciledKeys(rows, WalkDisk(disk), |WalkDisk(disk)|);
    }
  }

  lemma {:induction false} MergeThenDrop(rows: Rows, kept: Rows)
    ensures (rows + kept) - (rows.Keys - kept.Keys) == kept
  {
  }

  lemma {:induction false} ReconciledKeys(rows: Rows, es: seq<Entry>, n: nat)
    requires n <= |es|
    ensures forall id :: id in Reconciled(rows, es, n) <==> exists i :: 0 <= i < n && es[i].id == id
    ensures n == |es| ==> forall id :: id in Reconciled(rows, es, n) <==> exists e :: e in es && e.id == id
  {
    if n > 0 { ReconciledKeys(rows, es, n - 1); }
  }

  lemma {:induction false} ReconciledAt(rows: Rows, es: seq<Entry>, n: nat, i: nat)
    requires i < n <= |es| && Unique(es)
    ensures es[i].id in Reconciled(rows, es, n) && Reconciled(rows, es, n)[es[i].id] == RowFor(rows, es[i])
  {
    if i < n - 1 {
      ReconciledAt(rows, es, n - 1, i);
      assert es[i].id != es[n - 1].id;
    }
  }

  lemma {:induction false} EntryRow(rows: Rows, es: seq<Entry>, e: Entry)
    requires Unique(es) && e in es
    ensures e.id in Reconciled(rows, es, |es|) && Reconciled(rows, es, |es|)[e.id] == RowFor(rows, e)
  {
    var i :| 0 <= i < |es| && es[i] == e;
    ReconciledAt(rows, es, |es|, i);
  }

  /** The normal form: the index holds exactly the directories, with their parents and
      depths; nothing is running, pending nodes are leaves, verdicts and dependencies are
      kept. */
  lemma {:induction false} ReconcileIsNormal(rows: Rows, es: seq<Entry>)
    requires Unique(es)
    ensures var r := Reconciled(rows, es, |es|);
      && (forall id :: id in r <==> exists e :: e in es && e.id == id)
      && (forall e | e in es :: r[e.id].parent == e.parent && r[e.id].depth == e.depth)
      && (forall e | e in es :: r[e.id].status != Running && (r[e.id].status == Pending ==> !e.hasChildren))
      && (forall e | e in es && e.id in rows && rows[e.id].status in {Complete, Failed, Suspended, Split} ::
            r[e.id].status == rows[e.id].status)
      && (forall e | e in es && (e.id !in rows || rows[e.id].status in {Running, Pending}) ::
            r[e.id].status == if e.hasChildren then Split else Pending)
      && (forall e | e in es :: r[e.id].dependsOn == if e.id in rows then rows[e.id].dependsOn else [])
      && (forall e | e in es :: r[e.id].depFp == if e.id in rows then rows[e.id].depFp else map[])
  {
    hide Reconciled;
    var r := Reconciled(rows, es, |es|);
    forall e | e in es ensures e.id in r && r[e.id] == RowFor(rows, e) { EntryRow(rows, es, e); }
    ReconciledKeys(rows, es, |es|);
    forall id | id in r ensures exists e :: e in es && e.id == id {
      var i :| 0 <= i < |es| && es[i].id == id;
      assert es[i] in es;
    }
  }

  lemma {:induction false} SameRowsSame(a: Rows, b: Rows, es: seq<Entry>, n: nat)
    requires n <= |es| && forall e | e in es :: RowFor(a, e) == RowFor(b, e)
    ensures Reconciled(a, es, n) == Reconciled(b, es, n)
  {
    if n > 0 { SameRowsSame(a, b, es, n - 1); }
  }

  /** Reconciling again changes nothing. */
  lemma {:induction false} ReconcileIsIdempotent(rows: Rows, es: seq<Entry>)
    requires Unique(es)
    ensures var r := Reconciled(rows, es, |es|); Reconciled(r, es, |es|) == r
  {
    var r := Reconciled(rows, es, |es|);
    forall e | e in es ensures RowFor(r, e) == RowFor(rows, e) { EntryRow(rows, es, e); }
    SameRowsSame(r, rows, es, |es|);
  }

  // ---- A new child directory ----

  /** `create_dir_all` of a child of `p`. */
  function AddSubdir(d: Dir, p: string, c: string): (r: Dir)
    ensures r.name == d.name && (d.subdirs != [] ==> r.subdirs != [])
    decreases d
  {
    var below := AddSubdirAll(d.subdirs, p, c);
    Dir(d.name, if d.name == p then below + [Dir(c, [])] else below)
  }

  function AddSubdirAll(ds: seq<Dir>, p: string, c: string): (r: seq<Dir>)
    ensures |r| == |ds|
    decreases ds
  {
    if ds == [] then [] else [AddSubdir(ds[0], p, c)] + AddSubdirAll(ds[1..], p, c)
  }

  /** `e` is listed by the walk of `d`. */
  predicate Has(d: Dir, parent: Option<string>, depth: nat, e: Entry)
    decreases d
  {
    e == Entry(d.name, parent, depth, d.subdirs != []) || HasAll(d.subdirs, d.name, depth + 1, e)
  }

  predicate HasAll(ds: seq<Dir>, parent: string, depth: nat, e: Entry)
    decreases ds
  {
    ds != [] && (Has(ds[0], Some(parent), depth, e) || HasAll(ds[1..], parent, depth, e))
  }

  /** How often the walk of `d` lists the id `x`. */
  function Count(d: Dir, x: string): nat
    decreases d
  {
    (if d.name == x then 1 else 0) + CountAll(d.subdirs, x)
  }

  function CountAll(ds: seq<Dir>, x: string): nat
    decreases ds
  {
    if ds == [] then 0 else Count(ds[0], x) + CountAll(ds[1..], x)
  }

  lemma {:induction false} WalkLists(d: Dir, parent: Option<string>, depth: nat, e: Entry)
    ensures e in Walk(d, parent, depth) <==> Has(d, parent, depth, e)
    decreases d
  {
    WalkAllLists(d.subdirs, d.name, depth + 1, e);
  }

  lemma {:induction false} WalkAllLists(ds: seq<Dir>, parent: string, depth: nat, e: Entry)
    ensures e in WalkAll(ds, parent, depth) <==> HasAll(ds, parent, depth, e)
    decreases ds
  {
    if ds != [] {
      WalkLists(ds[0], Some(parent), depth, e);
      WalkAllLists(ds[1..], parent, depth, e);
    }
  }

  // ---- What is walked ----

  /** Directories from `d` down, each among the subdirectories of the one before. */
  ghost predicate Trail(d: Dir, path: seq<Dir>) {
    path != [] && path[0] == d && forall k | 0 <= k < |path| - 1 :: path[k + 1] in path[k].subdirs
  }

  /** What is listed of the directory at the end of a trail: its name, that of the directory above it, how
      deep it lies and whether there is anything below it. */
  ghost function ListedAs(path: seq<Dir>, parent: Option<string>, depth: nat): Entry
    requires path != []
  {
    var last := path[|path| - 1];
    Entry(
      last.name, if |path| == 1 then parent else Some(path[|path| - 2].name), depth + |path| - 1, last.subdirs != [])
  }

  lemma {:induction false} HasSubdir(ds: seq<Dir>, parent: string, depth: nat, e: Entry)
    ensures HasAll(ds, parent, depth, e) <==> exists d :: d in ds && Has(d, Some(parent), depth, e)
  {
    if ds != [] {
      HasSubdir(ds[1..], parent, depth, e);
      if d :| d in ds && Has(d, Some(parent), depth, e) { assert d == ds[0] || d in ds[1..]; }
    }
  }

  lemma {:induction false} TrailTo(d: Dir, parent: Option<string>, depth: nat, e: Entry) returns (path: seq<Dir>)
    requires Has(d, parent, depth, e)
    ensures Trail(d, path) && e == ListedAs(path, parent, depth)
    decreases d
  {
    path := [d];
    if e != ListedAs(path, parent, depth) {
      HasSubdir(d.subdirs, d.name, depth + 1, e);
      var next :| next in d.subdirs && Has(next, Some(d.name), depth + 1, e);
      var rest := TrailTo(next, Some(d.name), depth + 1, e);
      path := [d] + rest;
    }
  }

  lemma {:induction false} TrailIsWalked(d: Dir, parent: Option<string>, depth: nat, path: seq<Dir>)
    requires Trail(d, path)
    ensures Has(d, parent, depth, ListedAs(path, parent, depth))
    decreases |path|
  {
    if |path| > 1 {
      var rest := path[1..];
      forall k | 0 <= k < |rest| - 1 ensures rest[k + 1] in rest[k].subdirs {
        assert path[k + 2] in path[k + 1].subdirs;
      }
      assert path[0 + 1] in path[0].subdirs;
      TrailIsWalked(path[1], Some(d.name), depth + 1, rest);
      HasSubdir(d.subdirs, d.name, depth + 1, ListedAs(path, parent, depth));
    }
  }

  /** Exactly the directories that some trail leads to are listed. */
  lemma {:induction false} WalkMeans(d: Dir, e: Entry)
    ensures e in WalkDisk(Some(d)) <==> exists path :: Trail(d, path) && e == ListedAs(path, None, 1)
    ensures WalkDisk(None) == []
  {
    WalkLists(d, None, 1, e);
    if Has(d, None, 1, e) { var path := TrailTo(d, None, 1, e); }
    forall path | Trail(d, path) && e == ListedAs(path, None, 1) ensures Has(d, None, 1, e) {
      TrailIsWalked(d, None, 1, path);
    }
  }

  lemma {:induction false} HasIsCounted(d: Dir, parent: Option<string>, depth: nat, e: Entry)
    requires Has(d, parent, depth, e)
    ensures Count(d, e.id) > 0
    decreases d
  {
    if e != Entry(d.name, parent, depth, d.subdirs != []) { HasAllIsCounted(d.subdirs, d.name, depth + 1, e); }
  }

  lemma {:induction false} HasAllIsCounted(ds: seq<Dir>, parent: string, depth: nat, e: Entry)
    requires HasAll(ds, parent, depth, e)
    ensures CountAll(ds, e.id) > 0
    decreases ds
  {
    if Has(ds[0], Some(parent), depth, e) { HasIsCounted(ds[0], Some(parent), depth, e); }
    else { HasAllIsCounted(ds[1..], parent, depth, e); }
  }

  ghost predicate Apart(a: seq<Entry>, b: seq<Entry>) {
    forall i, j | 0 <= i < |a| && 0 <= j < |b| :: a[i].id != b[j].id
  }

  lemma {:induction false} UniqueConcat(a: seq<Entry>, b: seq<Entry>)
    requires Unique(a) && Unique(b) && Apart(a, b)
    ensures Unique(a + b)
  {
  }

  /** A tree that lists no id twice is walked without repetition. */
  lemma {:induction false} CountedOnceIsUnique(d: Dir, parent: Option<string>, depth: nat)
    requires forall x :: Count(d, x) <= 1
    ensures Unique(Walk(d, parent, depth))
    decreases d
  {
    forall x ensures CountAll(d.subdirs, x) <= 1 && CountAll(d.subdirs, d.name) == 0 {
      assert Count(d, x) <= 1 && Count(d, d.name) <= 1;
    }
    CountedOnceIsUniqueAll(d.subdirs, d.name, depth + 1);
    var head, rest := [Entry(d.name, parent, depth, d.subdirs != [])], WalkAll(d.subdirs, d.name, depth + 1);
    forall i, j | 0 <= i < 1 && 0 <= j < |rest| ensures head[i].id != rest[j].id {
      WalkAllLists(d.subdirs, d.name, depth + 1, rest[j]);
      HasAllIsCounted(d.subdirs, d.name, depth + 1, rest[j]);
    }
    UniqueConcat(head, rest);
  }

  lemma {:induction false} CountedOnceIsUniqueAll(ds: seq<Dir>, parent: string, depth: nat)
    requires forall x :: CountAll(ds, x) <= 1
    ensures Unique(WalkAll(ds, parent, depth))
    decreases ds
  {
    if ds != [] {
      forall x ensures Count(ds[0], x) <= 1 && CountAll(ds[1..], x) <= 1 { assert CountAll(ds, x) <= 1; }
      CountedOnceIsUnique(ds[0], Some(parent), depth);
      CountedOnceIsUniqueAll(ds[1..], parent, depth);
      var first, rest := Walk(ds[0], Some(parent), depth), WalkAll(ds[1..], parent, depth);
      forall i, j | 0 <= i < |first| && 0 <= j < |rest| ensures first[i].id != rest[j].id {
        WalkLists(ds[0], Some(parent), depth, first[i]);
        HasIsCounted(ds[0], Some(parent), depth, first[i]);
        WalkAllLists(ds[1..], parent, depth, rest[j]);
        HasAllIsCounted(ds[1..], parent, depth, rest[j]);
        assert CountAll(ds, first[i].id) <= 1;
      }
      UniqueConcat(first, rest);
    }
  }

  lemma {:induction false} AddedCount(d: Dir, p: string, c: string, x: string)
    ensures Count(AddSubdir(d, p, c), x) == Count(d, x) + if x == c then Count(d, p) else 0
    decreases d
  {
    AddedCountAll(d.subdirs, p, c, x);
    if d.name == p { CountAllSnoc(AddSubdirAll(d.subdirs, p, c), Dir(c, []), x); }
  }

  lemma {:induction false} CountAllSnoc(ds: seq<Dir>, d: Dir, x: string)
    ensures CountAll(ds + [d], x) == CountAll(ds, x) + Count(d, x)
  {
    if ds == [] {
      assert (ds + [d])[1..] == [];
    } else {
      assert (ds + [d])[1..] == ds[1..] + [d];
      CountAllSnoc(ds[1..], d, x);
    }
  }

  lemma {:induction false} AddedCountAll(ds: seq<Dir>, p: string, c: string, x: string)
    ensures CountAll(AddSubdirAll(ds, p, c), x) == CountAll(ds, x) + if x == c then CountAll(ds, p) else 0
    decreases ds
  {
    if ds != [] {
      AddedCount(ds[0], p, c, x);
      AddedCountAll(ds[1..], p, c, x);
      assert AddSubdirAll(ds, p, c)[1..] == AddSubdirAll(ds[1..], p, c);
    }
  }

  /** An entry of the grown tree comes from one of the old tree. */
  predicate From(e: Entry, e': Entry, p: string, c: string) {
    if e.id == p then e' == e.(hasChildren := true) || e' == Entry(c, Some(p), e.depth + 1, false)
    else e' == e
  }

  lemma {:induction false} HasAllSnoc(ds: seq<Dir>, d: Dir, parent: string, depth: nat, e: Entry)
    ensures HasAll(ds + [d], parent, depth, e) <==> HasAll(ds, parent, depth, e) || Has(d, Some(parent), depth, e)
  {
    if ds == [] {
      assert (ds + [d])[1..] == [];
    } else {
      assert (ds + [d])[1..] == ds[1..] + [d];
      HasAllSnoc(ds[1..], d, parent, depth, e);
    }
  }

  lemma {:induction false} AddedFrom(
    d: Dir, p: string, c: string, parent: Option<string>, depth: nat, e': Entry)
    returns (e: Entry)
    requires Has(AddSubdir(d, p, c), parent, depth, e')
    ensures Has(d, parent, depth, e) && From(e, e', p, c)
    decreases d
  {
    var below, leaf := AddSubdirAll(d.subdirs, p, c), Dir(c, []);
    e := Entry(d.name, parent, depth, d.subdirs != []);
    if d.name == p { HasAllSnoc(below, leaf, d.name, depth + 1, e'); }
    if HasAll(below, d.name, depth + 1, e') { e := AddedFromAll(d.subdirs, p, c, d.name, depth + 1, e'); }
  }

  lemma {:induction false} AddedFromAll(
    ds: seq<Dir>, p: string, c: string, parent: string, depth: nat, e': Entry)
    returns (e: Entry)
    requires HasAll(AddSubdirAll(ds, p, c), parent, depth, e')
    ensures HasAll(ds, parent, depth, e) && From(e, e', p, c)
    decreases ds
  {
    assert AddSubdirAll(ds, p, c)[1..] == AddSubdirAll(ds[1..], p, c);
    if Has(AddSubdir(ds[0], p, c), Some(parent), depth, e') { e := AddedFrom(ds[0], p, c, Some(parent), depth, e'); }
    else { e := AddedFromAll(ds[1..], p, c, parent, depth, e'); }
  }

  lemma {:induction false} AddedTo(
    d: Dir, p: string, c: string, parent: Option<string>, depth: nat, e: Entry, e': Entry)
    requires Has(d, parent, depth, e) && From(e, e', p, c)
    ensures Has(AddSubdir(d, p, c), parent, depth, e')
    decreases d
  {
    var below, leaf := AddSubdirAll(d.subdirs, p, c), Dir(c, []);
    if d.name == p { HasAllSnoc(below, leaf, d.name, depth + 1, e'); }
    if e != Entry(d.name, parent, depth, d.subdirs != []) { AddedToAll(d.subdirs, p, c, d.name, depth + 1, e, e'); }
  }

  lemma {:induction false} AddedToAll(
    ds: seq<Dir>, p: string, c: string, parent: string, depth: nat, e: Entry, e': Entry)
    requires HasAll(ds, parent, depth, e) && From(e, e', p, c)
    ensures HasAll(AddSubdirAll(ds, p, c), parent, depth, e')
    decreases ds
  {
    assert AddSubdirAll(ds, p, c)[1..] == AddSubdirAll(ds[1..], p, c);
    if Has(ds[0], Some(parent), depth, e) { AddedTo(ds[0], p, c, Some(parent), depth, e, e'); }
    else { AddedToAll(ds[1..], p, c, parent, depth, e, e'); }
  }

  // ---- A crash inside add_children ----

  /** The durable writes of one split, each of which reaches the disk on its own. */
  datatype Write =
    | MakeDir(id: string)
    | InsertRow(id: string, dependsOn: seq<string>)
    | Charge(granted: nat)
    | OpenRow(grant: nat)
    | MarkSplit

  /** `charged` is what the parent's `children` column gained, `onRecord` the child allowances on record. */
  datatype World = World(disk: Dir, index: Rows, charged: nat, onRecord: seq<nat>)

  /** A split of `parent` (walked as `at`) into `ids` with dependencies `deps` and allowances `grants`. */
  datatype SplitPlan = SplitPlan(at: Entry, ids: seq<string>, deps: seq<seq<string>>, grants: seq<nat>) {
    ghost predicate Valid() {
      ids != [] && |ids| == |deps| == |grants| && forall i, j | 0 <= i < j < |ids| :: ids[i] != ids[j]
    }
    function Length(): nat { 3 * |ids| + 2 }
  }

  /** The row of a new child. */
  function NewRow(at: Entry, dependsOn: seq<string>): IndexRow {
    IndexRow(Some(at.id), at.depth + 1, Pending, dependsOn, map[])
  }

  function WriteAt(plan: SplitPlan, k: nat): Write
    requires plan.Valid() && k < plan.Length()
  {
    var n := |plan.ids|;
    if k < n then MakeDir(plan.ids[k])
    else if k < 2 * n then InsertRow(plan.ids[k - n], plan.deps[k - n])
    else if k == 2 * n then Charge(Ledger.Sum(plan.grants))
    else if k <= 3 * n then OpenRow(plan.grants[k - 2 * n - 1])
    else MarkSplit
  }

  function Apply(w: World, at: Entry, write: Write): World {
    match write
    case MakeDir(id) => w.(disk := AddSubdir(w.disk, at.id, id))
    case InsertRow(id, dependsOn) =>
      if id in w.index then w else w.(index := w.index[id := NewRow(at, dependsOn)])
    case Charge(granted) => w.(charged := w.charged + granted)
    case OpenRow(grant) => w.(onRecord := w.onRecord + [grant])
    case MarkSplit =>
      if at.id in w.index then w.(index := w.index[at.id := w.index[at.id].(status := Split)]) else w
  }

  /** The state when the process dies after the first `k` writes. */
  function Crashed(w: World, plan: SplitPlan, k: nat): World
    requires plan.Valid() && k <= plan.Length()
    decreases k
  {
    if k == 0 then w else Apply(Crashed(w, plan, k - 1), plan.at, WriteAt(plan, k - 1))
  }

  /** The parent is on disk and running or pending, no id occurs twice, the new ids are new on disk. */
  ghost predicate Ready(w: World, plan: SplitPlan) {
    && plan.Valid() && w.charged == 0 && w.onRecord == []
    && (forall x :: Count(w.disk, x) <= 1)
    && Has(w.disk, None, 1, plan.at) && plan.at.id !in plan.ids
    && plan.at.id in w.index && w.index[plan.at.id].status in {Running, Pending}
    && forall id | id in plan.ids :: Count(w.disk, id) == 0
  }

  function Made(plan: SplitPlan, k: nat): nat { if k < |plan.ids| then k else |plan.ids| }

  /** Where the entries of the disk come from once `m` child directories exist. */
  predicate Origin(d: Dir, plan: SplitPlan, m: nat, e: Entry)
    requires m <= |plan.ids|
  {
    if e.id == plan.at.id then e == plan.at.(hasChildren := plan.at.hasChildren || m > 0)
    else if e.id in plan.ids[..m] then e == Entry(e.id, Some(plan.at.id), plan.at.depth + 1, false)
    else Has(d, None, 1, e)
  }

  lemma {:induction false} DiskUnchanged(w: World, plan: SplitPlan, k: nat)
    requires plan.Valid() && |plan.ids| <= k <= plan.Length()
    ensures Crashed(w, plan, k).disk == Crashed(w, plan, |plan.ids|).disk
  {
    if k > |plan.ids| { DiskUnchanged(w, plan, k - 1); }
  }

  lemma {:induction false} CrashedCount(w: World, plan: SplitPlan, k: nat, x: string)
    requires Ready(w, plan) && k <= |plan.ids|
    ensures Count(Crashed(w, plan, k).disk, x) == Count(w.disk, x) + if x in plan.ids[..k] then 1 else 0
  {
    hide Count, AddSubdir, Has;
    if k > 0 {
      var before := Crashed(w, plan, k - 1).disk;
      CrashedCount(w, plan, k - 1, x);
      CrashedCount(w, plan, k - 1, plan.at.id);
      HasIsCounted(w.disk, None, 1, plan.at);
      AddedCount(before, plan.at.id, plan.ids[k - 1], x);
      assert plan.ids[..k] == plan.ids[..k - 1] + [plan.ids[k - 1]];
    }
  }

  /** Two entries with one id in a tree that lists no id twice are the same entry. */
  lemma {:induction false} OneEntryPerId(d: Dir, a: Entry, b: Entry)
    requires (forall x :: Count(d, x) <= 1) && Has(d, None, 1, a) && Has(d, None, 1, b) && a.id == b.id
    ensures a == b
  {
    CountedOnceIsUnique(d, None, 1);
    WalkLists(d, None, 1, a);
    WalkLists(d, None, 1, b);
    var es := Walk(d, None, 1);
    var i, j :| 0 <= i < |es| && 0 <= j < |es| && es[i] == a && es[j] == b;
  }

  lemma {:induction false} CrashedOrigin(w: World, plan: SplitPlan, k: nat, e: Entry)
    requires Ready(w, plan) && k <= |plan.ids| && Has(Crashed(w, plan, k).disk, None, 1, e)
    ensures Origin(w.disk, plan, k, e)
  {
    if k == 0 {
      if e.id == plan.at.id { OneEntryPerId(w.disk, e, plan.at); }
    } else {
      var source := AddedFrom(Crashed(w, plan, k - 1).disk, plan.at.id, plan.ids[k - 1], None, 1, e);
      CrashedOrigin(w, plan, k - 1, source);
      assert plan.ids[..k] == plan.ids[..k - 1] + [plan.ids[k - 1]];
      if source.id != plan.at.id && source.id == plan.ids[k - 1] { HasIsCounted(w.disk, None, 1, source); }
    }
  }

  lemma {:induction false} CrashedKeeps(w: World, plan: SplitPlan, k: nat, e: Entry)
    requires Ready(w, plan) && k <= |plan.ids| && Has(w.disk, None, 1, e)
    ensures Has(Crashed(w, plan, k).disk, None, 1,
                if e.id == plan.at.id then e.(hasChildren := e.hasChildren || k > 0) else e)
  {
    if k > 0 {
      CrashedKeeps(w, plan, k - 1, e);
      var before := if e.id == plan.at.id then e.(hasChildren := e.hasChildren || k - 1 > 0) else e;
      var after := if e.id == plan.at.id then e.(hasChildren := true) else e;
      AddedTo(Crashed(w, plan, k - 1).disk, plan.at.id, plan.ids[k - 1], None, 1, before, after);
    } else if e.id == plan.at.id {
      assert e.(hasChildren := e.hasChildren || false) == e;
    }
  }

  /** Every child directory that was made is on disk. */
  lemma {:induction false} CrashedMakes(w: World, plan: SplitPlan, k: nat, j: nat)
    requires Ready(w, plan) && j < k <= |plan.ids|
    ensures Has(Crashed(w, plan, k).disk, None, 1, Entry(plan.ids[j], Some(plan.at.id), plan.at.depth + 1, false))
  {
    var child := Entry(plan.ids[j], Some(plan.at.id), plan.at.depth + 1, false);
    var before := if j < k - 1 then child else plan.at.(hasChildren := plan.at.hasChildren || k - 1 > 0);
    if j < k - 1 { CrashedMakes(w, plan, k - 1, j); } else { CrashedKeeps(w, plan, k - 1, plan.at); }
    AddedTo(Crashed(w, plan, k - 1).disk, plan.at.id, plan.ids[k - 1], None, 1, before, child);
  }

  lemma {:induction false} CrashedIndex(w: World, plan: SplitPlan, k: nat, x: string)
    requires Ready(w, plan) && k <= plan.Length() && x !in plan.ids
    ensures var i := Crashed(w, plan, k).index;
      && (x in i <==> x in w.index)
      && (x in i ==> i[x] == if x == plan.at.id && k == plan.Length() then w.index[x].(status := Split) else w.index[x])
  {
    if k > 0 { CrashedIndex(w, plan, k - 1, x); }
  }

  /** A new row is written unless there is one under its id. */
  lemma {:induction false} WrittenRow(w: World, plan: SplitPlan, k: nat, j: nat)
    requires plan.Valid() && plan.at.id !in plan.ids && k <= plan.Length() && j < |plan.ids|
    ensures var i, id := Crashed(w, plan, k).index, plan.ids[j];
      && (id in i <==> id in w.index || k > |plan.ids| + j)
      && (id in i ==> i[id] == if id in w.index then w.index[id] else NewRow(plan.at, plan.deps[j]))
  {
    if k > 0 { WrittenRow(w, plan, k - 1, j); }
  }

  /** No child allowance is on record before the parent was charged for all of them. */
  lemma {:induction false} CrashedLedger(w: World, plan: SplitPlan, k: nat)
    requires Ready(w, plan) && k <= plan.Length()
    ensures var c, n := Crashed(w, plan, k), |plan.ids|;
      && c.charged == (if k > 2 * n then Ledger.Sum(plan.grants) else 0)
      && c.onRecord == plan.grants[..if k <= 2 * n + 1 then 0 else if k <= 3 * n + 1 then k - 2 * n - 1 else n]
  {
    if k > 0 { CrashedLedger(w, plan, k - 1); }
  }

  lemma {:induction false} PrefixSum(xs: seq<nat>, n: nat)
    requires n <= |xs|
    ensures Ledger.Sum(xs[..n]) <= Ledger.Sum(xs)
  {
    if n < |xs| {
      PrefixSum(xs[..|xs| - 1], n);
      assert xs[..|xs| - 1][..n] == xs[..n];
    } else {
      assert xs[..n] == xs;
    }
  }

  /** The disk after a crash lists no id twice, and its entries are exactly the old
      ones and a leaf for each child directory that was made. */
  lemma {:induction false} CrashedDisk(w: World, plan: SplitPlan, k: nat)
    requires Ready(w, plan) && k <= plan.Length()
    ensures var es := Walk(Crashed(w, plan, k).disk, None, 1); Unique(es)
    ensures forall e | e in Walk(Crashed(w, plan, k).disk, None, 1) :: Origin(w.disk, plan, Made(plan, k), e)
    ensures plan.at.(hasChildren := plan.at.hasChildren || Made(plan, k) > 0) in Walk(Crashed(w, plan, k).disk, None, 1)
  {
    var m := Made(plan, k);
    if k > |plan.ids| { DiskUnchanged(w, plan, k); }
    var d := Crashed(w, plan, m).disk;
    assert Crashed(w, plan, k).disk == d;
    forall x ensures Count(d, x) <= 1 { CrashedCount(w, plan, m, x); }
    CountedOnceIsUnique(d, None, 1);
    forall e | e in Walk(d, None, 1) ensures Origin(w.disk, plan, m, e) {
      WalkLists(d, None, 1, e);
      CrashedOrigin(w, plan, m, e);
    }
    CrashedKeeps(w, plan, m, plan.at);
    WalkLists(d, None, 1, plan.at.(hasChildren := plan.at.hasChildren || m > 0));
  }

  lemma {:induction false} CreatedIsLeaf(w: World, plan: SplitPlan, m: nat, e: Entry)
    requires Ready(w, plan) && m <= |plan.ids| && Origin(w.disk, plan, m, e) && e.id in plan.ids
    ensures e == Entry(e.id, Some(plan.at.id), plan.at.depth + 1, false)
  {
    if e.id !in plan.ids[..m] { HasIsCounted(w.disk, None, 1, e); }
  }

  /** The row the split's parent is left with. */
  function ParentRow(w: World, plan: SplitPlan, k: nat): IndexRow
    requires plan.at.id in w.index
  {
    w.index[plan.at.id].(parent := plan.at.parent, depth := plan.at.depth,
                         status := if plan.at.hasChildren || k > 0 then Split else Pending)
  }

  /** The row the `j`-th new child is left with: one that was there before stands, put back to pending if it
      was running; otherwise a new one, with its dependencies if it had been written. */
  function ChildRow(w: World, plan: SplitPlan, k: nat, j: nat): IndexRow
    requires j < |plan.ids| == |plan.deps|
  {
    var id := plan.ids[j];
    if id in w.index then
      w.index[id].(parent := Some(plan.at.id), depth := plan.at.depth + 1,
                   status := Repaired(w.index[id].status, false))
    else NewRow(plan.at, if k > |plan.ids| + j then plan.deps[j] else [])
  }

  /** What `reconcile` makes of each directory that a crash leaves. */
  lemma {:induction false} CrashedRow(w: World, plan: SplitPlan, k: nat, e: Entry)
    requires Ready(w, plan) && k <= plan.Length() && e in Walk(Crashed(w, plan, k).disk, None, 1)
    ensures e.id == plan.at.id ==> RowFor(Crashed(w, plan, k).index, e) == ParentRow(w, plan, k)
    ensures forall j | 0 <= j < |plan.ids| && e.id == plan.ids[j] ::
      RowFor(Crashed(w, plan, k).index, e) == ChildRow(w, plan, k, j)
    ensures e.id != plan.at.id && e.id !in plan.ids ==>
      Has(w.disk, None, 1, e) && RowFor(Crashed(w, plan, k).index, e) == RowFor(w.index, e)
  {
    hide Crashed;
    CrashedDisk(w, plan, k);
    if e.id !in plan.ids { CrashedIndex(w, plan, k, e.id); }
    forall j | 0 <= j < |plan.ids| && e.id == plan.ids[j]
      ensures RowFor(Crashed(w, plan, k).index, e) == ChildRow(w, plan, k, j)
    {
      WrittenRow(w, plan, k, j);
      CreatedIsLeaf(w, plan, Made(plan, k), e);
    }
  }

  /** A crash anywhere in a split is repaired: after `reconcile` the index is the disk
      tree, the parent is split exactly when it has a child directory and otherwise
      pending, every created child stands at its place with the row it met, or pending with
      its dependencies as far as its row was written, every other node is what reconciling
      without the split makes it, and allowances on record never exceed what the parent was
      charged. */
  lemma {:induction false} CrashIsRepaired(w: World, plan: SplitPlan, k: nat)
    requires Ready(w, plan) && k <= plan.Length()
    ensures var c := Crashed(w, plan, k); var es := Walk(c.disk, None, 1); var r := Reconciled(c.index, es, |es|);
      && (forall id :: id in r <==> exists e :: e in es && e.id == id)
      && (forall e | e in es :: r[e.id].parent == e.parent && r[e.id].depth == e.depth)
      && plan.at.id in r && r[plan.at.id] == ParentRow(w, plan, k)
      && (forall j | 0 <= j < |plan.ids| && plan.ids[j] in r ::
            r[plan.ids[j]] == ChildRow(w, plan, k, j))
      && (forall e | e in es && e.id != plan.at.id && e.id !in plan.ids ::
            Has(w.disk, None, 1, e) && r[e.id] == RowFor(w.index, e))
      && Ledger.Sum(c.onRecord) <= c.charged
  {
    hide Crashed, RowFor;
    var c := Crashed(w, plan, k);
    var es := Walk(c.disk, None, 1);
    CrashedDisk(w, plan, k);
    ReconcileIsNormal(c.index, es);
    forall e | e in es ensures Reconciled(c.index, es, |es|)[e.id] == RowFor(c.index, e) { EntryRow(c.index, es, e); }
    assert plan.at.(hasChildren := plan.at.hasChildren || Made(plan, k) > 0) in es;
    forall e | e in es
      ensures e.id == plan.at.id ==> RowFor(c.index, e) == ParentRow(w, plan, k)
      ensures forall j | 0 <= j < |plan.ids| && e.id == plan.ids[j] ::
        RowFor(c.index, e) == ChildRow(w, plan, k, j)
      ensures e.id != plan.at.id && e.id !in plan.ids ==>
        Has(w.disk, None, 1, e) && RowFor(c.index, e) == RowFor(w.index, e)
    {
      CrashedRow(w, plan, k, e);
    }
    CrashedLedger(w, plan, k);
    PrefixSum(plan.grants, |c.onRecord|);
  }
}

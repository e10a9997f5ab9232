/** Deleting a node (`delete_node`, src/store.rs) takes its whole directory but only its own row: what stays in
    the index, and what a later split under the same ids then reads back. */
module Leftovers {
  import opened Text
  import opened Nodes
  import opened Selection
  import opened Runs
  import opened Recovery
  import Disk = Reconciliation

  /** The tree without the directory `x` and everything in it. */
  function Without(d: Disk.Dir, x: string): (r: Disk.Dir)
    ensures r.name == d.name
    decreases d
  {
    Disk.Dir(d.name, WithoutAll(d.subdirs, x))
  }

  function WithoutAll(ds: seq<Disk.Dir>, x: string): seq<Disk.Dir>
    decreases ds
  {
    if ds == [] then []
    else (if ds[0].name == x then [] else [Without(ds[0], x)]) + WithoutAll(ds[1..], x)
  }

  /** `delete_node` of a node other than the root. */
  function DeleteNode(w: Disk.World, x: string): Disk.World {
    w.(disk := Without(w.disk, x), index := w.index - {x})
  }

  lemma {:induction false} WithoutAllStep(ds: seq<Disk.Dir>, x: string)
    requires ds != []
    ensures ds[0].name == x ==> WithoutAll(ds, x) == WithoutAll(ds[1..], x)
    ensures ds[0].name != x ==> WithoutAll(ds, x) != [] && WithoutAll(ds, x)[0] == Without(ds[0], x)
    ensures ds[0].name != x ==> WithoutAll(ds, x)[1..] == WithoutAll(ds[1..], x)
  {
  }

  lemma {:induction false} WithoutCount(d: Disk.Dir, x: string, y: string)
    ensures Disk.Count(Without(d, x), y) <= Disk.Count(d, y)
    ensures y == x && d.name != x ==> Disk.Count(Without(d, x), y) == 0
    decreases d
  {
    WithoutCountAll(d.subdirs, x, y);
  }

  lemma {:induction false} WithoutCountAll(ds: seq<Disk.Dir>, x: string, y: string)
    ensures Disk.CountAll(WithoutAll(ds, x), y) <= Disk.CountAll(ds, y)
    ensures y == x ==> Disk.CountAll(WithoutAll(ds, x), y) == 0
    decreases ds
  {
    if ds != [] {
      WithoutAllStep(ds, x);
      WithoutCountAll(ds[1..], x, y);
      if ds[0].name != x { WithoutCount(ds[0], x, y); }
    }
  }

  /** What is left was there before, under the same parent. */
  lemma {:induction false} WithoutFrom(
    d: Disk.Dir, x: string, parent: Option<string>, depth: nat, e': Disk.Entry)
    returns (e: Disk.Entry)
    requires Disk.Has(Without(d, x), parent, depth, e')
    ensures Disk.Has(d, parent, depth, e) && e.id == e'.id && e.parent == e'.parent && e.depth == e'.depth
    decreases d
  {
    e := Disk.Entry(d.name, parent, depth, d.subdirs != []);
    if Disk.HasAll(WithoutAll(d.subdirs, x), d.name, depth + 1, e') {
      e := WithoutFromAll(d.subdirs, x, d.name, depth + 1, e');
    }
  }

  lemma {:induction false} WithoutFromAll(ds: seq<Disk.Dir>, x: string, parent: string, depth: nat, e': Disk.Entry)
    returns (e: Disk.Entry)
    requires Disk.HasAll(WithoutAll(ds, x), parent, depth, e')
    ensures Disk.HasAll(ds, parent, depth, e) && e.id == e'.id && e.parent == e'.parent && e.depth == e'.depth
    decreases ds
  {
    WithoutAllStep(ds, x);
    if ds[0].name != x && Disk.Has(Without(ds[0], x), Some(parent), depth, e') {
      e := WithoutFrom(ds[0], x, Some(parent), depth, e');
    } else {
      e := WithoutFromAll(ds[1..], x, parent, depth, e');
    }
  }

  /** Deleting a leaf leaves every other directory. */
  lemma {:induction false} WithoutLeafKeeps(
    d: Disk.Dir, x: string, parent: Option<string>, depth: nat, e: Disk.Entry)
    returns (e': Disk.Entry)
    requires Disk.Has(d, parent, depth, e) && e.id != x
    requires forall f | Disk.Has(d, parent, depth, f) && f.id == x :: !f.hasChildren
    ensures Disk.Has(Without(d, x), parent, depth, e') && e'.id == e.id
    decreases d
  {
    e' := Disk.Entry(d.name, parent, depth, WithoutAll(d.subdirs, x) != []);
    if Disk.HasAll(d.subdirs, d.name, depth + 1, e) {
      e' := WithoutLeafKeepsAll(d.subdirs, x, d.name, depth + 1, e);
    }
  }

  lemma {:induction false} WithoutLeafKeepsAll(
    ds: seq<Disk.Dir>, x: string, parent: string, depth: nat, e: Disk.Entry)
    returns (e': Disk.Entry)
    requires Disk.HasAll(ds, parent, depth, e) && e.id != x
    requires forall f | Disk.HasAll(ds, parent, depth, f) && f.id == x :: !f.hasChildren
    ensures Disk.HasAll(WithoutAll(ds, x), parent, depth, e') && e'.id == e.id
    decreases ds
  {
    WithoutAllStep(ds, x);
    if ds[0].name == x {
      var leaf := Disk.Entry(x, Some(parent), depth, ds[0].subdirs != []);
      assert Disk.Has(ds[0], Some(parent), depth, leaf) && Disk.HasAll(ds, parent, depth, leaf);
      assert ds[0].subdirs == [] && !Disk.Has(ds[0], Some(parent), depth, e);
      e' := WithoutLeafKeepsAll(ds[1..], x, parent, depth, e);
    } else if Disk.Has(ds[0], Some(parent), depth, e) {
      e' := WithoutLeafKeeps(ds[0], x, Some(parent), depth, e);
    } else {
      e' := WithoutLeafKeepsAll(ds[1..], x, parent, depth, e);
    }
  }

  lemma {:induction false} LeafDeletionIsBacked(rows: Disk.Rows, d: Disk.Dir, e: Disk.Entry)
    requires Backed(rows, d) && e in Entries(d) && e.id != d.name && !e.hasChildren
    ensures Backed(rows - {e.id}, Without(d, e.id))
  {
    var x, r := e.id, Without(d, e.id);
    forall y ensures Disk.Count(r, y) <= 1 { WithoutCount(d, x, y); }
    Disk.WalkLists(d, None, 1, e);
    forall f | Disk.Has(d, None, 1, f) && f.id == x ensures !f.hasChildren { Disk.OneEntryPerId(d, e, f); }
    forall id | id in rows && id != x ensures exists f :: f in Entries(r) && f.id == id {
      var f :| f in Entries(d) && f.id == id;
      Disk.WalkLists(d, None, 1, f);
      var f' := WithoutLeafKeeps(d, x, None, 1, f);
      Disk.WalkLists(r, None, 1, f');
    }
    forall f | f in Entries(r) ensures f.id in rows && f.id != x {
      Disk.WalkLists(r, None, 1, f);
      var was := WithoutFrom(d, x, None, 1, f);
      Disk.WalkLists(d, None, 1, was);
      Disk.HasIsCounted(r, None, 1, f);
      WithoutCount(d, x, x);
    }
  }

  lemma {:induction false} NotOwnChild(d: Disk.Dir, e: Disk.Entry)
    requires (forall x :: Disk.Count(d, x) <= 1) && Disk.Has(d, None, 1, e)
    ensures e.parent != Some(e.id)
  {
    if e.parent == Some(e.id) {
      var p := ParentListed(d, None, 1, e);
      Disk.OneEntryPerId(d, p, e);
    }
  }

  /** Of a deleted directory's children nothing is left on disk. */
  lemma {:induction false} ChildIsGone(d: Disk.Dir, x: string, c: Disk.Entry, e': Disk.Entry)
    requires (forall y :: Disk.Count(d, y) <= 1) && Disk.Has(d, None, 1, c) && c.parent == Some(x) && x != d.name
    requires e' in Entries(Without(d, x))
    ensures e'.id != c.id
  {
    if e'.id == c.id {
      var r := Without(d, x);
      Disk.WalkLists(r, None, 1, e');
      var was := WithoutFrom(d, x, None, 1, e');
      Disk.OneEntryPerId(d, was, c);
      var p := ParentListed(r, None, 1, e');
      Disk.HasIsCounted(r, None, 1, p);
      WithoutCount(d, x, x);
    }
  }

  /** Deleting a node keeps the index what the disk is if and only if the node has no children: the rows of
      what lies below it stay. */
  lemma {:induction false} DeletionIsBacked(rows: Disk.Rows, d: Disk.Dir, e: Disk.Entry)
    requires Backed(rows, d) && e in Entries(d) && e.id != d.name
    ensures Backed(rows - {e.id}, Without(d, e.id)) <==> !e.hasChildren
  {
    if e.hasChildren {
      Disk.WalkLists(d, None, 1, e);
      var c := ChildListed(d, None, 1, e);
      Disk.WalkLists(d, None, 1, c);
      NotOwnChild(d, c);
      assert c.id in rows - {e.id};
      forall e' | e' in Entries(Without(d, e.id)) ensures e'.id != c.id { ChildIsGone(d, e.id, c, e'); }
    } else {
      LeafDeletionIsBacked(rows, d, e);
    }
  }

  // ---- A replan ----

  /** `e` is one of the directories themselves, not something inside them. */
  predicate AtTop(ds: seq<Disk.Dir>, parent: string, depth: nat, e: Disk.Entry)
    decreases ds
  {
    ds != []
    && (e == Disk.Entry(ds[0].name, Some(parent), depth, ds[0].subdirs != []) || AtTop(ds[1..], parent, depth, e))
  }

  lemma {:induction false} ParentInside(ds: seq<Disk.Dir>, parent: string, depth: nat, e: Disk.Entry)
    requires Disk.HasAll(ds, parent, depth, e) && !AtTop(ds, parent, depth, e)
    ensures e.parent.Some? && Disk.CountAll(ds, e.parent.value) > 0
    decreases ds
  {
    if Disk.Has(ds[0], Some(parent), depth, e) {
      var p := ParentListed(ds[0], Some(parent), depth, e);
      Disk.HasIsCounted(ds[0], Some(parent), depth, p);
    } else {
      ParentInside(ds[1..], parent, depth, e);
    }
  }

  /** A directory inside one that stays stays, unless it is the deleted one. */
  lemma {:induction false} StaysWithParent(
    d: Disk.Dir, x: string, parent: Option<string>, depth: nat, e: Disk.Entry)
    requires (forall y :: Disk.Count(d, y) <= 1) && Disk.Has(d, parent, depth, e) && e.id != x
    requires e != Disk.Entry(d.name, parent, depth, d.subdirs != [])
    requires e.parent.Some? && Disk.Count(Without(d, x), e.parent.value) > 0
    ensures Disk.Count(Without(d, x), e.id) > 0
    decreases d
  {
    forall y ensures Disk.CountAll(d.subdirs, y) <= 1 { assert Disk.Count(d, y) <= 1; }
    if !AtTop(d.subdirs, d.name, depth + 1, e) {
      ParentInside(d.subdirs, d.name, depth + 1, e);
      assert Disk.Count(d, e.parent.value) <= 1;
    }
    StaysWithParentAll(d.subdirs, x, d.name, depth + 1, e);
  }

  lemma {:induction false} StaysWithParentAll(
    ds: seq<Disk.Dir>, x: string, parent: string, depth: nat, e: Disk.Entry)
    requires (forall y :: Disk.CountAll(ds, y) <= 1) && Disk.HasAll(ds, parent, depth, e) && e.id != x
    requires AtTop(ds, parent, depth, e) ||
      (e.parent.Some? && Disk.CountAll(WithoutAll(ds, x), e.parent.value) > 0)
    ensures Disk.CountAll(WithoutAll(ds, x), e.id) > 0
    decreases ds
  {
    forall y ensures Disk.Count(ds[0], y) <= 1 && Disk.CountAll(ds[1..], y) <= 1 {
      assert Disk.CountAll(ds, y) <= 1;
    }
    WithoutAllStep(ds, x);
    var top := Disk.Entry(ds[0].name, Some(parent), depth, ds[0].subdirs != []);
    if e == top {
    } else if Disk.Has(ds[0], Some(parent), depth, e) {
      var p := ParentListed(ds[0], Some(parent), depth, e);
      Disk.HasIsCounted(ds[0], Some(parent), depth, p);
      Disk.HasIsCounted(ds[0], Some(parent), depth, e);
      NotBoth(ds, x, parent, depth, e);
      StaysWithParent(ds[0], x, Some(parent), depth, e);
    } else {
      if !AtTop(ds[1..], parent, depth, e) {
        ParentInside(ds[1..], parent, depth, e);
        assert Disk.CountAll(ds, e.parent.value) <= 1;
        if ds[0].name != x { WithoutCount(ds[0], x, e.parent.value); }
      }
      StaysWithParentAll(ds[1..], x, parent, depth, e);
    }
  }

  /** Something inside the first directory whose parent is left: the first directory is left, and holds both. */
  lemma {:induction false} NotBoth(ds: seq<Disk.Dir>, x: string, parent: string, depth: nat, e: Disk.Entry)
    requires ds != [] && (forall y :: Disk.CountAll(ds, y) <= 1) && e.parent.Some?
    requires Disk.Count(ds[0], e.parent.value) > 0 && Disk.Count(ds[0], e.id) > 0
    requires AtTop(ds, parent, depth, e) || Disk.CountAll(WithoutAll(ds, x), e.parent.value) > 0
    requires e != Disk.Entry(ds[0].name, Some(parent), depth, ds[0].subdirs != [])
    ensures ds[0].name != x && Disk.Count(Without(ds[0], x), e.parent.value) > 0
  {
    assert Disk.CountAll(ds, e.parent.value) <= 1 && Disk.CountAll(ds, e.id) <= 1;
    if AtTop(ds, parent, depth, e) { TopIsCounted(ds[1..], parent, depth, e); }
    WithoutAllStep(ds, x);
    WithoutCountAll(ds[1..], x, e.parent.value);
  }

  lemma {:induction false} TopIsCounted(ds: seq<Disk.Dir>, parent: string, depth: nat, e: Disk.Entry)
    requires AtTop(ds, parent, depth, e)
    ensures Disk.CountAll(ds, e.id) > 0
    decreases ds
  {
    if e != Disk.Entry(ds[0].name, Some(parent), depth, ds[0].subdirs != []) {
      TopIsCounted(ds[1..], parent, depth, e);
    }
  }

  /** After one deletion a directory is there exactly when it is not the deleted one and its parent is there. */
  lemma {:induction false} DeletedOne(d: Disk.Dir, x: string, e: Disk.Entry)
    requires (forall y :: Disk.Count(d, y) <= 1) && Disk.Has(d, None, 1, e) && e.id != d.name && x != d.name
    ensures e.parent.Some?
    ensures Disk.Count(Without(d, x), e.id) > 0 <==>
      e.id != x && Disk.Count(Without(d, x), e.parent.value) > 0
  {
    var r := Without(d, x);
    var up := ParentListed(d, None, 1, e);
    WithoutCount(d, x, x);
    if Disk.Count(r, e.id) > 0 {
      var e' := CountedIsListed(r, None, 1, e.id);
      var was := WithoutFrom(d, x, None, 1, e');
      Disk.OneEntryPerId(d, was, e);
      var p := ParentListed(r, None, 1, e');
      Disk.HasIsCounted(r, None, 1, p);
    }
    if e.id != x && Disk.Count(r, e.parent.value) > 0 { StaysWithParent(d, x, None, 1, e); }
  }

  /** The loop of `replan_branch`: one child after the other. */
  function DeleteAll(w: Disk.World, ids: seq<string>, n: nat): Disk.World
    requires n <= |ids|
    decreases n
  {
    if n == 0 then w else DeleteNode(DeleteAll(w, ids, n - 1), ids[n - 1])
  }

  lemma {:induction false} DeletedRows(w: Disk.World, ids: seq<string>, n: nat, x: string)
    requires n <= |ids|
    ensures var i := DeleteAll(w, ids, n).index;
      (x in i <==> x in w.index && x !in ids[..n]) && (x in i ==> i[x] == w.index[x])
  {
    if n > 0 {
      DeletedRows(w, ids, n - 1, x);
      assert ids[..n] == ids[..n - 1] + [ids[n - 1]];
    }
  }

  lemma {:induction false} DeletedCount(w: Disk.World, ids: seq<string>, n: nat, x: string)
    requires n <= |ids|
    ensures DeleteAll(w, ids, n).disk.name == w.disk.name
    ensures Disk.Count(DeleteAll(w, ids, n).disk, x) <= Disk.Count(w.disk, x)
  {
    if n > 0 {
      DeletedCount(w, ids, n - 1, x);
      WithoutCount(DeleteAll(w, ids, n - 1).disk, ids[n - 1], x);
    }
  }

  lemma {:induction false} DeletedFrom(w: Disk.World, ids: seq<string>, n: nat, e': Disk.Entry)
    returns (e: Disk.Entry)
    requires n <= |ids| && Disk.Has(DeleteAll(w, ids, n).disk, None, 1, e')
    ensures Disk.Has(w.disk, None, 1, e) && e.id == e'.id && e.parent == e'.parent && e.depth == e'.depth
  {
    e := e';
    if n > 0 {
      e := WithoutFrom(DeleteAll(w, ids, n - 1).disk, ids[n - 1], None, 1, e');
      e := DeletedFrom(w, ids, n - 1, e);
    }
  }

  /** Is there a directory of that name? */
  predicate OnDisk(d: Disk.Dir, id: string) {
    Disk.Count(d, id) > 0
  }

  lemma {:induction false} DeletedMany(w: Disk.World, ids: seq<string>, n: nat, e: Disk.Entry)
    requires n <= |ids| && (forall y :: Disk.Count(w.disk, y) <= 1) && w.disk.name !in ids
    requires Disk.Has(w.disk, None, 1, e) && e.id != w.disk.name
    ensures e.parent.Some?
    ensures OnDisk(DeleteAll(w, ids, n).disk, e.id) <==>
      e.id !in ids[..n] && OnDisk(DeleteAll(w, ids, n).disk, e.parent.value)
  {
    var up := ParentListed(w.disk, None, 1, e);
    if n == 0 {
      Disk.HasIsCounted(w.disk, None, 1, e);
      Disk.HasIsCounted(w.disk, None, 1, up);
    } else {
      var before, x := DeleteAll(w, ids, n - 1), ids[n - 1];
      DeletedMany(w, ids, n - 1, e);
      DeletedCount(w, ids, n - 1, x);
      forall y ensures Disk.Count(before.disk, y) <= 1 { DeletedCount(w, ids, n - 1, y); }
      assert ids[..n] == ids[..n - 1] + [x];
      WithoutCount(before.disk, x, e.id);
      WithoutCount(before.disk, x, e.parent.value);
      if OnDisk(before.disk, e.id) {
        var e1 := CountedIsListed(before.disk, None, 1, e.id);
        var was := DeletedFrom(w, ids, n - 1, e1);
        Disk.OneEntryPerId(w.disk, was, e);
        DeletedOne(before.disk, x, e1);
      }
    }
  }

  /** The children's ids, in any order. */
  ghost predicate ListsChildren(d: Disk.Dir, p: string, ids: seq<string>) {
    forall id :: id in ids <==> exists e :: e in Entries(d) && e.id == id && e.parent == Some(p)
  }

  /** A replan of `p` begins: the index is the disk. */
  ghost predicate Replans(w: Disk.World, p: string, ids: seq<string>) {
    Backed(w.index, w.disk) && ListsChildren(w.disk, p, ids)
  }

  lemma {:induction false} RootIsNoChild(w: Disk.World, p: string, ids: seq<string>)
    requires Replans(w, p, ids)
    ensures w.disk.name !in ids
  {
    if w.disk.name in ids {
      var e :| e in Entries(w.disk) && e.id == w.disk.name && e.parent == Some(p);
      Disk.WalkLists(w.disk, None, 1, e);
      var root := Entries(w.disk)[0];
      Disk.WalkLists(w.disk, None, 1, root);
      Disk.OneEntryPerId(w.disk, e, root);
    }
  }

  lemma {:induction false} ChildListedOnce(w: Disk.World, p: string, ids: seq<string>, e: Disk.Entry)
    requires Replans(w, p, ids) && e in Entries(w.disk)
    ensures e.id in ids <==> e.parent == Some(p)
  {
    if e.id in ids {
      var c :| c in Entries(w.disk) && c.id == e.id && c.parent == Some(p);
      Disk.WalkLists(w.disk, None, 1, c);
      Disk.WalkLists(w.disk, None, 1, e);
      Disk.OneEntryPerId(w.disk, c, e);
    }
  }

  /** A directory and the one it lies in: left or deleted together, unless it is a child of the replanned node. */
  lemma {:induction false} LeftWithParent(w: Disk.World, p: string, ids: seq<string>, e: Disk.Entry, up: Disk.Entry)
    requires Replans(w, p, ids) && e in Entries(w.disk) && e.id != w.disk.name && e.parent == Some(up.id)
    ensures OnDisk(DeleteAll(w, ids, |ids|).disk, e.id) <==>
      e.parent != Some(p) && OnDisk(DeleteAll(w, ids, |ids|).disk, up.id)
  {
    hide OnDisk, DeleteAll, Disk.Walk, Disk.Has;
    Disk.WalkLists(w.disk, None, 1, e);
    RootIsNoChild(w, p, ids);
    assert ids[..|ids|] == ids;
    DeletedMany(w, ids, |ids|, e);
    ChildListedOnce(w, p, ids, e);
  }

  lemma {:induction false} RootIsLeft(w: Disk.World, p: string, ids: seq<string>, e: Disk.Entry)
    requires Replans(w, p, ids) && e in Entries(w.disk) && e.id == w.disk.name
    ensures OnDisk(DeleteAll(w, ids, |ids|).disk, e.id) && e.parent == None
  {
    DeletedCount(w, ids, |ids|, e.id);
    Disk.WalkLists(w.disk, None, 1, e);
    Disk.WalkLists(w.disk, None, 1, Entries(w.disk)[0]);
    Disk.OneEntryPerId(w.disk, e, Entries(w.disk)[0]);
  }

  /** What is left on disk is what does not lie below the replanned node. */
  lemma {:induction false} LeftOnDisk(w: Disk.World, p: string, ids: seq<string>, e: Disk.Entry)
    requires Replans(w, p, ids) && e in Entries(w.disk)
    ensures OnDisk(DeleteAll(w, ids, |ids|).disk, e.id) <==> e.id !in BelowIds(ReadBack(w.index, w.disk), p)
    decreases e.depth
  {
    hide OnDisk, DeleteAll, Disk.Walk, BelowIds, Tree;
    ReadBackIsTree(w.index, w.disk);
    EntryIsRead(w.index, w.disk, e);
    GoneWithParent(ReadBack(w.index, w.disk), NodeOf(w.index, e), p);
    if e.id == w.disk.name {
      RootIsLeft(w, p, ids, e);
    } else {
      Disk.WalkLists(w.disk, None, 1, e);
      var up := ParentListed(w.disk, None, 1, e);
      Disk.WalkLists(w.disk, None, 1, up);
      LeftOnDisk(w, p, ids, up);
      LeftWithParent(w, p, ids, e, up);
    }
  }

  lemma {:induction false} ChildIsBelow(nodes: seq<Node>, n: Node, p: string)
    requires Tree(nodes) && n in nodes
    ensures n.id in Orphans(nodes, p) <==> n.id in BelowIds(nodes, p) && n.parent != Some(p)
  {
    BelowMember(nodes, n, p);
    if n.id in Orphans(nodes, p) {
      var m :| m in nodes && LiesBelow(nodes, m, p) && !IsChild(m, p) && m.id == n.id;
      FindMember(nodes, m);
      FindMember(nodes, n);
    }
  }

  /** A replan on disk: `walk` then reads exactly the nodes that do not lie below the replanned one, as they
      were, and the rows that have no directory any more are exactly those of what lay deeper than its
      children, as they were. */
  lemma {:induction false} ReplanLeaves(w: Disk.World, p: string, ids: seq<string>)
    requires Replans(w, p, ids)
    ensures var after, nodes := DeleteAll(w, ids, |ids|), ReadBack(w.index, w.disk);
      && (forall id :: id in after.index && !OnDisk(after.disk, id) <==> id in Orphans(nodes, p))
      && (forall id | id in after.index :: id in w.index && after.index[id] == w.index[id])
  {
    var after, nodes := DeleteAll(w, ids, |ids|), ReadBack(w.index, w.disk);
    ReadBackIsTree(w.index, w.disk);
    assert ids[..|ids|] == ids;
    forall id ensures id in after.index && !OnDisk(after.disk, id) <==> id in Orphans(nodes, p) {
      DeletedRows(w, ids, |ids|, id);
      if id in w.index {
        var e :| e in Entries(w.disk) && e.id == id;
        OrphanOnDisk(w, p, ids, e);
      }
      if id in Orphans(nodes, p) { OrphanHasRow(w.index, w.disk, p, id); }
    }
    forall id | id in after.index ensures id in w.index && after.index[id] == w.index[id] {
      DeletedRows(w, ids, |ids|, id);
    }
  }

  lemma {:induction false} OrphanHasRow(rows: Disk.Rows, d: Disk.Dir, p: string, id: string)
    requires Backed(rows, d) && id in Orphans(ReadBack(rows, d), p)
    ensures id in rows
  {
    var n :| n in ReadBack(rows, d) && LiesBelow(ReadBack(rows, d), n, p) && !IsChild(n, p) && n.id == id;
    var e := ReadMember(rows, d, n);
  }

  lemma {:induction false} OrphanOnDisk(w: Disk.World, p: string, ids: seq<string>, e: Disk.Entry)
    requires Replans(w, p, ids) && e in Entries(w.disk)
    ensures e.id in Orphans(ReadBack(w.index, w.disk), p) <==>
      e.id !in ids && !OnDisk(DeleteAll(w, ids, |ids|).disk, e.id)
  {
    var nodes := ReadBack(w.index, w.disk);
    ReadBackIsTree(w.index, w.disk);
    EntryIsRead(w.index, w.disk, e);
    LeftOnDisk(w, p, ids, e);
    ChildListedOnce(w, p, ids, e);
    ChildIsBelow(nodes, NodeOf(w.index, e), p);
  }

  /** A row says of a node what `walk` does not read off the disk. */
  predicate RowSays(row: Disk.IndexRow, n: Node) {
    row.status == n.status && row.dependsOn == n.dependsOn && row.depFp == n.depFp
  }

  /** The rows left are those that a run carries on. */
  lemma {:induction false} OrphanRowsStay(w: Disk.World, p: string, ids: seq<string>, id: string)
    requires Replans(w, p, ids) && id in Orphans(ReadBack(w.index, w.disk), p)
    ensures id in DeleteAll(w, ids, |ids|).index && id in OrphanRows(ReadBack(w.index, w.disk), p)
    ensures RowSays(DeleteAll(w, ids, |ids|).index[id], OrphanRows(ReadBack(w.index, w.disk), p)[id])
  {
    var nodes := ReadBack(w.index, w.disk);
    ReplanLeaves(w, p, ids);
    OrphanHasRow(w.index, w.disk, p, id);
    var e :| e in Entries(w.disk) && e.id == id;
    EntryIsRead(w.index, w.disk, e);
    ReadBackIsTree(w.index, w.disk);
    FindMember(nodes, NodeOf(w.index, e));
  }

  /** And what `walk` then reads is the tree that a run goes on with. */
  lemma {:induction false} ReplanIsRead(w: Disk.World, p: string, ids: seq<string>, n: Node)
    requires Replans(w, p, ids)
    ensures n in ReadBack(DeleteAll(w, ids, |ids|).index, DeleteAll(w, ids, |ids|).disk) <==>
      n in WithoutBelow(ReadBack(w.index, w.disk), p)
  {
    hide BelowIds;
    var after, nodes := DeleteAll(w, ids, |ids|), ReadBack(w.index, w.disk);
    if n in ReadBack(after.index, after.disk) {
      var e' := ReadMember(after.index, after.disk, n);
      Disk.WalkLists(after.disk, None, 1, e');
      Disk.HasIsCounted(after.disk, None, 1, e');
      var e := DeletedFrom(w, ids, |ids|, e');
      SameNode(w, p, ids, e, e');
    }
    if n in WithoutBelow(nodes, p) {
      var e := ReadMember(w.index, w.disk, n);
      LeftOnDisk(w, p, ids, e);
      var e' := CountedIsListed(after.disk, None, 1, e.id);
      var was := DeletedFrom(w, ids, |ids|, e');
      Disk.WalkLists(w.disk, None, 1, e);
      Disk.OneEntryPerId(w.disk, was, e);
      SameNode(w, p, ids, e, e');
      Disk.WalkLists(after.disk, None, 1, e');
      EntryIsRead(after.index, after.disk, e');
    }
  }

  lemma {:induction false} SameNode(w: Disk.World, p: string, ids: seq<string>, e: Disk.Entry, e': Disk.Entry)
    requires Replans(w, p, ids) && Disk.Has(w.disk, None, 1, e) && Disk.Has(DeleteAll(w, ids, |ids|).disk, None, 1, e')
    requires e.id == e'.id && e.parent == e'.parent && e.depth == e'.depth
    ensures NodeOf(DeleteAll(w, ids, |ids|).index, e') == NodeOf(w.index, e)
    ensures NodeOf(w.index, e) in WithoutBelow(ReadBack(w.index, w.disk), p)
  {
    hide BelowIds;
    Disk.WalkLists(w.disk, None, 1, e);
    EntryIsRead(w.index, w.disk, e);
    Disk.HasIsCounted(DeleteAll(w, ids, |ids|).disk, None, 1, e');
    LeftOnDisk(w, p, ids, e);
    OrphanOnDisk(w, p, ids, e);
    DeletedRows(w, ids, |ids|, e.id);
    assert ids[..|ids|] == ids;
    RootIsNoChild(w, p, ids);
    if e.id in ids { DeletedMany(w, ids, |ids|, e); }
  }

  // ---- A split over such rows ----

  lemma {:induction false} OtherRow(w: Disk.World, plan: Disk.SplitPlan, k: nat, x: string)
    requires plan.Valid() && k <= plan.Length() && x !in plan.ids && x != plan.at.id
    ensures var i := Disk.Crashed(w, plan, k).index; (x in i <==> x in w.index) && (x in i ==> i[x] == w.index[x])
  {
    if k > 0 { OtherRow(w, plan, k - 1, x); }
  }

  function ChildEntry(plan: Disk.SplitPlan, j: nat): Disk.Entry
    requires j < |plan.ids|
  {
    Disk.Entry(plan.ids[j], Some(plan.at.id), plan.at.depth + 1, false)
  }

  /** A child of a finished split reads back as it was written if and only if no row was left under its id, or
      one that says the same: an existing row is never overwritten. */
  lemma {:induction false} PlannedIsRead(w: Disk.World, plan: Disk.SplitPlan, j: nat)
    requires plan.Valid() && plan.at.id !in plan.ids && j < |plan.ids|
    ensures var id := plan.ids[j];
      NodeOf(Disk.Crashed(w, plan, plan.Length()).index, ChildEntry(plan, j))
        == Node(id, Some(plan.at.id), plan.at.depth + 1, Pending, plan.deps[j], map[])
      <==> id in w.index ==>
             w.index[id].status == Pending && w.index[id].dependsOn == plan.deps[j] && w.index[id].depFp == map[]
  {
    Disk.WrittenRow(w, plan, plan.Length(), j);
  }

  /** The rows in the index, as a run carries them on. */
  ghost predicate Carries(left: map<string, Node>, index: Disk.Rows, ids: seq<string>) {
    forall id | id in ids :: (id in left <==> id in index) && (id in left ==> RowSays(index[id], left[id]))
  }

  /** Whatever rows it meets, a finished split reads back as the step of a run has it. */
  lemma {:induction false} SplitIsRead(w: Disk.World, plan: Disk.SplitPlan, left: map<string, Node>, j: nat)
    requires plan.Valid() && plan.at.id !in plan.ids && j < |plan.ids| && Carries(left, w.index, plan.ids)
    ensures NodeOf(Disk.Crashed(w, plan, plan.Length()).index, ChildEntry(plan, j))
         == AsLeft(Node(plan.ids[j], Some(plan.at.id), plan.at.depth + 1, Pending, plan.deps[j], map[]), left)
  {
    hide Disk.Crashed;
    Disk.WrittenRow(w, plan, plan.Length(), j);
  }

  // ---- A replan over a finished grandchild ----

  /** The root was split, its child was split, and the grandchild is complete. */
  const BEFORE := Disk.World(
    Disk.Dir("root", [Disk.Dir("root-01", [Disk.Dir("root-01-01", [])])]),
    map["root" := Disk.IndexRow(None, 1, Split, [], map[]),
        "root-01" := Disk.IndexRow(Some("root"), 2, Split, [], map[]),
        "root-01-01" := Disk.IndexRow(Some("root-01"), 3, Complete, [], map[])],
    0, [])

  /** The root is replanned, and split again into one child. */
  const REPLANNED := DeleteNode(BEFORE, "root-01")
  const AGAIN := Disk.SplitPlan(Disk.Entry("root", None, 1, false), ["root-01"], [[]], [0])
  const RESPLIT := Disk.Crashed(REPLANNED, AGAIN, 5)

  /** The new child is split into one subtask. */
  const DEEPER := Disk.SplitPlan(Disk.Entry("root-01", Some("root"), 2, false), ["root-01-01"], [[]], [0])
  const NEW := Disk.Crashed(RESPLIT, DEEPER, 5)

  lemma {:induction false} OneMade(w: Disk.World, plan: Disk.SplitPlan)
    requires plan.Valid() && |plan.ids| == 1
    ensures Disk.Crashed(w, plan, 5).disk == Disk.AddSubdir(w.disk, plan.at.id, plan.ids[0])
  {
    Disk.DiskUnchanged(w, plan, 5);
    assert Disk.Crashed(w, plan, 0) == w;
    assert Disk.Crashed(w, plan, 1) == Disk.Apply(w, plan.at, Disk.WriteAt(plan, 0));
  }

  lemma {:induction false} NewDisk()
    ensures NEW.disk == BEFORE.disk
  {
    OneMade(REPLANNED, AGAIN);
    OneMade(RESPLIT, DEEPER);
    assert REPLANNED.disk == Disk.Dir("root", []);
    var child := Disk.Dir("root-01", []);
    assert RESPLIT.disk == Disk.Dir("root", [child]);
    assert Disk.AddSubdir(child, "root-01", "root-01-01") == Disk.Dir("root-01", [Disk.Dir("root-01-01", [])]);
    assert Disk.AddSubdirAll([child], "root-01", "root-01-01") == [Disk.Dir("root-01", [Disk.Dir("root-01-01", [])])];
  }

  /** The failure exists: the new subtask, never worked on, reads back as complete. */
  lemma {:induction false} UnstartedIsComplete()
    ensures Node("root-01-01", Some("root-01"), 3, Complete, [], map[]) in ReadBack(NEW.index, NEW.disk)
  {
    var e := ChildEntry(DEEPER, 0);
    OtherRow(REPLANNED, AGAIN, 5, "root-01-01");
    Disk.WrittenRow(RESPLIT, DEEPER, 5, 0);
    NewDisk();
    assert Disk.Has(Disk.Dir("root-01-01", []), Some("root-01"), 3, e);
    assert Disk.Has(Disk.Dir("root-01", [Disk.Dir("root-01-01", [])]), Some("root"), 2, e);
    Disk.WalkLists(NEW.disk, None, 1, e);
    EntryIsRead(NEW.index, NEW.disk, e);
  }
}

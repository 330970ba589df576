/** The pointer trees of the inodes (crates/ext2/src/file.rs): what it means that the blocks of
    a volume form trees without sharing, and how one new or cleared pointer changes them. */
module Trees {
  import opened Wrappers
  import opened Le
  import opened BlockPath
  import opened Volume
  import opened Allocator

  /** Entry `i` of an indirect block. */
  function Ptr(block: Bytes, i: nat): (ptr: nat)
    requires 4 * i + 4 <= |block|
  {
    U32At(block, 4 * i)
  }

  /** Setting entry `i` leaves every other entry. */
  function SetPtr(block: Bytes, i: nat, ptr: u32): (r: Bytes)
    requires 4 * i + 4 <= |block|
    ensures |r| == |block|
    ensures forall j :: 0 <= j && 4 * j + 4 <= |block| ==> Ptr(r, j) == if j == i then ptr else Ptr(block, j)
  {
    SetU32(block, 4 * i, ptr)
  }

  lemma ZeroPtr(n: nat, i: nat)
    requires 4 * i + 4 <= n
    ensures Ptr(Zeros(n), i) == 0
  {
  }

  /** The pointer at a place, 0 for a hole. */
  function Get(tree: map<Loc, nat>, l: Loc): nat {
    if l in tree then tree[l] else 0
  }

  // ----- well-formed trees -----

  /** Places are real, and an entry of an indirect block needs that block. */
  ghost predicate Shape(p: nat, tree: map<Loc, nat>) {
    forall l :: l in tree ==> l.Valid(p) && (l.Sub? ==> l.up in tree)
  }

  /** No block is at two places. */
  ghost predicate Distinct(tree: map<Loc, nat>) {
    forall a, b :: a in tree && b in tree && tree[a] == tree[b] ==> a == b
  }

  /** Every place belongs to a file in use and leads to a block outside the metadata. */
  ghost predicate Owned(geo: Geometry, live: map<nat, Inode>, tree: map<Loc, nat>)
    requires geo.Sane()
  {
    forall l :: l in tree ==> l.Ino() in live && live[l.Ino()].HasTree() && !geo.BadBlock(tree[l])
  }

  ghost predicate InodesShaped(live: map<nat, Inode>) {
    forall ino :: ino in live ==> ino > 0 && live[ino].ino == ino && |live[ino].ptrs| == N_SLOTS
  }

  /** The entries of `i_block` say what the tree says, except at `hole`. */
  ghost predicate RootsAgree(live: map<nat, Inode>, tree: map<Loc, nat>, hole: Option<Loc>)
    requires InodesShaped(live)
  {
    forall ino, s: nat :: ino in live && live[ino].HasTree() && s < N_SLOTS && Some(Root(ino, s)) != hole ==>
      live[ino].ptrs[s] == Get(tree, Root(ino, s))
  }

  /** The entries of the indirect blocks say what the tree says, except at `hole`. */
  ghost predicate EntriesAgree(geo: Geometry, disk: map<nat, Bytes>, tree: map<Loc, nat>, hole: Option<Loc>)
    requires geo.Wf() && DiskOk(geo, disk)
  {
    forall l, i: nat :: l in tree && l.Rest() > 0 && i < geo.P() && Some(Sub(l, i)) != hole ==>
      tree[l] in disk && Ptr(disk[tree[l]], i) == Get(tree, Sub(l, i))
  }

  /** The trees under `live` in `disk` are `tree`; at `hole` a pointer may be stale. */
  ghost predicate TreeOk(geo: Geometry, disk: map<nat, Bytes>, live: map<nat, Inode>, tree: map<Loc, nat>,
        hole: Option<Loc>)
    requires geo.Wf() && DiskOk(geo, disk)
  {
    && Shape(geo.P(), tree) && Distinct(tree) && Owned(geo, live, tree)
    && InodesShaped(live) && RootsAgree(live, tree, hole) && EntriesAgree(geo, disk, tree, hole)
  }

  /** The contents of the data blocks, by place. */
  ghost function Leaves(disk: map<nat, Bytes>, tree: map<Loc, nat>): map<Loc, Bytes> {
    map l | l in tree && l.Leaf() && tree[l] in disk :: disk[tree[l]]
  }

  // ----- one new pointer -----

  /** `disk` after block `b`, zeroed, is entered at `at` (for an entry of `i_block`, only zeroed). */
  function EnterDisk(disk: map<nat, Bytes>, tree: map<Loc, nat>, at: Loc, b: nat, bs: nat): map<nat, Bytes>
    requires at.Sub? ==> at.up in tree && tree[at.up] in disk && tree[at.up] != b && 4 * at.i + 4 <= |disk[tree[at.up]]|
    requires b < 0x1_0000_0000
  {
    var zeroed := disk[b := Zeros(bs)];
    if at.Root? then zeroed
    else zeroed[tree[at.up] := SetPtr(disk[tree[at.up]], at.i, b)]
  }

  /** What `EnterOk` supposes of a new block `b` for the empty place `at`. */
  ghost predicate CanEnter(geo: Geometry, disk: map<nat, Bytes>, live: map<nat, Inode>, tree: map<Loc, nat>, at: Loc,
        b: nat) {
    && geo.Wf() && DiskOk(geo, disk) && TreeOk(geo, disk, live, tree, None)
    && at.Valid(geo.P()) && at !in tree && (at.Sub? ==> at.up in tree)
    && at.Ino() in live && live[at.Ino()].HasTree()
    && !geo.BadBlock(b) && b !in tree.Values
  }

  lemma EnterPlace(geo: Geometry, disk: map<nat, Bytes>, live: map<nat, Inode>, tree: map<Loc, nat>, at: Loc, b: nat)
    requires CanEnter(geo, disk, live, tree, at, b)
    ensures b < geo.blocksCount
    ensures at.Sub? ==> tree[at.up] in disk && tree[at.up] != b && 4 * at.i + 4 <= geo.blockSize && at.up.Rest() > 0
  {
    hide Volume.Geometry.IsMetadata, Volume.Geometry.GroupsOk;
    if at.Sub? {
      assert tree[at.up] in tree.Values;
    }
  }

  lemma EnterEntries(geo: Geometry, disk: map<nat, Bytes>, live: map<nat, Inode>, tree: map<Loc, nat>, at: Loc, b: nat)
    requires CanEnter(geo, disk, live, tree, at, b)
    requires at.Sub? ==> tree[at.up] in disk && tree[at.up] != b && 4 * at.i + 4 <= geo.blockSize
    requires b < geo.blocksCount
    ensures var disk' := EnterDisk(disk, tree, at, b, geo.blockSize);
            DiskOk(geo, disk') && EntriesAgree(geo, disk', tree[at := b], None)
  {
    hide Ptr, Volume.Geometry.IsMetadata, Volume.Geometry.GroupsOk, RootsAgree;
    var disk' := EnterDisk(disk, tree, at, b, geo.blockSize);
    var tree' := tree[at := b];
    forall l, i: nat | l in tree' && l.Rest() > 0 && i < geo.P()
      ensures tree'[l] in disk' && Ptr(disk'[tree'[l]], i) == Get(tree', Sub(l, i))
    {
      if l == at {
        ZeroPtr(geo.blockSize, i);
        assert Sub(l, i) !in tree;
      } else {
        assert tree[l] in tree.Values;
        assert Ptr(disk[tree[l]], i) == Get(tree, Sub(l, i));
      }
    }
  }

  lemma EnterLeaves(geo: Geometry, disk: map<nat, Bytes>, live: map<nat, Inode>, tree: map<Loc, nat>, at: Loc, b: nat)
    requires CanEnter(geo, disk, live, tree, at, b)
    requires at.Sub? ==> tree[at.up] in disk && tree[at.up] != b && 4 * at.i + 4 <= geo.blockSize && at.up.Rest() > 0
    requires b < geo.blocksCount
    ensures var disk' := EnterDisk(disk, tree, at, b, geo.blockSize);
            Leaves(disk', tree[at := b]) ==
                if at.Leaf() then Leaves(disk, tree)[at := Zeros(geo.blockSize)] else Leaves(disk, tree)
  {
    hide Ptr, SetPtr, Volume.Geometry.IsMetadata, Volume.Geometry.GroupsOk, RootsAgree, EntriesAgree;
    var disk' := EnterDisk(disk, tree, at, b, geo.blockSize);
    forall l | l in tree && l.Leaf()
      ensures tree[l] in disk && tree[l] in disk' && disk'[tree[l]] == disk[tree[l]]
    {
      assert tree[l] in tree.Values;
    }
  }

  lemma EnterRoots(geo: Geometry, disk: map<nat, Bytes>, live: map<nat, Inode>, tree: map<Loc, nat>, at: Loc, b: nat,
        inode: Inode)
    requires CanEnter(geo, disk, live, tree, at, b)
    requires inode.ino == at.Ino() && inode.HasTree()
    requires at.Root? ==> at.slot < |live[at.Ino()].ptrs|
    requires inode.ptrs == if at.Root? then live[at.Ino()].ptrs[at.slot := b] else live[at.Ino()].ptrs
    ensures var live', tree' := live[at.Ino() := inode], tree[at := b];
            InodesShaped(live') && RootsAgree(live', tree', None)
  {
    hide Ptr, Volume.Geometry.IsMetadata, Volume.Geometry.GroupsOk, EntriesAgree, Distinct, Shape, Owned;
  }

  lemma EnterPlaces(geo: Geometry, disk: map<nat, Bytes>, live: map<nat, Inode>, tree: map<Loc, nat>, at: Loc,
        b: nat, inode: Inode)
    requires CanEnter(geo, disk, live, tree, at, b)
    requires inode.HasTree()
    ensures var live', tree' := live[at.Ino() := inode], tree[at := b];
            Shape(geo.P(), tree') && Distinct(tree') && Owned(geo, live', tree')
  {
    hide Ptr, Volume.Geometry.IsMetadata, Volume.Geometry.GroupsOk, EntriesAgree, RootsAgree;
    var tree' := tree[at := b];
    forall a, c | a in tree' && c in tree' && tree'[a] == tree'[c]
      ensures a == c
    {
      if a != at { assert tree[a] in tree.Values; }
      if c != at { assert tree[c] in tree.Values; }
    }
  }

  /** Entering a fresh block at an empty place adds that place to the trees and nothing else. */
  lemma EnterOk(geo: Geometry, disk: map<nat, Bytes>, live: map<nat, Inode>, tree: map<Loc, nat>, at: Loc, b: nat,
        inode: Inode)
    requires CanEnter(geo, disk, live, tree, at, b)
    requires inode.ino == at.Ino() && inode.HasTree()
    requires at.Root? ==> at.slot < |live[at.Ino()].ptrs|
    requires inode.ptrs == if at.Root? then live[at.Ino()].ptrs[at.slot := b] else live[at.Ino()].ptrs
    ensures b < geo.blocksCount
    ensures at.Sub? ==> tree[at.up] in disk && tree[at.up] != b && 4 * at.i + 4 <= geo.blockSize
    ensures var disk' := EnterDisk(disk, tree, at, b, geo.blockSize);
            && DiskOk(geo, disk')
            && TreeOk(geo, disk', live[at.Ino() := inode], tree[at := b], None)
            && Leaves(disk', tree[at := b]) ==
               if at.Leaf() then Leaves(disk, tree)[at := Zeros(geo.blockSize)] else Leaves(disk, tree)
  {
    hide Ptr, Leaves, Volume.Geometry.IsMetadata, Volume.Geometry.GroupsOk, EntriesAgree, RootsAgree, Distinct,
         Shape, Owned;
    EnterPlace(geo, disk, live, tree, at, b);
    EnterEntries(geo, disk, live, tree, at, b);
    EnterLeaves(geo, disk, live, tree, at, b);
    EnterRoots(geo, disk, live, tree, at, b, inode);
    EnterPlaces(geo, disk, live, tree, at, b, inode);
  }

  // ----- unrelated changes -----

  /** Changes outside the blocks of the trees leave the trees. */
  lemma TreeFrame(geo: Geometry, disk: map<nat, Bytes>, disk': map<nat, Bytes>, live: map<nat, Inode>,
        tree: map<Loc, nat>, hole: Option<Loc>)
    requires geo.Wf() && DiskOk(geo, disk) && DiskOk(geo, disk') && TreeOk(geo, disk, live, tree, hole)
    requires forall b :: b in disk && !geo.IsMetadata(b) ==> b in disk' && disk'[b] == disk[b]
    ensures TreeOk(geo, disk', live, tree, hole) && Leaves(disk', tree) == Leaves(disk, tree)
  {
    hide Ptr, Volume.Geometry.IsMetadata, Volume.Geometry.GroupsOk, RootsAgree, Distinct, Shape, InodesShaped;
    forall l, i: nat | l in tree && l.Rest() > 0 && i < geo.P() && Some(Sub(l, i)) != hole
      ensures Ptr(disk'[tree[l]], i) == Get(tree, Sub(l, i))
    {
      assert Ptr(disk[tree[l]], i) == Get(tree, Sub(l, i));
    }
  }

  /** A data block may hold anything. */
  lemma DataOk(geo: Geometry, disk: map<nat, Bytes>, live: map<nat, Inode>, tree: map<Loc, nat>, l: Loc, data: Bytes)
    requires geo.Wf() && DiskOk(geo, disk) && TreeOk(geo, disk, live, tree, None)
    requires l in tree && l.Leaf() && |data| == geo.blockSize
    ensures tree[l] in disk && DiskOk(geo, disk[tree[l] := data])
    ensures TreeOk(geo, disk[tree[l] := data], live, tree, None)
    ensures Leaves(disk[tree[l] := data], tree) == Leaves(disk, tree)[l := data]
  {
    hide Ptr, Volume.Geometry.IsMetadata, Volume.Geometry.GroupsOk, RootsAgree, Shape, InodesShaped;
    var disk' := disk[tree[l] := data];
    forall m, i: nat | m in tree && m.Rest() > 0 && i < geo.P()
      ensures Ptr(disk'[tree[m]], i) == Get(tree, Sub(m, i))
    {
      assert Ptr(disk[tree[m]], i) == Get(tree, Sub(m, i));
    }
  }

  /** Other fields of an inode have no part in the trees. */
  lemma InodeOk(geo: Geometry, disk: map<nat, Bytes>, live: map<nat, Inode>, tree: map<Loc, nat>, hole: Option<Loc>,
        inode: Inode)
    requires geo.Wf() && DiskOk(geo, disk) && TreeOk(geo, disk, live, tree, hole)
    requires inode.ino in live && inode.ptrs == live[inode.ino].ptrs
    requires inode.HasTree() && live[inode.ino].HasTree()
    ensures TreeOk(geo, disk, live[inode.ino := inode], tree, hole)
  {
    hide Ptr, Volume.Geometry.IsMetadata, Volume.Geometry.GroupsOk, EntriesAgree, Shape, Distinct;
  }

  // ----- one pointer less -----

  lemma DropValues(tree: map<Loc, nat>, at: Loc)
    requires Distinct(tree) && at in tree
    ensures (tree - {at}).Values == tree.Values - {tree[at]}
  {
    var tree' := tree - {at};
    forall b | b in tree.Values - {tree[at]}
      ensures b in tree'.Values
    {
      var l :| l in tree && tree[l] == b;
      assert l in tree' && tree'[l] == b;
    }
  }

  lemma DropEntries(geo: Geometry, disk: map<nat, Bytes>, tree: map<Loc, nat>, at: Loc)
    requires geo.Wf() && DiskOk(geo, disk) && EntriesAgree(geo, disk, tree, None)
    ensures EntriesAgree(geo, disk, tree - {at}, Some(at))
  {
    hide Ptr, Volume.Geometry.IsMetadata, Volume.Geometry.GroupsOk;
    var tree' := tree - {at};
    forall l, i: nat | l in tree' && l.Rest() > 0 && i < geo.P() && Some(Sub(l, i)) != Some(at)
      ensures tree'[l] in disk && Ptr(disk[tree'[l]], i) == Get(tree', Sub(l, i))
    {
      assert Ptr(disk[tree[l]], i) == Get(tree, Sub(l, i));
    }
  }

  lemma DropPlaces(geo: Geometry, live: map<nat, Inode>, tree: map<Loc, nat>, at: Loc)
    requires geo.Sane() && Shape(geo.P(), tree) && Owned(geo, live, tree) && InodesShaped(live)
             && RootsAgree(live, tree, None)
    requires forall l :: l in tree && l.Sub? ==> l.up != at
    ensures Shape(geo.P(), tree - {at}) && Owned(geo, live, tree - {at}) && RootsAgree(live, tree - {at}, Some(at))
  {
    hide Volume.Geometry.IsMetadata;
  }

  /** A place that is empty below can go; its pointer is stale until it is cleared. */
  lemma DropOk(geo: Geometry, disk: map<nat, Bytes>, live: map<nat, Inode>, tree: map<Loc, nat>, at: Loc)
    requires geo.Wf() && DiskOk(geo, disk) && TreeOk(geo, disk, live, tree, None)
    requires at in tree && forall i: nat :: Sub(at, i) !in tree
    ensures TreeOk(geo, disk, live, tree - {at}, Some(at))
    ensures Leaves(disk, tree - {at}) == Leaves(disk, tree) - {at}
    ensures (tree - {at}).Values == tree.Values - {tree[at]}
  {
    hide Volume.Geometry.IsMetadata, Volume.Geometry.GroupsOk, EntriesAgree, RootsAgree, Shape, Owned;
    forall l | l in tree && l.Sub?
      ensures l.up != at
    {
      assert l == Sub(l.up, l.i);
    }
    DropPlaces(geo, live, tree, at);
    DropEntries(geo, disk, tree, at);
    DropValues(tree, at);
  }

  /** Clearing the stale entry of an indirect block. */
  lemma ClearEntryOk(geo: Geometry, disk: map<nat, Bytes>, live: map<nat, Inode>, tree: map<Loc, nat>, at: Loc)
    requires geo.Wf() && DiskOk(geo, disk) && TreeOk(geo, disk, live, tree, Some(at))
    requires at.Sub? && at.up in tree && at.Valid(geo.P()) && at !in tree
    ensures tree[at.up] in disk && 4 * at.i + 4 <= geo.blockSize
    ensures var disk' := disk[tree[at.up] := SetPtr(disk[tree[at.up]], at.i, 0)];
            && DiskOk(geo, disk') && TreeOk(geo, disk', live, tree, None)
            && Leaves(disk', tree) == Leaves(disk, tree)
  {
    hide Ptr, Volume.Geometry.IsMetadata, Volume.Geometry.GroupsOk, Shape, InodesShaped;
    var up := tree[at.up];
    var disk' := disk[up := SetPtr(disk[up], at.i, 0)];
    forall l, i: nat | l in tree && l.Rest() > 0 && i < geo.P()
      ensures Ptr(disk'[tree[l]], i) == Get(tree, Sub(l, i))
    {
      if Sub(l, i) != at {
        assert Ptr(disk[tree[l]], i) == Get(tree, Sub(l, i));
      }
    }
  }

  /** Clearing the stale entry of `i_block`. */
  lemma ClearRootOk(geo: Geometry, disk: map<nat, Bytes>, live: map<nat, Inode>, tree: map<Loc, nat>, at: Loc,
        inode: Inode)
    requires geo.Wf() && DiskOk(geo, disk) && TreeOk(geo, disk, live, tree, Some(at))
    requires at.Root? && at.slot < N_SLOTS && at !in tree && at.ino in live && live[at.ino].HasTree()
    requires inode.ino == at.ino && inode.HasTree() && inode.ptrs == live[at.ino].ptrs[at.slot := 0]
    ensures TreeOk(geo, disk, live[at.ino := inode], tree, None)
  {
    hide Ptr, Volume.Geometry.IsMetadata, Volume.Geometry.GroupsOk, Shape, Distinct;
    forall l, i: nat | l in tree && l.Rest() > 0 && i < geo.P()
      ensures Ptr(disk[tree[l]], i) == Get(tree, Sub(l, i))
    {
      assert Some(Sub(l, i)) != Some(at);
    }
  }
}

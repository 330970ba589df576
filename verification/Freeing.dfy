/** Freeing the blocks of a file (crates/ext2/src/file.rs, `free_from` and `free_tree`). */
module Freeing {
  import opened Wrappers
  import opened Le
  import opened Arith
  import Sets
  import opened BlockPath
  import opened FileLimit
  import opened Volume
  import opened Allocator
  import opened Trees
  import opened BlockMap

  // ----- which blocks go -----

  /** Freed when the file is cut to `first` blocks: a data block from there on, or an indirect
      block reaching past it that keeps no entry. */
  ghost predicate Dead(tree: map<Loc, nat>, l: Loc, first: nat, p: nat)
    requires l.Valid(p)
    decreases if l.Rest() > 0 then l.Rest() else 0
  {
    && l in tree && l.End(p) > first
    && (l.Rest() > 0 ==> forall i: nat :: i < p && Sub(l, i) in tree ==> Dead(tree, Sub(l, i), first, p))
  }

  /** What is dead depends on the tree below only. */
  lemma {:induction false} DeadFrame(a: map<Loc, nat>, b: map<Loc, nat>, l: Loc, first: nat, p: nat)
    requires l.Valid(p) && forall m: Loc :: m.Under(l) ==> (m in a <==> m in b)
    ensures Dead(a, l, first, p) == Dead(b, l, first, p)
    decreases if l.Rest() > 0 then l.Rest() else 0
  {
    assert l.Under(l);
    if l.Rest() > 0 {
      forall i: nat | i < p
        ensures Sub(l, i) in a <==> Sub(l, i) in b
        ensures Dead(a, Sub(l, i), first, p) == Dead(b, Sub(l, i), first, p)
      {
        assert Sub(l, i).Under(l);
        forall m: Loc | m.Under(Sub(l, i))
          ensures m in a <==> m in b
        {
          UnderTrans(m, Sub(l, i), l);
        }
        DeadFrame(a, b, Sub(l, i), first, p);
      }
    }
  }

  /** Nothing dies entirely below `first`. */
  lemma {:induction false} EndBelow(m: Loc, l: Loc, p: nat)
    requires m.Valid(p) && l.Valid(p) && m.Under(l)
    ensures l.Base(p) <= m.Base(p) && m.End(p) <= l.End(p)
  {
    if m != l {
      EndBelow(m.up, l, p);
      PartOf(m.up, m.i, p);
    }
  }

  /** The entry of the block at `top` leading to a place under it. */
  function Via(l: Loc, top: Loc): nat
    requires l != top && l.Under(top)
  {
    if l.up == top then l.i else Via(l.up, top)
  }

  lemma {:induction false} ViaUnder(l: Loc, top: Loc)
    requires l != top && l.Under(top)
    ensures l.Under(Sub(top, Via(l, top)))
    ensures forall j: nat :: l.Under(Sub(top, j)) ==> j == Via(l, top)
  {
    if l.up != top {
      ViaUnder(l.up, top);
    }
    forall j: nat | l.Under(Sub(top, j))
      ensures j == Via(l, top)
    {
      if l == Sub(top, j) {
      } else if l.up == top {
        UnderDeeper(top, Sub(top, j));
      }
    }
  }

  lemma {:induction false} UnderDeeper(a: Loc, b: Loc)
    requires a.Under(b)
    ensures b.Level() <= a.Level()
  {
    if a != b { UnderDeeper(a.up, b); }
  }

  /** `tree'` is `tree` without the dead places under the first `n` entries of `at`. */
  ghost predicate PrunedBelow(tree: map<Loc, nat>, tree': map<Loc, nat>, at: Loc, n: nat, first: nat, p: nat)
    requires Shape(p, tree)
  {
    && (forall l :: l in tree' ==> l in tree && tree'[l] == tree[l])
    && (forall l :: l in tree ==>
       (l !in tree' <==> l != at && l.Under(at) && Via(l, at) < n && Dead(tree, l, first, p)))
  }

  /** `tree'` is `tree` without the dead places under `at`. */
  ghost predicate Pruned(tree: map<Loc, nat>, tree': map<Loc, nat>, at: Loc, first: nat, p: nat)
    requires Shape(p, tree)
  {
    && (forall l :: l in tree' ==> l in tree && tree'[l] == tree[l])
    && (forall l :: l in tree ==> (l !in tree' <==> l.Under(at) && Dead(tree, l, first, p)))
  }

  lemma PrunedStart(tree: map<Loc, nat>, at: Loc, n: nat, first: nat, p: nat)
    requires Shape(p, tree) && at.Valid(p) && at.Rest() > 0 && n <= p
    requires n > 0 ==> Sub(at, n - 1).Valid(p) && Sub(at, n - 1).End(p) <= first
    ensures PrunedBelow(tree, tree, at, n, first, p)
  {
    forall l | l in tree && l != at && l.Under(at) && Via(l, at) < n
      ensures !Dead(tree, l, first, p)
    {
      ViaUnder(l, at);
      var j := Via(l, at);
      EndBelow(l, Sub(at, j), p);
      PartOf(at, j, p);
      PartOf(at, n - 1, p);
      MulLe(j + 1, n, Pow(p, at.Rest() - 1));
    }
  }

  /** Entry `n` pruned, or not there at all: one entry further. */
  lemma PrunedStep(tree: map<Loc, nat>, mid: map<Loc, nat>, tree': map<Loc, nat>, at: Loc, n: nat, first: nat, p: nat)
    requires Shape(p, tree) && Shape(p, mid) && Sub(at, n).Valid(p)
    requires PrunedBelow(tree, mid, at, n, first, p) && Pruned(mid, tree', Sub(at, n), first, p)
    ensures PrunedBelow(tree, tree', at, n + 1, first, p)
  {
    forall l | l in tree
      ensures l !in tree' <==> l != at && l.Under(at) && Via(l, at) < n + 1 && Dead(tree, l, first, p)
    {
      if l != at && l.Under(at) {
        ViaUnder(l, at);
        if Via(l, at) == n {
          forall m: Loc | m.Under(l)
            ensures m in tree <==> m in mid
          {
            UnderTrans(m, l, Sub(at, n));
            UnderTrans(m, l, at);
            ViaSame(m, l, at);
          }
          DeadFrame(tree, mid, l, first, p);
        }
      } else if l.Under(Sub(at, n)) {
        assert Sub(at, n).Under(at);
        UnderTrans(l, Sub(at, n), at);
        UnderDeeper(l, Sub(at, n));
      }
    }
  }

  lemma {:induction false} ViaSame(m: Loc, l: Loc, top: Loc)
    requires l != top && l.Under(top) && m.Under(l)
    ensures m != top && m.Under(top) && Via(m, top) == Via(l, top)
  {
    if m != l {
      ViaSame(m.up, l, top);
      UnderDeeper(m.up, top);
    }
  }

  // ----- one block -----

  /** Data blocks still there are as they were. */
  ghost predicate LeavesKept(disk: map<nat, Bytes>, disk': map<nat, Bytes>, tree: map<Loc, nat>) {
    forall l :: l in tree && l.Leaf() ==> tree[l] in disk && tree[l] in disk' && disk'[tree[l]] == disk[tree[l]]
  }

  lemma KeptRefl(geo: Geometry, disk: map<nat, Bytes>, live: map<nat, Inode>, tree: map<Loc, nat>)
    requires geo.Wf() && DiskOk(geo, disk) && Owned(geo, live, tree)
    ensures MetaKept(geo, disk, disk) && LeavesKept(disk, disk, tree)
  {
    hide Volume.Geometry.IsMetadata;
  }

  /** One change after another, with fewer places at the end. */
  lemma KeptTrans(geo: Geometry, a: map<nat, Bytes>, b: map<nat, Bytes>, c: map<nat, Bytes>, tree: map<Loc, nat>,
        tree': map<Loc, nat>)
    requires geo.Sane() && MetaKept(geo, a, b) && MetaKept(geo, b, c)
    requires LeavesKept(a, b, tree) && LeavesKept(b, c, tree')
    requires forall l :: l in tree' ==> l in tree && tree'[l] == tree[l]
    ensures MetaKept(geo, a, c) && LeavesKept(a, c, tree')
  {
    hide Volume.Geometry.IsMetadata;
  }

  /** Frees the block at a place with nothing below it; the pointer to it is left. */
  method DropBlock(fs: Ext2, inode: Inode, ghost at: Loc, block: nat) returns (inode': Inode)
    requires Mapped(fs) && inode.ino in fs.live && fs.live[inode.ino] == inode
    requires at in fs.tree && fs.tree[at] == block && at.Ino() == inode.ino
    requires forall i: nat :: Sub(at, i) !in fs.tree
    modifies fs`disk, fs`freeBlocks, fs`freeBlocksTotal, fs`live, fs`tree
    ensures MappedBut(fs, Some(at)) && MetaKept(fs.geo, old(fs.disk), fs.disk)
    ensures fs.tree == old(fs.tree) - {at}
    ensures fs.live == old(fs.live)[inode.ino := inode'] && SameFile(inode', inode) && inode'.ptrs == inode.ptrs
    ensures LeavesKept(old(fs.disk), fs.disk, fs.tree)
    ensures fs.freeBlocksTotal == old(fs.freeBlocksTotal) + 1
  {
    hide Ptr, EntriesAgree, RootsAgree, Shape, Loc.Valid, Loc.Rest, Loc.Base, FileLimit.MaxBlocks, Bounded,
         BlocksAgree, Used, Leaves, Volume.Geometry.IsMetadata, Volume.Geometry.GroupsOk;
    var geo := fs.geo;
    assert block in fs.tree.Values;
    FreeBlock(fs, block);
    BlockBitmapsApart(geo);
    TreeFrame(geo, old(fs.disk), fs.disk, fs.live, fs.tree, None);
    DropOk(geo, fs.disk, fs.live, fs.tree, at);
    assert block !in MetaBlocks(geo);
    assert fs.live[inode.ino].HasTree();
    inode' := AddBlocks(inode, geo, -1);
    CountLess(geo, fs.live, fs.tree, at, inode');
    fs.tree := fs.tree - {at};
    InodeOk(geo, fs.disk, fs.live, fs.tree, Some(at), inode');
    fs.live := fs.live[inode.ino := inode'];
  }

  /** Clears the entry of an indirect block whose own block was freed. */
  method ClearEntry(fs: Ext2, ghost at: Loc, parent: nat, i: nat)
    requires at.Sub? && at.i == i && MappedBut(fs, Some(at)) && at !in fs.tree
    requires at.up in fs.tree && fs.tree[at.up] == parent && at.Valid(fs.geo.P())
    modifies fs`disk
    ensures Mapped(fs) && MetaKept(fs.geo, old(fs.disk), fs.disk) && LeavesKept(old(fs.disk), fs.disk, fs.tree)
  {
    hide Ptr, EntriesAgree, RootsAgree, Shape, Loc.Rest, Loc.Base, FileLimit.MaxBlocks, Bounded, BlocksAgree, Used,
         BlockCountsOk, Volume.Geometry.IsMetadata, Volume.Geometry.GroupsOk;
    ClearEntryOk(fs.geo, fs.disk, fs.live, fs.tree, at);
    DataBlock(fs.geo, fs.disk, parent, SetPtr(fs.disk[parent], i, 0));
    fs.disk := fs.disk[parent := SetPtr(fs.disk[parent], i, 0)];
    LeavesAre(fs.geo, old(fs.disk), fs.disk, fs.live, fs.tree);
  }

  lemma LeavesAre(geo: Geometry, disk: map<nat, Bytes>, disk': map<nat, Bytes>, live: map<nat, Inode>,
        tree: map<Loc, nat>)
    requires geo.Sane() && DiskOk(geo, disk) && DiskOk(geo, disk') && Owned(geo, live, tree)
    requires Leaves(disk', tree) == Leaves(disk, tree)
    ensures LeavesKept(disk, disk', tree)
  {
    hide Volume.Geometry.IsMetadata;
    forall l | l in tree && l.Leaf()
      ensures disk'[tree[l]] == disk[tree[l]]
    {
      assert Leaves(disk', tree)[l] == Leaves(disk, tree)[l];
    }
  }

  // ----- free_tree -----

  /** Where cutting at logical block `first` starts inside the tree at `l`. */
  ghost function From(l: Loc, first: nat, p: nat): nat
    requires l.Valid(p)
  {
    if first > l.Base(p) then first - l.Base(p) else 0
  }

  lemma EntryFrom(at: Loc, i: nat, first: nat, p: nat)
    requires Sub(at, i).Valid(p) && p > 0
    ensures Pow(p, at.Rest() - 1) > 0
    ensures var span, from := Pow(p, at.Rest() - 1), From(at, first, p);
            && (i < Quot(from, span) ==> Sub(at, i).End(p) <= first)
            && (i == Quot(from, span) ==> From(Sub(at, i), first, p) == Rem(from, span) && first < Sub(at, i).End(p))
            && (i > Quot(from, span) ==> From(Sub(at, i), first, p) == 0 && first < Sub(at, i).End(p))
  {
    var span, from := Pow(p, at.Rest() - 1), From(at, first, p);
    PowPositive(p, at.Rest() - 1);
    PartOf(at, i, p);
    QuotIs(from, span);
    DivModId(from, span);
    MulAssoc1(i, span);
    if i < from / span { MulLe(i + 1, from / span, span); }
    if i > from / span { MulLe(from / span + 1, i, span); MulAssoc1(from / span, span); }
  }

  lemma FromFits(at: Loc, first: nat, p: nat)
    requires at.Valid(p) && at.Rest() > 0 && p > 0 && first < at.End(p)
    ensures Pow(p, at.Rest() - 1) > 0 && Quot(From(at, first, p), Pow(p, at.Rest() - 1)) < p
  {
    PowPositive(p, at.Rest() - 1);
    PowPositive(p, at.Rest());
    QuotIs(From(at, first, p), Pow(p, at.Rest() - 1));
    DivLt(From(at, first, p), p, Pow(p, at.Rest() - 1));
  }

  /** Some entry before `n` outlives the cut. */
  ghost predicate Kept(tree: map<Loc, nat>, at: Loc, n: nat, first: nat, p: nat)
    requires Shape(p, tree)
  {
    exists j: nat :: j < n && Sub(at, j) in tree && !Dead(tree, Sub(at, j), first, p)
  }

  /** The effect of freeing under `at` on the volume, the pointer at `at` aside. */
  twostate predicate Freed(fs: Ext2, at: Loc, inode: Inode, inode': Inode, first: nat)
    requires old(fs.geo.Sane() && Shape(fs.geo.P(), fs.tree))
    reads fs
  {
    && Pruned(old(fs.tree), fs.tree, at, first, fs.geo.P())
    && fs.live == old(fs.live)[inode.ino := inode'] && SameFile(inode', inode) && inode'.ptrs == inode.ptrs
    && MetaKept(fs.geo, old(fs.disk), fs.disk) && LeavesKept(old(fs.disk), fs.disk, fs.tree)
    && fs.freeBlocksTotal + |fs.tree| == old(fs.freeBlocksTotal + |fs.tree|)
  }

  lemma PrunedNothing(tree: map<Loc, nat>, at: Loc, first: nat, p: nat)
    requires Shape(p, tree) && at !in tree
    ensures Pruned(tree, tree, at, first, p)
  {
    forall l | l in tree && l.Under(at)
      ensures false
    {
      NoneUnder(tree, l, at, p);
    }
  }

  lemma {:induction false} NoneUnder(tree: map<Loc, nat>, l: Loc, at: Loc, p: nat)
    requires Shape(p, tree) && at !in tree && l.Under(at)
    ensures l !in tree
  {
    if l != at { NoneUnder(tree, l.up, at, p); }
  }

  /** A data place is all there is under it. */
  lemma PrunedLeaf(tree: map<Loc, nat>, at: Loc, first: nat, p: nat)
    requires Shape(p, tree) && at in tree && at.Leaf() && first < at.End(p)
    ensures Pruned(tree, tree - {at}, at, first, p) && Dead(tree, at, first, p)
    ensures forall i: nat :: Sub(at, i) !in tree
  {
    forall l | l in tree && l.Under(at)
      ensures l == at
    {
      if l != at {
        ViaUnder(l, at);
        NoneUnder(tree, l, Sub(at, Via(l, at)), p);
      }
    }
  }

  /** Frees what entry `i` of the indirect block `block` leads to, and clears it if nothing is
      left: the body of `free_tree`'s loop. */
  method FreeEntry(fs: Ext2, inode: Inode, ghost at: Loc, block: nat, depth: nat, i: nat, ptr: nat, sub: nat,
        ghost first: nat) returns (freed: bool, inode': Inode)
    requires Mapped(fs) && inode.ino in fs.live && fs.live[inode.ino] == inode && inode.HasTree()
    requires at in fs.tree && fs.tree[at] == block && at.Ino() == inode.ino && Sub(at, i).Valid(fs.geo.P())
    requires Sub(at, i) in fs.tree && fs.tree[Sub(at, i)] == ptr
    requires depth > 0 && at.Rest() == depth && first < Sub(at, i).End(fs.geo.P())
             && sub == From(Sub(at, i), first, fs.geo.P())
    modifies fs`disk, fs`freeBlocks, fs`freeBlocksTotal, fs`live, fs`tree
    ensures Mapped(fs) && Freed(fs, Sub(at, i), inode, inode', first)
    ensures freed <==> old(Dead(fs.tree, Sub(at, i), first, fs.geo.P()))
    ensures freed <==> Sub(at, i) !in fs.tree
    ensures at in fs.tree && fs.tree[at] == block
    decreases depth, 0
  {
    hide Ptr, EntriesAgree, RootsAgree, Loc.Base, Distinct, Owned, InodesShaped, Bounded, BlocksAgree, Conserved,
         BlockCountsOk, Volume.Geometry.IsMetadata, Volume.Geometry.GroupsOk, Dead, LeavesKept, MetaKept, Loc.Valid;
    ghost var child, tree := Sub(at, i), fs.tree;
    if depth == 1 {
      PrunedLeaf(tree, child, first, fs.geo.P());
      inode' := DropBlock(fs, inode, child, ptr);
      freed := true;
    } else {
      freed, inode' := FreeTree(fs, inode, child, ptr, depth - 1, sub, first);
    }
    assert !at.Under(child) by {
      if at.Under(child) { UnderDeeper(at, child); }
    }
    if freed {
      ghost var mid := fs.disk;
      ClearEntry(fs, child, block, i);
      KeptTrans(fs.geo, old(fs.disk), mid, fs.disk, fs.tree, fs.tree);
    }
  }

  /** The loop of `free_tree` over the entries from `from` on; whether any entry is left. */
  method FreeEntries(fs: Ext2, inode: Inode, ghost at: Loc, block: nat, depth: nat, from: nat, ghost first: nat)
    returns (kept: bool, inode': Inode)
    requires Mapped(fs) && inode.ino in fs.live && fs.live[inode.ino] == inode && inode.HasTree()
    requires at in fs.tree && fs.tree[at] == block && at.Ino() == inode.ino && at.Valid(fs.geo.P())
    requires depth > 0 && at.Rest() == depth && first < at.End(fs.geo.P()) && from == From(at, first, fs.geo.P())
    modifies fs`disk, fs`freeBlocks, fs`freeBlocksTotal, fs`live, fs`tree
    ensures Mapped(fs)
    ensures PrunedBelow(old(fs.tree), fs.tree, at, fs.geo.P(), first, fs.geo.P())
    ensures fs.live == old(fs.live)[inode.ino := inode'] && SameFile(inode', inode) && inode'.ptrs == inode.ptrs
    ensures MetaKept(fs.geo, old(fs.disk), fs.disk) && LeavesKept(old(fs.disk), fs.disk, fs.tree)
    ensures fs.freeBlocksTotal + |fs.tree| == old(fs.freeBlocksTotal + |fs.tree|)
    ensures kept <==> Kept(old(fs.tree), at, fs.geo.P(), first, fs.geo.P())
    decreases depth, 1
  {
    hide Ptr, EntriesAgree, RootsAgree, Loc.Valid, Loc.Base, Distinct, Owned, InodesShaped, Bounded, BlocksAgree,
         Conserved, BlockCountsOk, Volume.Geometry.IsMetadata, Volume.Geometry.GroupsOk, Dead, Pruned, PrunedBelow,
         From, LeavesKept, MetaKept, Kept;
    var geo, p := fs.geo, fs.geo.P();
    ghost var tree := fs.tree;
    Present(geo, fs.disk, fs.live, fs.tree, at);
    PowPositive(p, depth - 1);
    var span := Pow(p, depth - 1);
    var data := fs.disk[block];
    var ptrs := seq(p, i requires 0 <= i < p => Ptr(data, i));
    EntriesOf(geo, fs.disk, fs.live, tree, at);
    var start := Quot(from, span);
    FromFits(at, first, p);
    kept := exists i: nat :: i < start && ptrs[i] != 0;
    KeptStart(tree, at, start, first, p);
    assert forall i: nat :: i < start ==> ptrs[i] == Get(tree, Sub(at, i));
    KeptRefl(geo, fs.disk, fs.live, tree);
    inode' := inode;
    for i := start to p
      invariant Mapped(fs) && PrunedBelow(tree, fs.tree, at, i, first, p)
      invariant fs.live == old(fs.live)[inode.ino := inode'] && SameFile(inode', inode) && inode'.ptrs == inode.ptrs
      invariant MetaKept(geo, old(fs.disk), fs.disk) && LeavesKept(old(fs.disk), fs.disk, fs.tree)
      invariant fs.freeBlocksTotal + |fs.tree| == old(fs.freeBlocksTotal + |fs.tree|)
      invariant kept <==> Kept(tree, at, i, first, p)
      invariant at in fs.tree && fs.tree[at] == block
    {
      ghost var mid := fs.tree;
      EntryFrom(at, i, first, p);
      EntryUntouched(tree, mid, at, i, first, p);
      KeptStep(tree, at, i, first, p);
      if ptrs[i] == 0 {
        PrunedNothing(mid, Sub(at, i), first, p);
        PrunedStep(tree, mid, mid, at, i, first, p);
        continue;
      }
      var sub := if i == start then Rem(from, span) else 0;
      var freed;
      ghost var disk := fs.disk;
      freed, inode' := FreeEntry(fs, inode', at, block, depth, i, ptrs[i], sub, first);
      PrunedFewer(mid, fs.tree, Sub(at, i), first, p);
      KeptTrans(geo, old(fs.disk), disk, fs.disk, mid, fs.tree);
      PrunedStep(tree, mid, fs.tree, at, i, first, p);
      if !freed {
        kept := true;
      }
    }
  }

  /** Frees the entries from index `from` on of the indirect block `block` at `depth` (1: it points
      at data), and the block itself if it ends up empty; whether it did. */
  method FreeTree(fs: Ext2, inode: Inode, ghost at: Loc, block: nat, depth: nat, from: nat, ghost first: nat)
    returns (freed: bool, inode': Inode)
    requires Mapped(fs) && inode.ino in fs.live && fs.live[inode.ino] == inode && inode.HasTree()
    requires at in fs.tree && fs.tree[at] == block && at.Ino() == inode.ino && at.Valid(fs.geo.P())
    requires depth > 0 && at.Rest() == depth && first < at.End(fs.geo.P()) && from == From(at, first, fs.geo.P())
    modifies fs`disk, fs`freeBlocks, fs`freeBlocksTotal, fs`live, fs`tree
    ensures MappedBut(fs, if freed then Some(at) else None)
    ensures Freed(fs, at, inode, inode', first)
    ensures freed <==> old(Dead(fs.tree, at, first, fs.geo.P()))
    ensures freed <==> at !in fs.tree
    decreases depth, 2
  {
    hide Ptr, EntriesAgree, RootsAgree, Loc.Base, Distinct, Owned, InodesShaped, Bounded, BlocksAgree, Conserved,
         BlockCountsOk, Volume.Geometry.IsMetadata, Volume.Geometry.GroupsOk, From, Dead, Pruned, PrunedBelow, Kept,
         LeavesKept, MetaKept;
    var geo := fs.geo;
    ghost var p, tree := geo.P(), fs.tree;
    Present(geo, fs.disk, fs.live, fs.tree, at);
    if geo.BadBlock(block) {
      return true, inode;
    }
    var kept;
    kept, inode' := FreeEntries(fs, inode, at, block, depth, from, first);
    PrunedWhole(tree, fs.tree, at, first, p);
    if kept {
      return false, inode';
    }
    ghost var disk, mid := fs.disk, fs.tree;
    inode' := DropBlock(fs, inode', at, block);
    KeptTrans(geo, old(fs.disk), disk, fs.disk, mid, fs.tree);
    return true, inode';
  }

  /** Every entry pruned: the block is dead exactly when none was kept, and then has no entry. */
  lemma PrunedWhole(tree: map<Loc, nat>, mid: map<Loc, nat>, at: Loc, first: nat, p: nat)
    requires Shape(p, tree) && at in tree && at.Rest() > 0 && first < at.End(p)
             && PrunedBelow(tree, mid, at, p, first, p)
    ensures at in mid && mid[at] == tree[at]
    ensures Dead(tree, at, first, p) <==> !Kept(tree, at, p, first, p)
    ensures Kept(tree, at, p, first, p) ==> Pruned(tree, mid, at, first, p)
    ensures !Kept(tree, at, p, first, p) ==>
            Pruned(tree, mid - {at}, at, first, p) && forall i: nat :: Sub(at, i) !in mid
  {
    hide Loc.Base, Loc.Rest, Dead, Kept, Loc.End;
    DeadIfNoneKept(tree, at, first, p);
    PrunedThrough(tree, mid, at, first, p);
    if !Kept(tree, at, p, first, p) {
      forall i: nat
        ensures Sub(at, i) !in mid
      {
        EntryGone(tree, mid, at, first, p, i);
      }
    }
  }

  /** Below `at` exactly the dead places are gone. */
  lemma PrunedThrough(tree: map<Loc, nat>, mid: map<Loc, nat>, at: Loc, first: nat, p: nat)
    requires Shape(p, tree) && at in tree && PrunedBelow(tree, mid, at, p, first, p)
    ensures at in mid && mid[at] == tree[at]
    ensures !Dead(tree, at, first, p) ==> Pruned(tree, mid, at, first, p)
    ensures Dead(tree, at, first, p) ==> Pruned(tree, mid - {at}, at, first, p)
  {
    hide Loc.Base, Loc.Rest, Dead, Via;
    forall l | l in tree && l != at && l.Under(at)
      ensures Via(l, at) < p
    {
      ViaUnder(l, at);
      ViaValid(l, at, p);
    }
    assert at.Under(at);
  }

  /** With no entry kept, no entry is left. */
  lemma EntryGone(tree: map<Loc, nat>, mid: map<Loc, nat>, at: Loc, first: nat, p: nat, i: nat)
    requires Shape(p, tree) && PrunedBelow(tree, mid, at, p, first, p) && !Kept(tree, at, p, first, p)
    ensures Sub(at, i) !in mid
  {
    hide Loc.Base, Loc.Rest, Dead;
    if Sub(at, i) in tree {
      assert Sub(at, i).Valid(p);
      assert at.Under(at);
      assert Sub(at, i).Under(at) && Sub(at, i).Level() == at.Level() + 1;
      assert Via(Sub(at, i), at) == i;
    }
  }

  lemma DeadIfNoneKept(tree: map<Loc, nat>, at: Loc, first: nat, p: nat)
    requires Shape(p, tree) && at in tree && at.Rest() > 0 && first < at.End(p)
    ensures Dead(tree, at, first, p) <==> !Kept(tree, at, p, first, p)
  {
    hide Loc.Base;
  }

  lemma PrunedFewer(tree: map<Loc, nat>, tree': map<Loc, nat>, at: Loc, first: nat, p: nat)
    requires Shape(p, tree) && Pruned(tree, tree', at, first, p)
    ensures forall l :: l in tree' ==> l in tree && tree'[l] == tree[l]
  {
    hide Dead;
  }

  lemma {:induction false} ViaValid(l: Loc, at: Loc, p: nat)
    requires l != at && l.Under(at) && l.Valid(p)
    ensures Via(l, at) < p
  {
    if l.up != at { ViaValid(l.up, at, p); }
  }

  /** What the entries of an indirect block hold, as its tree has it. */
  lemma EntriesOf(geo: Geometry, disk: map<nat, Bytes>, live: map<nat, Inode>, tree: map<Loc, nat>, at: Loc)
    requires geo.Wf() && DiskOk(geo, disk) && TreeOk(geo, disk, live, tree, None)
    requires at in tree && at.Rest() > 0
    ensures tree[at] in disk
    ensures forall i: nat :: i < geo.P() ==>
            Sub(at, i).Valid(geo.P()) && Ptr(disk[tree[at]], i) == Get(tree, Sub(at, i))
    ensures forall i: nat :: Sub(at, i) in tree <==> Get(tree, Sub(at, i)) != 0
  {
    hide Ptr, Volume.Geometry.IsMetadata, Volume.Geometry.GroupsOk;
    forall i: nat
      ensures Sub(at, i) in tree <==> Get(tree, Sub(at, i)) != 0
    {
      Present(geo, disk, live, tree, Sub(at, i));
    }
  }

  lemma KeptStart(tree: map<Loc, nat>, at: Loc, start: nat, first: nat, p: nat)
    requires p > 0 && Shape(p, tree) && at in tree && at.Rest() > 0 && first < at.End(p)
    requires Pow(p, at.Rest() - 1) > 0 && start == Quot(From(at, first, p), Pow(p, at.Rest() - 1)) && start < p
    ensures PrunedBelow(tree, tree, at, start, first, p)
    ensures Kept(tree, at, start, first, p) <==> exists i: nat :: i < start && Sub(at, i) in tree
  {
    hide Loc.Base, Loc.Rest;
    forall j: nat | j < start
      ensures Sub(at, j).Valid(p) && Sub(at, j).End(p) <= first
    {
      EntryFrom(at, j, first, p);
    }
    PrunedStart(tree, at, start, first, p);
  }

  lemma KeptStep(tree: map<Loc, nat>, at: Loc, n: nat, first: nat, p: nat)
    requires Shape(p, tree)
    ensures Kept(tree, at, n + 1, first, p) <==>
            Kept(tree, at, n, first, p) || (Sub(at, n) in tree && !Dead(tree, Sub(at, n), first, p))
  {
    hide Dead;
  }

  /** An entry not reached yet, and everything under it, is as it was. */
  lemma EntryUntouched(tree: map<Loc, nat>, mid: map<Loc, nat>, at: Loc, n: nat, first: nat, p: nat)
    requires Shape(p, tree) && Sub(at, n).Valid(p) && PrunedBelow(tree, mid, at, n, first, p)
    ensures Get(mid, Sub(at, n)) == Get(tree, Sub(at, n)) && (Sub(at, n) in mid <==> Sub(at, n) in tree)
    ensures Dead(mid, Sub(at, n), first, p) == Dead(tree, Sub(at, n), first, p)
  {
    hide Dead;
    forall m: Loc | m.Under(Sub(at, n))
      ensures m in mid <==> m in tree
    {
      assert Sub(at, n).Under(at);
      UnderTrans(m, Sub(at, n), at);
      ViaSame(m, Sub(at, n), at);
    }
    assert Sub(at, n).Under(Sub(at, n));
    DeadFrame(mid, tree, Sub(at, n), first, p);
  }

  // ----- free_from -----

  /** `tree'` is `tree` without the dead places of `ino` under the first `n` entries of `i_block`. */
  ghost predicate CutBelow(tree: map<Loc, nat>, tree': map<Loc, nat>, ino: nat, n: nat, first: nat, p: nat)
    requires Shape(p, tree)
  {
    && (forall l :: l in tree' ==> l in tree && tree'[l] == tree[l])
    && (forall l :: l in tree ==> (l !in tree' <==> l.Ino() == ino && l.Slot() < n && Dead(tree, l, first, p)))
  }

  /** `tree'` is `tree` with the file `ino` cut to `first` logical blocks. */
  ghost predicate Cut(tree: map<Loc, nat>, tree': map<Loc, nat>, ino: nat, first: nat, p: nat)
    requires Shape(p, tree)
  {
    && (forall l :: l in tree' ==> l in tree && tree'[l] == tree[l])
    && (forall l :: l in tree ==> (l !in tree' <==> l.Ino() == ino && Dead(tree, l, first, p)))
  }

  /** Cutting leaves every logical block below `first` where it was and none from there on, and no
      other file's is changed. */
  lemma CutBlocks(geo: Geometry, tree: map<Loc, nat>, tree': map<Loc, nat>, ino: nat, first: nat, file: nat, lb: nat)
    requires geo.Sane() && Shape(geo.P(), tree) && Cut(tree, tree', ino, first, geo.P())
    ensures BlockAt(geo, tree', file, lb) == if file == ino && lb >= first then None else BlockAt(geo, tree, file, lb)
  {
    hide Shape, Reach, LeafFor;
    if lb < Reach(geo.P()) {
      var l := LeafFor(file, lb, geo.P());
      RestBounds(l, geo.P());
      PowZero(geo.P());
    }
  }

  lemma CutFewer(tree: map<Loc, nat>, tree': map<Loc, nat>, ino: nat, first: nat, p: nat)
    requires Shape(p, tree) && Cut(tree, tree', ino, first, p)
    ensures |tree'| <= |tree|
  {
    hide Dead;
    Sets.SubsetSize(tree'.Keys, tree.Keys);
  }

  /** No indirect block reaching past `first` is left without an entry. */
  lemma CutKeepsUsed(tree: map<Loc, nat>, tree': map<Loc, nat>, ino: nat, first: nat, p: nat, l: Loc)
    requires Shape(p, tree) && Cut(tree, tree', ino, first, p)
    requires l in tree' && l.Ino() == ino && l.Rest() > 0 && l.End(p) > first
    ensures exists i: nat :: i < p && Sub(l, i) in tree'
  {
    assert !Dead(tree, l, first, p);
    var i: nat :| i < p && Sub(l, i) in tree && !Dead(tree, Sub(l, i), first, p);
    assert Sub(l, i) in tree';
  }

  lemma {:induction false} UnderSlot(l: Loc, top: Loc)
    requires l.Under(top)
    ensures l.Ino() == top.Ino() && l.Slot() == top.Slot()
  {
    if l != top { UnderSlot(l.up, top); }
  }

  lemma CutStart(tree: map<Loc, nat>, ino: nat, n: nat, first: nat, p: nat)
    requires Shape(p, tree) && n <= first && n <= N_DIRECT
    ensures CutBelow(tree, tree, ino, n, first, p)
  {
    forall l | l in tree && l.Slot() < n
      ensures !Dead(tree, l, first, p)
    {
      UnderRoot(l, p);
    }
  }

  lemma CutStep(tree: map<Loc, nat>, mid: map<Loc, nat>, tree': map<Loc, nat>, ino: nat, slot: nat, first: nat, p: nat)
    requires Shape(p, tree) && Shape(p, mid)
    requires CutBelow(tree, mid, ino, slot, first, p) && Pruned(mid, tree', Root(ino, slot), first, p)
    ensures CutBelow(tree, tree', ino, slot + 1, first, p)
  {
    hide Dead, Loc.Base;
    forall l | l in tree
      ensures l !in tree' <==> l.Ino() == ino && l.Slot() < slot + 1 && Dead(tree, l, first, p)
    {
      UnderRoot(l, p);
      if l.Ino() == ino && l.Slot() == slot {
        forall m: Loc | m.Under(l)
          ensures m in tree <==> m in mid
        {
          UnderSlot(m, l);
        }
        DeadFrame(tree, mid, l, first, p);
      } else if l.Under(Root(ino, slot)) {
        UnderSlot(l, Root(ino, slot));
      }
    }
  }

  /** A whole tree below the cut keeps everything. */
  lemma PrunedOutside(tree: map<Loc, nat>, at: Loc, first: nat, p: nat)
    requires Shape(p, tree) && at.Valid(p) && at.End(p) <= first
    ensures Pruned(tree, tree, at, first, p)
  {
    forall l | l in tree && l.Under(at)
      ensures !Dead(tree, l, first, p)
    {
      EndBelow(l, at, p);
    }
  }

  lemma CutAll(tree: map<Loc, nat>, tree': map<Loc, nat>, ino: nat, first: nat, p: nat)
    requires Shape(p, tree) && CutBelow(tree, tree', ino, N_SLOTS, first, p)
    ensures Cut(tree, tree', ino, first, p)
  {
    hide Dead;
    forall l | l in tree
      ensures l.Slot() < N_SLOTS
    {
      RestBounds(l, p);
    }
  }

  /** The effect of freeing under one entry of `i_block`, the entry cleared if its block went. */
  twostate predicate SlotFreed(fs: Ext2, slot: nat, inode: Inode, inode': Inode, first: nat)
    requires old(fs.geo.Sane() && Shape(fs.geo.P(), fs.tree))
    reads fs
  {
    && Pruned(old(fs.tree), fs.tree, Root(inode.ino, slot), first, fs.geo.P())
    && fs.live == old(fs.live)[inode.ino := inode'] && SameFile(inode', inode)
    && MetaKept(fs.geo, old(fs.disk), fs.disk) && LeavesKept(old(fs.disk), fs.disk, fs.tree)
    && fs.freeBlocksTotal + |fs.tree| == old(fs.freeBlocksTotal + |fs.tree|)
  }

  /** Clears an entry of `i_block` whose block was freed. */
  method ClearSlot(fs: Ext2, inode: Inode, slot: nat) returns (inode': Inode)
    requires MappedBut(fs, Some(Root(inode.ino, slot))) && inode.ino in fs.live && fs.live[inode.ino] == inode
             && inode.HasTree()
    requires slot < N_SLOTS && Root(inode.ino, slot) !in fs.tree
    modifies fs`live
    ensures Mapped(fs) && fs.live == old(fs.live)[inode.ino := inode'] && SameFile(inode', inode)
  {
    hide Ptr, EntriesAgree, RootsAgree, Shape, Bounded, Used, BlockCountsOk, Volume.Geometry.IsMetadata,
         Volume.Geometry.GroupsOk;
    inode' := inode.(ptrs := inode.ptrs[slot := 0]);
    ClearRootOk(fs.geo, fs.disk, fs.live, fs.tree, Root(inode.ino, slot), inode');
    fs.live := fs.live[inode.ino := inode'];
  }

  /** The direct pointers from `first` on. */
  method FreeDirect(fs: Ext2, inode: Inode, slot: nat, ghost first: nat) returns (inode': Inode)
    requires Mapped(fs) && inode.ino in fs.live && fs.live[inode.ino] == inode && inode.HasTree()
    requires slot < N_DIRECT && first <= slot
    modifies fs`disk, fs`freeBlocks, fs`freeBlocksTotal, fs`live, fs`tree
    ensures Mapped(fs) && SlotFreed(fs, slot, inode, inode', first)
  {
    hide Ptr, EntriesAgree, RootsAgree, Distinct, Bounded, BlocksAgree, Conserved, BlockCountsOk,
         Volume.Geometry.IsMetadata, Volume.Geometry.GroupsOk, Dead, Pruned, LeavesKept, MetaKept;
    ghost var at, p := Root(inode.ino, slot), fs.geo.P();
    Present(fs.geo, fs.disk, fs.live, fs.tree, at);
    FollowRoot(fs.geo, fs.disk, fs.live, fs.tree, inode.ino, slot);
    KeptRefl(fs.geo, fs.disk, fs.live, fs.tree);
    var block := inode.ptrs[slot];
    inode' := inode;
    if block == 0 {
      PrunedNothing(fs.tree, at, first, p);
      return;
    }
    PrunedLeaf(fs.tree, at, first, p);
    inode' := DropBlock(fs, inode, at, block);
    inode' := ClearSlot(fs, inode', slot);
  }

  /** The tree under an indirect pointer reaching past `first`. */
  method FreeIndirect(fs: Ext2, inode: Inode, depth: nat, start: nat, span: nat, first: nat) returns (inode': Inode)
    requires Mapped(fs) && inode.ino in fs.live && fs.live[inode.ino] == inode && inode.HasTree()
    requires 1 <= depth <= 3 && start == SlotBase(N_DIRECT + depth - 1, fs.geo.P()) && span == Pow(fs.geo.P(), depth)
    modifies fs`disk, fs`freeBlocks, fs`freeBlocksTotal, fs`live, fs`tree
    ensures Mapped(fs) && SlotFreed(fs, N_DIRECT + depth - 1, inode, inode', first)
  {
    hide Ptr, EntriesAgree, RootsAgree, Distinct, Bounded, BlocksAgree, Conserved, BlockCountsOk,
         Volume.Geometry.IsMetadata, Volume.Geometry.GroupsOk, Dead, Pruned, LeavesKept, MetaKept;
    var slot := N_DIRECT + depth - 1;
    ghost var at, p := Root(inode.ino, slot), fs.geo.P();
    Present(fs.geo, fs.disk, fs.live, fs.tree, at);
    FollowRoot(fs.geo, fs.disk, fs.live, fs.tree, inode.ino, slot);
    KeptRefl(fs.geo, fs.disk, fs.live, fs.tree);
    var root := inode.ptrs[slot];
    inode' := inode;
    if root != 0 && first < start + span {
      var freed;
      freed, inode' := FreeTree(fs, inode, at, root, depth, if first > start then first - start else 0, first);
      if freed {
        inode' := ClearSlot(fs, inode', slot);
      }
    } else if root == 0 {
      PrunedNothing(fs.tree, at, first, p);
    } else {
      PrunedOutside(fs.tree, at, first, p);
    }
  }

  /** The blocks of a volume: their contents, their places and how many are free. */
  datatype Space = Space(disk: map<nat, Bytes>, tree: map<Loc, nat>, free: nat)

  ghost function SpaceOf(fs: Ext2): Space
    reads fs
  {
    Space(fs.disk, fs.tree, fs.freeBlocksTotal)
  }

  /** `b` is `a` with the file `ino` cut under the first `n` entries of `i_block`. */
  ghost predicate CutSoFar(geo: Geometry, a: Space, b: Space, ino: nat, n: nat, first: nat)
    requires geo.Sane()
  {
    && Shape(geo.P(), a.tree) && CutBelow(a.tree, b.tree, ino, n, first, geo.P())
    && MetaKept(geo, a.disk, b.disk) && LeavesKept(a.disk, b.disk, b.tree)
    && b.free + |b.tree| == a.free + |a.tree|
  }

  lemma CutFurther(geo: Geometry, a: Space, b: Space, c: Space, ino: nat, slot: nat, first: nat)
    requires geo.Sane() && CutSoFar(geo, a, b, ino, slot, first)
    requires Shape(geo.P(), b.tree) && Pruned(b.tree, c.tree, Root(ino, slot), first, geo.P())
    requires MetaKept(geo, b.disk, c.disk) && LeavesKept(b.disk, c.disk, c.tree)
             && c.free + |c.tree| == b.free + |b.tree|
    ensures CutSoFar(geo, a, c, ino, slot + 1, first)
  {
    hide Dead, Pruned, CutBelow, LeavesKept, MetaKept, Shape;
    CutStep(a.tree, b.tree, c.tree, ino, slot, first, geo.P());
    PrunedFewer(b.tree, c.tree, Root(ino, slot), first, geo.P());
    KeptTrans(geo, a.disk, b.disk, c.disk, b.tree, c.tree);
  }

  /** Frees every data block of `inode` from logical block `first` on, and the indirect blocks left
      empty. */
  method FreeFrom(fs: Ext2, inode: Inode, first: nat) returns (inode': Inode)
    requires Mapped(fs) && inode.ino in fs.live && fs.live[inode.ino] == inode && inode.HasTree()
    modifies fs`disk, fs`freeBlocks, fs`freeBlocksTotal, fs`live, fs`tree
    ensures Mapped(fs)
    ensures Cut(old(fs.tree), fs.tree, inode.ino, first, fs.geo.P())
    ensures fs.live == old(fs.live)[inode.ino := inode'] && SameFile(inode', inode)
    ensures MetaKept(fs.geo, old(fs.disk), fs.disk) && LeavesKept(old(fs.disk), fs.disk, fs.tree)
    ensures fs.freeBlocksTotal + |fs.tree| == old(fs.freeBlocksTotal + |fs.tree|)
    ensures fs.freeBlocksTotal >= old(fs.freeBlocksTotal)
  {
    hide Ptr, EntriesAgree, RootsAgree, Distinct, Bounded, BlocksAgree, Conserved, BlockCountsOk,
         Volume.Geometry.IsMetadata, Volume.Geometry.GroupsOk, Dead, Pruned, CutSoFar, LeavesKept, MetaKept, Shape,
         Pow, SlotBase;
    var geo, p := fs.geo, fs.geo.P();
    ghost var ino, before := inode.ino, SpaceOf(fs);
    var from := if first < N_DIRECT then first else N_DIRECT;
    CutNothing(geo, before, fs.live, ino, from, first);
    inode' := inode;
    for i := from to N_DIRECT
      invariant Mapped(fs) && CutSoFar(geo, before, SpaceOf(fs), ino, i, first)
      invariant fs.live == old(fs.live)[ino := inode'] && SameFile(inode', inode)
    {
      ghost var mid := SpaceOf(fs);
      inode' := FreeDirect(fs, inode', i, first);
      CutFurther(geo, before, mid, SpaceOf(fs), ino, i, first);
    }
    var start := N_DIRECT;
    var span := 1;
    SpanStart(p);
    for depth := 1 to 4
      invariant Mapped(fs) && CutSoFar(geo, before, SpaceOf(fs), ino, N_DIRECT + depth - 1, first)
      invariant fs.live == old(fs.live)[ino := inode'] && SameFile(inode', inode)
      invariant start == SlotBase(N_DIRECT + depth - 1, p) && span == Pow(p, depth - 1)
    {
      span := Times(p, span);
      SpanStep(depth, p);
      ghost var mid := SpaceOf(fs);
      inode' := FreeIndirect(fs, inode', depth, start, span, first);
      CutFurther(geo, before, mid, SpaceOf(fs), ino, N_DIRECT + depth - 1, first);
      start := start + span;
    }
    CutDone(geo, before, SpaceOf(fs), ino, first);
    CutFewer(before.tree, fs.tree, ino, first, p);
  }

  lemma SpanStart(p: nat)
    ensures SlotBase(N_DIRECT, p) == N_DIRECT && Pow(p, 0) == 1
  {
  }

  lemma SpanStep(depth: nat, p: nat)
    requires 1 <= depth <= 3
    ensures Pow(p, depth) == Times(p, Pow(p, depth - 1))
    ensures SlotBase(N_DIRECT + depth, p) == SlotBase(N_DIRECT + depth - 1, p) + Pow(p, depth)
  {
    TimesIs(p, Pow(p, depth - 1));
  }

  lemma CutNothing(geo: Geometry, a: Space, live: map<nat, Inode>, ino: nat, n: nat, first: nat)
    requires geo.Wf() && DiskOk(geo, a.disk) && Shape(geo.P(), a.tree) && Owned(geo, live, a.tree)
    requires n <= first && n <= N_DIRECT
    ensures CutSoFar(geo, a, a, ino, n, first)
  {
    hide CutBelow, LeavesKept, MetaKept;
    CutStart(a.tree, ino, n, first, geo.P());
    KeptRefl(geo, a.disk, live, a.tree);
  }

  lemma CutDone(geo: Geometry, a: Space, b: Space, ino: nat, first: nat)
    requires geo.Sane() && CutSoFar(geo, a, b, ino, N_SLOTS, first)
    ensures Cut(a.tree, b.tree, ino, first, geo.P())
    ensures MetaKept(geo, a.disk, b.disk) && LeavesKept(a.disk, b.disk, b.tree)
            && b.free + |b.tree| == a.free + |a.tree|
  {
    hide CutBelow, LeavesKept, MetaKept;
    CutAll(a.tree, b.tree, ino, first, geo.P());
  }
}

/** The block map (crates/ext2/src/file.rs): finding, allocating and freeing the blocks of a file
    through its direct and indirect pointers. */
module BlockMap {
  import opened Wrappers
  import opened Le
  import opened Arith
  import opened BlockPath
  import opened FileLimit
  import opened Volume
  import opened Allocator
  import opened Trees

  // ----- the volume's blocks and the files' -----

  /** The places of one inode. */
  ghost function Nodes(tree: map<Loc, nat>, ino: nat): set<Loc> {
    set l | l in tree && l.Ino() == ino
  }

  /** Conservation: the blocks marked in use are the metadata and the blocks of the trees. */
  ghost predicate Conserved(geo: Geometry, disk: map<nat, Bytes>, tree: map<Loc, nat>)
    requires geo.Wf() && DiskOk(geo, disk)
  {
    Used(geo, disk) == MetaBlocks(geo) + tree.Values
  }

  /** No file passes the largest file. */
  ghost predicate Bounded(geo: Geometry, tree: map<Loc, nat>)
    requires geo.Sane()
  {
    forall l :: l in tree ==> l.Valid(geo.P()) && l.Base(geo.P()) < MaxBlocks(geo.blockSize)
  }

  /** `i_blocks` counts the blocks of the tree in 512-byte units. */
  ghost predicate BlocksAgree(geo: Geometry, live: map<nat, Inode>, tree: map<Loc, nat>) {
    forall ino :: ino in live && live[ino].HasTree() ==>
      live[ino].blocks == Times(|Nodes(tree, ino)|, geo.blockSize / 512)
  }

  /** A volume whose bitmaps, counts, inodes and pointers agree; at `hole` a pointer to a block
      already freed may be left. */
  ghost predicate MappedBut(fs: Ext2, hole: Option<Loc>)
    reads fs
  {
    && fs.geo.Wf() && DiskOk(fs.geo, fs.disk)
    && BlockCountsOk(fs.geo, fs.disk, fs.freeBlocks, fs.freeBlocksTotal)
    && TreeOk(fs.geo, fs.disk, fs.live, fs.tree, hole)
    && Conserved(fs.geo, fs.disk, fs.tree) && Bounded(fs.geo, fs.tree) && BlocksAgree(fs.geo, fs.live, fs.tree)
  }

  ghost predicate Mapped(fs: Ext2)
    reads fs
  {
    MappedBut(fs, None)
  }

  /** `disk'` differs from `disk` in block bitmaps and blocks outside the metadata. */
  ghost predicate MetaKept(geo: Geometry, disk: map<nat, Bytes>, disk': map<nat, Bytes>)
    requires geo.Sane()
  {
    forall b :: b in disk && geo.IsMetadata(b) && !IsBlockBitmap(geo, b) ==> b in disk' && disk'[b] == disk[b]
  }

  /** A block outside the metadata says nothing about use. */
  lemma DataBlock(geo: Geometry, disk: map<nat, Bytes>, b: nat, data: Bytes)
    requires geo.Wf() && DiskOk(geo, disk) && !geo.BadBlock(b) && |data| == geo.blockSize
    ensures DiskOk(geo, disk[b := data]) && Used(geo, disk[b := data]) == Used(geo, disk)
    ensures forall free, total :: BlockCountsOk(geo, disk, free, total) ==>
            BlockCountsOk(geo, disk[b := data], free, total)
  {
    hide Volume.Geometry.GroupsOk, Bitmap.Test;
    BlockBitmapsApart(geo);
    forall g | 0 <= g < geo.groups
      ensures BlockBits(geo, disk[b := data], g) == BlockBits(geo, disk, g)
    {
      assert IsBlockBitmap(geo, geo.descs[g].blockBitmap);
    }
    forall c: nat | geo.firstDataBlock <= c < geo.blocksCount
      ensures BlockUsed(geo, disk[b := data], c) == BlockUsed(geo, disk, c)
    {
      geo.BlockSplits(c);
    }
  }

  /** `add_blocks` for one block more or less. */
  function AddBlocks(inode: Inode, geo: Geometry, delta: int): Inode {
    inode.(blocks := Clamp(inode.blocks + delta * (geo.blockSize / 512), U32_MAX))
  }

  /** One place more: `add_blocks` keeps `i_blocks` right and never saturates. */
  lemma CountMore(geo: Geometry, live: map<nat, Inode>, tree: map<Loc, nat>, at: Loc, b: nat, inode: Inode)
    requires geo.Sane() && Bounded(geo, tree) && BlocksAgree(geo, live, tree)
    requires at !in tree && at.Valid(geo.P()) && at.Base(geo.P()) < MaxBlocks(geo.blockSize)
    requires at.Ino() in live && live[at.Ino()].HasTree() && inode.HasTree()
    requires inode.blocks == AddBlocks(live[at.Ino()], geo, 1).blocks
    ensures inode.blocks == live[at.Ino()].blocks + geo.blockSize / 512
    ensures Bounded(geo, tree[at := b]) && BlocksAgree(geo, live[at.Ino() := inode], tree[at := b])
  {
    hide FileLimit.MaxBlocks, Loc.Base, Loc.Valid;
    var ino, tree' := at.Ino(), tree[at := b];
    var n := Nodes(tree, ino);
    assert Nodes(tree', ino) == n + {at};
    BlocksFit(n + {at}, ino, geo.blockSize);
    TimesIs(|n| + 1, geo.blockSize / 512);
    forall other | other in live && other != ino
      ensures Nodes(tree', other) == Nodes(tree, other)
    {
    }
  }

  /** One place less. */
  lemma CountLess(geo: Geometry, live: map<nat, Inode>, tree: map<Loc, nat>, at: Loc, inode: Inode)
    requires geo.Sane() && Bounded(geo, tree) && BlocksAgree(geo, live, tree)
    requires at in tree && at.Ino() in live && live[at.Ino()].HasTree() && inode.HasTree()
    requires inode.blocks == AddBlocks(live[at.Ino()], geo, -1).blocks
    ensures inode.blocks == live[at.Ino()].blocks - geo.blockSize / 512
    ensures Bounded(geo, tree - {at}) && BlocksAgree(geo, live[at.Ino() := inode], tree - {at})
  {
    hide FileLimit.MaxBlocks, Loc.Base, Loc.Valid;
    var ino, tree' := at.Ino(), tree - {at};
    var n := Nodes(tree, ino);
    assert at in n && Nodes(tree', ino) == n - {at};
    BlocksFit(n, ino, geo.blockSize);
    TimesIs(|n|, geo.blockSize / 512);
    forall other | other in live && other != ino
      ensures Nodes(tree', other) == Nodes(tree, other)
    {
    }
  }

  // ----- bmap -----

  /** One step down a tree: the pointer read is the one the tree has there. */
  lemma Follow(geo: Geometry, disk: map<nat, Bytes>, live: map<nat, Inode>, tree: map<Loc, nat>, l: Loc, i: nat)
    requires geo.Wf() && DiskOk(geo, disk) && TreeOk(geo, disk, live, tree, None)
    requires Get(tree, l) != 0 && Sub(l, i).Valid(geo.P())
    ensures tree[l] in disk && !geo.BadBlock(tree[l])
    ensures 4 * i + 4 <= |disk[tree[l]]| && Ptr(disk[tree[l]], i) == Get(tree, Sub(l, i))
  {
    hide Ptr, Volume.Geometry.IsMetadata, Volume.Geometry.GroupsOk;
  }

  lemma FollowRoot(geo: Geometry, disk: map<nat, Bytes>, live: map<nat, Inode>, tree: map<Loc, nat>, ino: nat,
        slot: nat)
    requires geo.Wf() && DiskOk(geo, disk) && TreeOk(geo, disk, live, tree, None)
    requires ino in live && live[ino].HasTree() && slot < N_SLOTS
    ensures |live[ino].ptrs| == N_SLOTS && live[ino].ptrs[slot] == Get(tree, Root(ino, slot))
  {
    hide Ptr, Volume.Geometry.IsMetadata, Volume.Geometry.GroupsOk;
  }

  /** A place that is not a hole has a good block. */
  lemma Present(geo: Geometry, disk: map<nat, Bytes>, live: map<nat, Inode>, tree: map<Loc, nat>, l: Loc)
    requires geo.Wf() && DiskOk(geo, disk) && TreeOk(geo, disk, live, tree, None)
    ensures l in tree <==> Get(tree, l) != 0
    ensures l in tree ==> !geo.BadBlock(tree[l]) && tree[l] in disk && |disk[tree[l]]| == geo.blockSize
  {
    hide EntriesAgree, RootsAgree, Shape, Distinct;
    if l in tree && tree[l] == 0 {
      BlockZero(geo);
    }
  }

  /** Block 0 is never a file's. */
  lemma BlockZero(geo: Geometry)
    requires geo.Wf()
    ensures geo.BadBlock(0)
  {
    if geo.firstDataBlock == 0 {
      assert geo.Metadata(0)[0].Has(0);
      geo.PartIsMetadata(0, 0, 0);
    }
  }

  /** The places along a path to a real place. */
  lemma {:induction false} PathValid(ino: nat, path: MapPath, last: nat, level: nat, p: nat)
    requires level <= last < |path.index| && PathLoc(ino, path, last).Valid(p)
    ensures PathLoc(ino, path, level).Valid(p) && PathLoc(ino, path, level).Ino() == ino
    ensures PathLoc(ino, path, level).Level() == level && PathLoc(ino, path, level).Slot() == path.index[0]
    ensures level < last ==> PathLoc(ino, path, level).Rest() > 0
    ensures path.index[0] < N_SLOTS && (level > 0 ==> path.index[level] < p)
    ensures PathLoc(ino, path, level).Base(p) <= PathLoc(ino, path, last).Base(p)
    ensures PathLoc(ino, path, last).Under(PathLoc(ino, path, level))
  {
    hide Loc.Rest;
    if level < last {
      PartOf(PathLoc(ino, path, last - 1), path.index[last], p);
      PathValid(ino, path, last - 1, level, p);
    } else if level > 0 {
      PathValid(ino, path, last - 1, level - 1, p);
    }
  }

  /** Below a missing block everything is missing. */
  lemma {:induction false} PathBroken(tree: map<Loc, nat>, ino: nat, path: MapPath, level: nat, last: nat, p: nat)
    requires Shape(p, tree) && level <= last < |path.index| && PathLoc(ino, path, level) !in tree
    ensures PathLoc(ino, path, last) !in tree
  {
    if level < last { PathBroken(tree, ino, path, level, last - 1, p); }
  }

  /** The place of logical block `lb`; beyond the block map's reach no place. */
  ghost function BlockAt(geo: Geometry, tree: map<Loc, nat>, ino: nat, lb: nat): Option<nat>
    requires geo.Sane()
  {
    if lb < Reach(geo.P()) && LeafFor(ino, lb, geo.P()) in tree then Some(tree[LeafFor(ino, lb, geo.P())]) else None
  }

  /** The physical block holding logical block `lb` of `inode`; `None` for a hole. */
  method Bmap(fs: Ext2, inode: Inode, lb: nat) returns (r: Result<Option<nat>>)
    requires Mapped(fs) && inode.ino in fs.live && fs.live[inode.ino] == inode && inode.HasTree()
    ensures r == Ok(BlockAt(fs.geo, fs.tree, inode.ino, lb))
  {
    hide Ptr, EntriesAgree, RootsAgree, Distinct, Owned, InodesShaped, Shape, BlockCountsOk, Conserved, Bounded,
         BlocksAgree, LeafFor, Reach, Loc.Valid, Loc.Rest, Volume.Geometry.IsMetadata, Volume.Geometry.GroupsOk;
    var geo := fs.geo;
    var found := FindPath(lb, geo.P());
    if found.None? {
      return Ok(None);
    }
    var path := found.value;
    ghost var ino := inode.ino;
    assert PathLoc(ino, path, path.depth) == LeafFor(ino, lb, geo.P());
    PathValid(ino, path, path.depth, 0, geo.P());
    FollowRoot(geo, fs.disk, fs.live, fs.tree, ino, path.index[0]);
    var ptr := inode.ptrs[path.index[0]];
    for level := 0 to path.depth
      invariant ptr == Get(fs.tree, PathLoc(ino, path, level))
    {
      Present(geo, fs.disk, fs.live, fs.tree, PathLoc(ino, path, level));
      if ptr == 0 {
        PathBroken(fs.tree, ino, path, level, path.depth, geo.P());
        return Ok(None);
      }
      PathValid(ino, path, path.depth, level + 1, geo.P());
      Follow(geo, fs.disk, fs.live, fs.tree, PathLoc(ino, path, level), path.index[level + 1]);
      if geo.BadBlock(ptr) {
        return Err(EIO);
      }
      ptr := Ptr(fs.disk[ptr], path.index[level + 1]);
    }
    Present(geo, fs.disk, fs.live, fs.tree, PathLoc(ino, path, path.depth));
    if ptr == 0 {
      return Ok(None);
    }
    if geo.BadBlock(ptr) {
      return Err(EIO);
    }
    return Ok(Some(ptr));
  }

  // ----- bmap_alloc -----

  /** An inode with the same identity, kind, size and links. */
  predicate SameFile(a: Inode, b: Inode) {
    a.ino == b.ino && a.kind == b.kind && a.size == b.size && a.links == b.links
  }

  /** `disk` after the bitmaps changed for a fresh block: the trees are where they were, and the
      block is in none of them. */
  lemma FreshBlock(geo: Geometry, disk: map<nat, Bytes>, disk': map<nat, Bytes>, live: map<nat, Inode>,
        tree: map<Loc, nat>, at: Loc, b: nat)
    requires geo.Wf() && DiskOk(geo, disk) && TreeOk(geo, disk, live, tree, None) && Conserved(geo, disk, tree)
    requires DiskOk(geo, disk') && OnlyBlockBits(geo, disk, disk') && Used(geo, disk') == Used(geo, disk) + {b}
    requires b !in Used(geo, disk) && !geo.BadBlock(b)
    requires at.Valid(geo.P()) && at !in tree && (at.Sub? ==> at.up in tree)
    requires at.Ino() in live && live[at.Ino()].HasTree()
    ensures CanEnter(geo, disk', live, tree, at, b) && Leaves(disk', tree) == Leaves(disk, tree)
    ensures MetaKept(geo, disk, disk')
    ensures Used(geo, disk') == MetaBlocks(geo) + tree[at := b].Values
  {
    hide Ptr, EntriesAgree, RootsAgree, Distinct, Owned, InodesShaped, Shape, Loc.Valid, Loc.Rest, Used,
         Volume.Geometry.IsMetadata, Volume.Geometry.GroupsOk;
    BlockBitmapsApart(geo);
    TreeFrame(geo, disk, disk', live, tree, None);
    assert tree[at := b].Values == tree.Values + {b} by { ValuesWith(tree, at, b); }
  }

  lemma ValuesWith(tree: map<Loc, nat>, at: Loc, b: nat)
    requires at !in tree
    ensures tree[at := b].Values == tree.Values + {b}
  {
    var tree' := tree[at := b];
    assert tree'[at] == b && at in tree';
    forall c | c in tree.Values
      ensures c in tree'.Values
    {
      var l :| l in tree && tree[l] == c;
      assert l in tree' && tree'[l] == c;
    }
  }

  /** The entry written by `EnterDisk` lies outside the metadata. */
  lemma EnterSpace(geo: Geometry, disk: map<nat, Bytes>, live: map<nat, Inode>, tree: map<Loc, nat>, at: Loc, b: nat)
    requires CanEnter(geo, disk, live, tree, at, b)
    requires b < geo.blocksCount
    requires at.Sub? ==> tree[at.up] in disk && tree[at.up] != b && 4 * at.i + 4 <= geo.blockSize
    ensures var disk' := EnterDisk(disk, tree, at, b, geo.blockSize);
            && DiskOk(geo, disk') && Used(geo, disk') == Used(geo, disk) && MetaKept(geo, disk, disk')
            && forall free, total :: BlockCountsOk(geo, disk, free, total) ==> BlockCountsOk(geo, disk', free, total)
  {
    hide Ptr, EntriesAgree, RootsAgree, Distinct, InodesShaped, Shape, Loc.Valid, Loc.Rest, Used, BlockCountsOk,
         Volume.Geometry.IsMetadata, Volume.Geometry.GroupsOk;
    DataBlock(geo, disk, b, Zeros(geo.blockSize));
    if at.Sub? {
      DataBlock(geo, disk[b := Zeros(geo.blockSize)], tree[at.up], SetPtr(disk[tree[at.up]], at.i, b));
    }
  }

  /** One step of `bmap_alloc`: a fresh zeroed block at the empty place `at`, entered in the
      indirect block `parent` or, at the top, in `i_block`. */
  method EnterBlock(fs: Ext2, inode: Inode, ghost at: Loc, level: nat, parent: nat, index: nat, goal: nat)
    returns (r: Result<nat>, inode': Inode)
    requires Mapped(fs) && inode.ino in fs.live && fs.live[inode.ino] == inode && inode.HasTree()
    requires at.Valid(fs.geo.P()) && at !in fs.tree && at.Ino() == inode.ino
    requires at.Base(fs.geo.P()) < MaxBlocks(fs.geo.blockSize)
    requires at.Sub? ==> at.up in fs.tree && parent == fs.tree[at.up] && index == at.i
    requires level == 0 <==> at.Root?
    requires at.Root? ==> index == at.slot
    requires fs.freeBlocksTotal > 0
    modifies fs`disk, fs`freeBlocks, fs`freeBlocksTotal, fs`live, fs`tree
    ensures Mapped(fs) && r.Ok?
    ensures fs.tree == old(fs.tree)[at := r.value]
    ensures fs.live == old(fs.live)[inode.ino := inode'] && SameFile(inode', inode)
    ensures Leaves(fs.disk, fs.tree) ==
            if at.Leaf() then old(Leaves(fs.disk, fs.tree))[at := Zeros(fs.geo.blockSize)]
            else old(Leaves(fs.disk, fs.tree))
    ensures fs.freeBlocksTotal == old(fs.freeBlocksTotal) - 1
    ensures MetaKept(fs.geo, old(fs.disk), fs.disk)
    ensures Closest(fs.geo, MetaBlocks(fs.geo) + old(fs.tree).Values, Aim(fs.geo, goal), r.value)
  {
    hide Ptr, EntriesAgree, RootsAgree, Distinct, Owned, InodesShaped, Shape, Loc.Rest, Loc.Base,
         FileLimit.MaxBlocks, Bounded, BlocksAgree, Used, Leaves, Volume.Geometry.IsMetadata,
         Volume.Geometry.GroupsOk, Closest, Nearest, Aim;
    var geo := fs.geo;
    r := AllocBlock(fs, goal);
    var block := r.value;
    FreshBlock(geo, old(fs.disk), fs.disk, fs.live, fs.tree, at, block);
    EnterPlace(geo, fs.disk, fs.live, fs.tree, at, block);
    EnterSpace(geo, fs.disk, fs.live, fs.tree, at, block);
    ghost var entered := EnterDisk(fs.disk, fs.tree, at, block, geo.blockSize);
    ghost var before := fs.disk;
    fs.disk := fs.disk[block := Zeros(geo.blockSize)];
    inode' := inode;
    if level == 0 {
      FollowRoot(geo, before, fs.live, fs.tree, inode.ino, index);
      inode' := inode'.(ptrs := inode'.ptrs[index := block]);
    } else {
      fs.disk := fs.disk[parent := SetPtr(fs.disk[parent], index, block)];
    }
    inode' := AddBlocks(inode', geo, 1);
    assert fs.disk == entered;
    EnterOk(geo, before, fs.live, fs.tree, at, block, inode');
    CountMore(geo, fs.live, fs.tree, at, block, inode');
    fs.tree := fs.tree[at := block];
    fs.live := fs.live[inode.ino := inode'];
  }

  /** Where a new block for logical block `lb` should go: after the block before it, or at the
      start of the inode's group. */
  ghost function Goal(geo: Geometry, tree: map<Loc, nat>, ino: nat, lb: nat): nat
    requires geo.Sane() && ino > 0
  {
    if lb > 0 && BlockAt(geo, tree, ino, lb - 1).Some? then BlockAt(geo, tree, ino, lb - 1).value + 1
    else geo.GroupStart(Quot(ino - 1, geo.inodesPerGroup))
  }

  method BlockGoal(fs: Ext2, inode: Inode, lb: nat) returns (goal: nat)
    requires Mapped(fs) && inode.ino in fs.live && fs.live[inode.ino] == inode && inode.HasTree()
    ensures inode.ino > 0 && goal == Goal(fs.geo, fs.tree, inode.ino, lb)
  {
    hide EntriesAgree, RootsAgree, Distinct, Owned, Shape, BlockCountsOk, Conserved, Bounded, BlocksAgree, BlockAt,
         Volume.Geometry.IsMetadata, Volume.Geometry.GroupsOk;
    if lb > 0 {
      var prev := Bmap(fs, inode, lb - 1);
      if prev.value.Some? {
        return prev.value.value + 1;
      }
    }
    return fs.geo.GroupStart(Quot(inode.ino - 1, fs.geo.inodesPerGroup));
  }

  /** How many places are missing on the way to logical block `lb`, itself included. */
  ghost function Missing(tree: map<Loc, nat>, l: Loc): nat {
    if l in tree then 0 else 1 + (if l.Sub? then Missing(tree, l.up) else 0)
  }

  /** At most four places are missing on the way to a block of data. */
  lemma {:induction false} MissingAtMost(tree: map<Loc, nat>, l: Loc, p: nat)
    requires l.Valid(p)
    ensures Missing(tree, l) <= l.Level() + 1 <= 4 - l.Rest()
  {
    if l.Sub? { MissingAtMost(tree, l.up, p); }
  }

  // ----- where new blocks go -----

  /** The blocks in `tree'` at the places on the way to `l` that `tree` does not have. */
  ghost function Added(tree: map<Loc, nat>, tree': map<Loc, nat>, l: Loc): set<nat> {
    if l in tree || l !in tree' then {} else {tree'[l]} + (if l.Sub? then Added(tree, tree', l.up) else {})
  }

  /** The places on the way to `l` that `tree` does not have are in `tree'`, from the top one down: its block
      is the closest to `goal` of those in no tree and not metadata, each next one's the closest to the block
      after the one before. */
  ghost predicate Placed(geo: Geometry, tree: map<Loc, nat>, tree': map<Loc, nat>, l: Loc, goal: nat)
    requires geo.Wf()
  {
    l !in tree ==>
      && l in tree'
      && var used := MetaBlocks(geo) + tree.Values;
      if l.Sub? && l.up !in tree then
        && Placed(geo, tree, tree', l.up, goal)
        && l.up in tree'
        && Closest(geo, used + Added(tree, tree', l.up), Aim(geo, tree'[l.up] + 1), tree'[l])
      else Closest(geo, used, Aim(geo, goal), tree'[l])
  }

  /** A place further down changes nothing above. */
  lemma {:induction false} PlacedKept(geo: Geometry, tree: map<Loc, nat>, a: map<Loc, nat>, at: Loc, b: nat, l: Loc,
        goal: nat)
    requires geo.Wf() && Placed(geo, tree, a, l, goal) && at !in a
    ensures Placed(geo, tree, a[at := b], l, goal)
    ensures l in tree || l in a ==> Added(tree, a[at := b], l) == Added(tree, a, l)
  {
    hide Closest, Aim;
    if l !in tree && l.Sub? && l.up !in tree { PlacedKept(geo, tree, a, at, b, l.up, goal); }
  }

  /** So are the places added, and nothing else. */
  ghost predicate PlacedTo(geo: Geometry, tree: map<Loc, nat>, tree': map<Loc, nat>, l: Loc, goal: nat)
    requires geo.Wf()
  {
    Placed(geo, tree, tree', l, goal) && tree'.Values == tree.Values + Added(tree, tree', l)
  }

  lemma PlacedMore(geo: Geometry, tree: map<Loc, nat>, a: map<Loc, nat>, at: Loc, start: nat, goal: nat, b: nat)
    requires geo.Wf() && at !in a && at !in tree
    requires at.Sub? && at.up !in tree ==>
               PlacedTo(geo, tree, a, at.up, start) && at.up in a && goal == a[at.up] + 1
    requires !(at.Sub? && at.up !in tree) ==> a == tree && goal == start
    requires Closest(geo, MetaBlocks(geo) + a.Values, Aim(geo, goal), b)
    ensures PlacedTo(geo, tree, a[at := b], at, start)
  {
    hide Closest, Aim;
    ValuesMore(a, at, b);
    if at.Sub? && at.up !in tree {
      PlacedKept(geo, tree, a, at, b, at.up, start);
      assert MetaBlocks(geo) + a.Values == MetaBlocks(geo) + tree.Values + Added(tree, a[at := b], at.up);
    } else {
      assert Added(tree, a[at := b], at) == {b};
    }
  }

  lemma ValuesMore(m: map<Loc, nat>, at: Loc, b: nat)
    requires at !in m
    ensures m[at := b].Values == m.Values + {b}
  {
    assert forall l :: l in m ==> m[at := b][l] == m[l];
    assert m[at := b][at] == b;
  }

  /** Down a path as far as it exists: `ptrs[level]` is the pointer at that level, 0 where missing. */
  method WalkPath(fs: Ext2, inode: Inode, path: MapPath) returns (r: Result<nat>, ptrs: seq<nat>)
    requires Mapped(fs) && inode.ino in fs.live && fs.live[inode.ino] == inode && inode.HasTree()
    requires |path.index| == 4 && path.depth <= 3 && PathLoc(inode.ino, path, path.depth).Valid(fs.geo.P())
    ensures r.Ok? && |ptrs| == 4
    ensures r.value <= path.depth
    ensures ptrs[r.value] == Get(fs.tree, PathLoc(inode.ino, path, r.value))
    ensures ptrs[r.value] == 0 || r.value == path.depth
    ensures PathLoc(inode.ino, path, r.value) in fs.tree <==> ptrs[r.value] != 0
    ensures r.value > 0 ==>
              PathLoc(inode.ino, path, r.value - 1) in fs.tree
                  && ptrs[r.value - 1] == fs.tree[PathLoc(inode.ino, path, r.value - 1)]
  {
    hide Ptr, EntriesAgree, RootsAgree, Distinct, Owned, InodesShaped, Shape, BlockCountsOk, Conserved, Bounded,
         BlocksAgree, Loc.Valid, Loc.Rest, Loc.Base, Volume.Geometry.IsMetadata, Volume.Geometry.GroupsOk;
    var geo := fs.geo;
    ghost var ino := inode.ino;
    PathValid(ino, path, path.depth, 0, geo.P());
    FollowRoot(geo, fs.disk, fs.live, fs.tree, ino, path.index[0]);
    ptrs := [inode.ptrs[path.index[0]], 0, 0, 0];
    var level := 0;
    while ptrs[level] != 0 && level < path.depth
      invariant level <= path.depth && |ptrs| == 4
      invariant ptrs[level] == Get(fs.tree, PathLoc(ino, path, level))
      invariant level > 0 ==>
                PathLoc(ino, path, level - 1) in fs.tree && ptrs[level - 1] == fs.tree[PathLoc(ino, path, level - 1)]
      decreases path.depth - level
    {
      Present(geo, fs.disk, fs.live, fs.tree, PathLoc(ino, path, level));
      PathValid(ino, path, path.depth, level + 1, geo.P());
      Follow(geo, fs.disk, fs.live, fs.tree, PathLoc(ino, path, level), path.index[level + 1]);
      if geo.BadBlock(ptrs[level]) {
        return Err(EIO), ptrs;
      }
      ptrs := ptrs[level + 1 := Ptr(fs.disk[ptrs[level]], path.index[level + 1])];
      level := level + 1;
    }
    Present(geo, fs.disk, fs.live, fs.tree, PathLoc(ino, path, level));
    if ptrs[level] != 0 && geo.BadBlock(ptrs[level]) {
      return Err(EIO), ptrs;
    }
    return Ok(level), ptrs;
  }

  /** Fresh blocks for the missing places of a path, from `level` down. */
  method BuildPath(fs: Ext2, inode: Inode, path: MapPath, level: nat, above: nat, start: nat)
    returns (block: nat, inode': Inode)
    requires Mapped(fs) && inode.ino in fs.live && fs.live[inode.ino] == inode && inode.HasTree()
    requires |path.index| == 4 && level <= path.depth <= 3 && PathLoc(inode.ino, path, path.depth).Valid(fs.geo.P())
    requires PathLoc(inode.ino, path, path.depth).Leaf()
    requires PathLoc(inode.ino, path, path.depth).Base(fs.geo.P()) < MaxBlocks(fs.geo.blockSize)
    requires forall k :: level <= k <= path.depth ==> PathLoc(inode.ino, path, k) !in fs.tree
    requires level > 0 ==>
             PathLoc(inode.ino, path, level - 1) in fs.tree && above == fs.tree[PathLoc(inode.ino, path, level - 1)]
    requires path.depth - level + 1 <= fs.freeBlocksTotal
    modifies fs`disk, fs`freeBlocks, fs`freeBlocksTotal, fs`live, fs`tree
    ensures Mapped(fs) && MetaKept(fs.geo, old(fs.disk), fs.disk)
    ensures fs.live == old(fs.live)[inode.ino := inode'] && SameFile(inode', inode)
    ensures var leaf := PathLoc(inode.ino, path, path.depth);
            && leaf in fs.tree && fs.tree[leaf] == block
            && (forall l :: l in old(fs.tree) ==> l in fs.tree && fs.tree[l] == old(fs.tree)[l])
            && (forall l :: l in fs.tree && l !in old(fs.tree) ==> leaf.Under(l))
            && Leaves(fs.disk, fs.tree) == old(Leaves(fs.disk, fs.tree))[leaf := Zeros(fs.geo.blockSize)]
    ensures fs.freeBlocksTotal == old(fs.freeBlocksTotal) - (path.depth - level + 1)
    ensures PlacedTo(fs.geo, old(fs.tree), fs.tree, PathLoc(inode.ino, path, path.depth), start)
  {
    hide Ptr, EntriesAgree, RootsAgree, Distinct, Owned, InodesShaped, Shape, BlockCountsOk, Conserved, Bounded,
         BlocksAgree, Loc.Valid, Loc.Base, FileLimit.MaxBlocks, Volume.Geometry.IsMetadata, Volume.Geometry.GroupsOk,
         Leaves, PlacedTo, Closest, Aim;
    var geo := fs.geo;
    ghost var ino := inode.ino;
    ghost var leaf := PathLoc(ino, path, path.depth);
    inode' := inode;
    block := above;
    var goal: nat := start;
    for l := level to path.depth + 1
      invariant Mapped(fs) && MetaKept(geo, old(fs.disk), fs.disk)
      invariant fs.live == old(fs.live)[ino := inode'] && SameFile(inode', inode)
      invariant fs.freeBlocksTotal == old(fs.freeBlocksTotal) - (l - level)
      invariant forall k :: l <= k <= path.depth ==> PathLoc(ino, path, k) !in fs.tree
      invariant l > 0 ==> PathLoc(ino, path, l - 1) in fs.tree && block == fs.tree[PathLoc(ino, path, l - 1)]
      invariant forall m :: m in old(fs.tree) ==> m in fs.tree && fs.tree[m] == old(fs.tree)[m]
      invariant forall m :: m in fs.tree && m !in old(fs.tree) ==> leaf.Under(m)
      invariant Leaves(fs.disk, fs.tree) ==
                if l <= path.depth then old(Leaves(fs.disk, fs.tree))
                else old(Leaves(fs.disk, fs.tree))[leaf := Zeros(geo.blockSize)]
      invariant goal == if l == level then start else block + 1
      invariant if l == level then fs.tree == old(fs.tree)
                else PlacedTo(geo, old(fs.tree), fs.tree, PathLoc(ino, path, l - 1), start)
    {
      PathValid(ino, path, path.depth, l, geo.P());
      ghost var tree := fs.tree;
      var r;
      r, inode' := EnterBlock(fs, inode', PathLoc(ino, path, l), l, block, path.index[l], goal);
      PlacedMore(geo, old(fs.tree), tree, PathLoc(ino, path, l), start, goal, r.value);
      block := r.value;
      goal := block + 1;
    }
  }

  /** The physical block for logical block `lb` of `inode`, allocating it and the indirect blocks
      leading to it if missing: the whole path, or nothing. */
  method BmapAlloc(fs: Ext2, inode: Inode, lb: nat) returns (r: Result<nat>, inode': Inode)
    requires Mapped(fs) && inode.ino in fs.live && fs.live[inode.ino] == inode && inode.HasTree()
    requires lb < Reach(fs.geo.P()) ==> lb < MaxBlocks(fs.geo.blockSize)
    modifies fs`disk, fs`freeBlocks, fs`freeBlocksTotal, fs`live, fs`tree
    ensures Mapped(fs) && MetaKept(fs.geo, old(fs.disk), fs.disk)
    ensures fs.live == old(fs.live)[inode.ino := inode'] && SameFile(inode', inode)
    ensures r == Err(EFBIG) <==> lb >= Reach(fs.geo.P())
    ensures r == Err(ENOSPC) <==>
              lb < Reach(fs.geo.P()) && old(Missing(fs.tree, LeafFor(inode.ino, lb, fs.geo.P())) > fs.freeBlocksTotal)
    ensures r == Err(ENOSPC) ==> fs.freeBlocksTotal < 4
    ensures old(fs.freeBlocksTotal) <= fs.freeBlocksTotal + 4
    ensures r.Err? ==>
              && r.error in {EFBIG, ENOSPC} && inode' == inode && fs.live == old(fs.live) && fs.tree == old(fs.tree)
              && fs.disk == old(fs.disk) && fs.freeBlocks == old(fs.freeBlocks)
              && fs.freeBlocksTotal == old(fs.freeBlocksTotal)
    // New blocks go as close as can be after the block before, or else to the inode's group.
    ensures r.Ok? ==>
              && inode.ino > 0
              && PlacedTo(fs.geo, old(fs.tree), fs.tree, LeafFor(inode.ino, lb, fs.geo.P()),
                          Goal(fs.geo, old(fs.tree), inode.ino, lb))
    ensures r.Ok? && LeafFor(inode.ino, lb, fs.geo.P()) in old(fs.tree) ==> fs.tree == old(fs.tree)
    ensures r.Ok? ==>
              var leaf := LeafFor(inode.ino, lb, fs.geo.P());
              && leaf in fs.tree && fs.tree[leaf] == r.value
              // No other place of any inode changes: only places above the new one appear.
              && (forall l :: l in old(fs.tree) ==> l in fs.tree && fs.tree[l] == old(fs.tree)[l])
              && (forall l :: l in fs.tree && l !in old(fs.tree) ==> leaf.Under(l))
              && Leaves(fs.disk, fs.tree) == (if leaf in old(fs.tree) then old(Leaves(fs.disk, fs.tree))
                                              else old(Leaves(fs.disk, fs.tree))[leaf := Zeros(fs.geo.blockSize)])
              && fs.freeBlocksTotal == old(fs.freeBlocksTotal - Missing(fs.tree, leaf))
  {
    hide Ptr, EntriesAgree, RootsAgree, Distinct, Owned, InodesShaped, Shape, BlockCountsOk, Conserved, Bounded,
         BlocksAgree, LeafFor, Reach, Loc.Valid, Loc.Base, FileLimit.MaxBlocks, Volume.Geometry.IsMetadata,
         Volume.Geometry.GroupsOk, Leaves, Closest, Aim, Goal;
    var found := FindPath(lb, fs.geo.P());
    if found.None? {
      return Err(EFBIG), inode;
    }
    var path := found.value;
    assert PathLoc(inode.ino, path, path.depth) == LeafFor(inode.ino, lb, fs.geo.P());
    var walked, ptrs := WalkPath(fs, inode, path);
    var level := walked.value;
    InoPositive(fs.live, inode.ino);
    if ptrs[level] != 0 {
      return Ok(ptrs[level]), inode;
    }
    MissingFrom(fs.tree, inode.ino, path, level, path.depth, fs.geo.P());
    if fs.freeBlocksTotal < path.depth - level + 1 {
      return Err(ENOSPC), inode;
    }
    var goal := BlockGoal(fs, inode, lb);
    var block;
    block, inode' := BuildPath(fs, inode, path, level, if level > 0 then ptrs[level - 1] else 0, goal);
    return Ok(block), inode';
  }

  lemma InoPositive(live: map<nat, Inode>, ino: nat)
    requires InodesShaped(live) && ino in live
    ensures ino > 0
  {
  }

  /** From the first missing block of a path on, all are missing. */
  lemma {:induction false} MissingFrom(tree: map<Loc, nat>, ino: nat, path: MapPath, level: nat, last: nat, p: nat)
    requires Shape(p, tree) && level <= last < |path.index|
    requires PathLoc(ino, path, level) !in tree && (level > 0 ==> PathLoc(ino, path, level - 1) in tree)
    ensures forall k :: level <= k <= last ==> PathLoc(ino, path, k) !in tree
    ensures Missing(tree, PathLoc(ino, path, last)) == last - level + 1
  {
    if level < last { MissingFrom(tree, ino, path, level, last - 1, p); }
  }
}

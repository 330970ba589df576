/** Creating and removing files and directories (crates/ext2/src/ops.rs), each against the change
    it makes to the namespace. */
module Ops {
  import opened Wrappers
  import opened Le
  import opened Arith
  import Bitmap
  import opened BlockPath
  import opened FileLimit
  import opened Volume
  import opened Allocator
  import opened Trees
  import opened BlockMap
  import opened Freeing
  import opened FileData
  import opened FileOps
  import Dirent
  import opened Directory
  import opened DirOps
  import opened DirTypes
  import opened Namespace
  import opened NameTree
  import opened InodeAlloc
  import opened InodeUse
  import opened NameOps

  /** The limit on a directory's links, so subdirectories. */
  const LINK_MAX: nat := 32000

  // ----- dir_for_change -----

  /** `path::check_name` */
  function NameError(name: Dirent.Name): (e: Option<Errno>)
    ensures e.None? <==> Dirent.Ordinary(name)
  {
    if name == [] then Some(ENOENT)
    else if name == Dirent.DOT || name == Dirent.DOTDOT || Dirent.SLASH in name || 0 in name then Some(EINVAL)
    else if |name| > 255 then Some(ENAMETOOLONG)
    else None
  }

  /** Why `dir/name` cannot be changed, in the contract's order. */
  function ChangeError(inodes: map<nat, Inode>, readOnly: bool, dir: nat, name: Dirent.Name): Option<Errno> {
    if dir !in inodes || !inodes[dir].InUse() then Some(ENOENT)
    else if readOnly then Some(EROFS)
    else if NameError(name).Some? then NameError(name)
    else if inodes[dir].kind != Directory then Some(ENOTDIR)
    else None
  }

  /** An operation in a directory is refused at once exactly when there is no such directory to change or
      the name is not one. */
  lemma ChangeAllowed(fs: Ext2, at: Place)
    requires VolumeOk(fs)
    ensures ChangeError(fs.inodes, fs.readOnly, at.0, at.1).None? <==>
            !fs.readOnly && at.0 in NamesOn(fs).up && Dirent.Ordinary(at.1)
    ensures at in NamesOn(fs).names ==> at.0 in NamesOn(fs).up
  {
    hide Leaves, NsOf, DirsOk, NsOk, TreeOk, Conserved, Dirent.Ordinary, DirEntries, UpOf;
    NsOfIs(fs.geo, Leaves(fs.disk, fs.tree), fs.live, at.0);
    EntryAt(fs.geo, Leaves(fs.disk, fs.tree), fs.live, NamesOn(fs), at.0, at.1);
    assert (at.0, at.1) == at;
  }

  method DirForChange(fs: Ext2, dir: nat, name: Dirent.Name) returns (r: Result<Inode>)
    requires fs.geo.Sane() && SizesFit(fs.geo, fs.inodes)
    ensures ChangeError(fs.inodes, fs.readOnly, dir, name).Some? ==>
            r == Err(ChangeError(fs.inodes, fs.readOnly, dir, name).value)
    ensures ChangeError(fs.inodes, fs.readOnly, dir, name).None? ==> r == Ok(fs.inodes[dir])
    // On a sound volume it is there exactly when the namespace has it and the name is one to give.
    ensures VolumeOk(fs) ==> (r.Ok? <==> !fs.readOnly && dir in NamesOn(fs).up && Dirent.Ordinary(name))
  {
    if VolumeOk(fs) { ChangeAllowed(fs, (dir, name)); }
    hide VolumeOk, Dirent.Ordinary;
    var got := GetInode(fs, dir);
    if got.Err? {
      return Err(got.error);
    }
    if fs.readOnly {
      return Err(EROFS);
    }
    if NameError(name).Some? {
      return Err(NameError(name).value);
    }
    if got.value.kind != Directory {
      return Err(ENOTDIR);
    }
    return Ok(got.value);
  }

  // ----- make -----

  /** The first block of a new directory. */
  lemma NewDirSound(geo: Geometry, leaves: map<Loc, Bytes>, live: map<nat, Inode>, x: nat, up: nat)
    requires geo.Sane() && x in live && live[x].size == geo.blockSize && 0 < x <= geo.inodesCount
             && 0 < up <= geo.inodesCount
    requires BlockOf(geo, leaves, x, 0) == Dirent.InitDir(geo.blockSize, x, up, geo.filetype)
    ensures DirSound(geo, leaves, live, x)
            && DirEntries(geo, leaves, live, x) == map[Dirent.DOT := x, Dirent.DOTDOT := up]
  {
    hide BlockOf, Records, Dirent.InitDir, Dirent.Sound;
    var block := Dirent.InitDir(geo.blockSize, x, up, geo.filetype);
    var es := [Dirent.Entry(0, x, 12, 1), Dirent.Entry(12, up, geo.blockSize - 12, 2)];
    Dirent.SoundDir(geo.blockSize, x, up, geo.filetype, geo.inodesCount);
    Dirent.InitDirOk(geo.blockSize, x, up, geo.filetype, geo.inodesCount);
    RecordsAre(geo, block, es);
    QuotOf(1, geo.blockSize, 0);
    assert Lb(geo, geo.blockSize) == 1 && Times(1, geo.blockSize) == geo.blockSize;
    assert DirNames(geo, leaves, x, 0) == map[];
    assert DirNames(geo, leaves, x, 1) == NamesIn(geo, leaves, x, 0);
    assert DotsAt(x, up, 0) == Some((x, up));
    SoundAgain(geo, leaves, live, x, up);
  }

  /** The first part of `link_new`: a new directory's first block, or `ENOSPC` with nothing changed. */
  method StartDir(fs: Ext2, inode: Inode, parent: nat) returns (r: Result<()>, inode': Inode)
    requires Mapped(fs) && InsideSize(fs.geo, fs.live, fs.tree) && inode.ino in fs.live && fs.live[inode.ino] == inode
    requires inode == Fresh(inode.ino, true) && 0 < inode.ino <= fs.geo.inodesCount && 0 < parent <= fs.geo.inodesCount
    requires Bare(fs.tree, inode.ino)
    modifies fs`disk, fs`freeBlocks, fs`freeBlocksTotal, fs`live, fs`tree
    ensures Mapped(fs) && MetaKept(fs.geo, old(fs.disk), fs.disk)
    ensures OthersKept(old(Leaves(fs.disk, fs.tree)), Leaves(fs.disk, fs.tree), inode.ino)
    ensures fs.live == old(fs.live)[inode.ino := inode'] && InsideSize(fs.geo, fs.live, fs.tree)
    ensures SameFile(inode', inode.(size := inode'.size))
    ensures forall l :: l in old(fs.tree) ==> l in fs.tree && fs.tree[l] == old(fs.tree)[l]
    ensures forall l :: l in fs.tree && l !in old(fs.tree) ==> l.Ino() == inode.ino
    ensures r.Err? ==> r.error == ENOSPC && inode' == inode
    ensures r.Err? <==> old(fs.freeBlocksTotal) == 0
    ensures fs.freeBlocksTotal == old(fs.freeBlocksTotal) - if r.Ok? then 1 else 0
    ensures r.Ok? ==>
              && inode'.size == fs.geo.blockSize
              && DirSound(fs.geo, Leaves(fs.disk, fs.tree), fs.live, inode.ino)
              && DirEntries(fs.geo, Leaves(fs.disk, fs.tree), fs.live, inode.ino) ==
                 map[Dirent.DOT := inode.ino, Dirent.DOTDOT := parent]
              && DotsTyped(fs.geo, Leaves(fs.disk, fs.tree), inode.ino)
  {
    hide DotsTyped, TreeOk, Conserved, Bounded, BlocksAgree, BlockCountsOk, DirOk, Leaves, MetaKept, OthersKept,
         InsideSize, LeafFor, Reach, FileLimit.MaxBlocks, Records, Missing, DirNames, Lb, Dirent.InitDir;
    var geo := fs.geo;
    ghost var before, live := SpaceOf(fs), fs.live;
    KeptNone(geo, before, inode.ino);
    FirstBlock(geo);
    FirstMissing(geo, fs.tree, inode.ino);
    var got;
    got, inode' := BmapAlloc(fs, inode, 0);
    if got.Err? {
      return Err(got.error), inode';
    }
    var data := Dirent.InitDir(geo.blockSize, inode.ino, parent, geo.filetype);
    ghost var leaf, mid := LeafFor(inode.ino, 0, geo.P()), SpaceOf(fs);
    StoreData(fs, leaf, got.value, data);
    inode' := SetSize(fs, inode', geo.blockSize);
    GrownState(geo, before, mid, SpaceOf(fs), leaf, data);
    FirstInside(geo, live, before.tree, fs.tree, inode');
    BlockSet(geo, Leaves(before.disk, before.tree), inode.ino, 0, data, 0);
    assert fs.live == live[inode.ino := inode'];
    NewDirSound(geo, Leaves(fs.disk, fs.tree), fs.live, inode.ino, parent);
    NewDirTyped(geo, Leaves(fs.disk, fs.tree), inode.ino, parent);
    return Ok(()), inode';
  }

  /** A file without blocks lacks just its first one. */
  lemma FirstMissing(geo: Geometry, tree: map<Loc, nat>, ino: nat)
    requires geo.Sane() && Bare(tree, ino)
    ensures 0 < Reach(geo.P()) && Missing(tree, LeafFor(ino, 0, geo.P())) == 1
  {
    hide LeafFor, Reach;
    FirstBlock(geo);
    var at := Root(ino, 0);
    assert at.Valid(geo.P()) && at.Leaf() && at.Base(geo.P()) == 0;
    LeafIsFor(at, geo.P());
  }

  lemma FirstBlock(geo: Geometry)
    requires geo.Sane()
    ensures 0 < MaxBlocks(geo.blockSize) <= Reach(geo.P())
  {
    MaxBlocksAre();
    LimitReached(geo.blockSize);
  }

  lemma FirstInside(geo: Geometry, live: map<nat, Inode>, tree: map<Loc, nat>, tree': map<Loc, nat>, inode: Inode)
    requires geo.Sane() && InsideSize(geo, live, tree) && inode.ino in live && live[inode.ino].size == 0
             && inode.size == geo.blockSize
    requires 0 < Reach(geo.P()) && forall l :: l in tree' && l !in tree ==> LeafFor(inode.ino, 0, geo.P()).Under(l)
    ensures InsideSize(geo, live[inode.ino := inode], tree')
    ensures forall l :: l in tree' && l !in tree ==> l.Ino() == inode.ino
  {
    hide LeafFor, Reach;
    var leaf := LeafFor(inode.ino, 0, geo.P());
    forall l | l in tree' && l !in tree
      ensures l.Ino() == inode.ino && (l.Leaf() ==> l == leaf)
    {
      UnderSlot(leaf, l);
      if l.Leaf() { LeafAlone(leaf, l, geo.P()); }
    }
  }

  /** `tree'` is `tree` with more places of `ino`. */
  ghost predicate Grown(tree: map<Loc, nat>, tree': map<Loc, nat>, ino: nat) {
    && (forall l :: l in tree ==> l in tree' && tree'[l] == tree[l])
    && (forall l :: l in tree' && l !in tree ==> l.Ino() == ino)
  }

  /** A new inode in hand, not yet entered: everything else is as in `a` and `live`. */
  ghost predicate InHand(fs: Ext2, a: Space, live: map<nat, Inode>, inode: Inode, dir: bool)
    reads fs
  {
    && fs.geo.Sane() && Mapped(fs) && Accounted(fs) && InsideSize(fs.geo, fs.live, fs.tree)
    && inode.ino in live && !live[inode.ino].InUse() && inode.ino >= fs.geo.firstIno
    && live[inode.ino].ino == inode.ino && |live[inode.ino].ptrs| == N_SLOTS
    && fs.live == live[inode.ino := inode] && inode.InUse() && inode.kind == (if dir then Directory else Regular)
    && Bare(a.tree, inode.ino) && Grown(a.tree, fs.tree, inode.ino)
    && OthersKept(Leaves(a.disk, a.tree), Leaves(fs.disk, fs.tree), inode.ino)
  }

  /** What a new inode adds to the namespace before it is entered. */
  ghost function Born(ns: Ns, ino: nat, dir: bool, up: nat): Ns {
    if dir then Ns(ns.kind[ino := Directory], ns.links[ino := 2], ns.up[ino := up], ns.names)
    else Ns(ns.kind[ino := Regular], ns.links[ino := 1], ns.up, ns.names)
  }

  lemma FreshFits(geo: Geometry, live: map<nat, Inode>, inode: Inode)
    requires geo.Sane() && SizesFit(geo, live) && inode.size <= geo.blockSize
    ensures SizesFit(geo, live[inode.ino := inode])
  {
    MaxBlocksAre();
  }

  lemma BareStart(geo: Geometry, live: map<nat, Inode>, tree: map<Loc, nat>, inode: Inode)
    requires geo.Sane() && InsideSize(geo, live, tree) && Bare(tree, inode.ino)
    ensures InsideSize(geo, live[inode.ino := inode], tree) && Grown(tree, tree, inode.ino)
  {
  }

  /** The new inode made whole: a directory gets its first block. */
  method NewNode(fs: Ext2, inode: Inode, dir: bool, parent: nat, ghost a: Space, ghost live: map<nat, Inode>)
    returns (r: Result<()>, inode': Inode)
    requires InHand(fs, a, live, inode, dir) && inode == Fresh(inode.ino, dir) && 0 < inode.ino <= fs.geo.inodesCount
             && 0 < parent <= fs.geo.inodesCount
    requires fs.tree == a.tree && Leaves(fs.disk, fs.tree) == Leaves(a.disk, a.tree)
    requires DirsOk(fs.geo, Leaves(a.disk, a.tree), live) && SizesFit(fs.geo, live)
    modifies fs`disk, fs`freeBlocks, fs`freeBlocksTotal, fs`live, fs`tree
    ensures InHand(fs, a, live, inode', dir) && inode'.ino == inode.ino && (!dir ==> inode' == inode)
    ensures r.Ok? && dir ==> inode'.size == fs.geo.blockSize
    ensures r.Err? ==> r.error == ENOSPC
    ensures r.Err? <==> dir && old(fs.freeBlocksTotal) == 0
    ensures fs.freeBlocksTotal == old(fs.freeBlocksTotal) - if dir && r.Ok? then 1 else 0
    ensures r.Ok? ==>
            Whole(fs) && NamesOn(fs) == Born(NsOf(fs.geo, Leaves(a.disk, a.tree), live), inode.ino, dir, parent)
    ensures r.Ok? ==>
            TypesStep(fs.geo, Leaves(a.disk, a.tree), Leaves(fs.disk, fs.tree), live, fs.live, NewTypes(inode.ino, dir))
  {
    hide TypesStep, DotsTyped, TreeOk, Conserved, Bounded, BlocksAgree, BlockCountsOk, DirOk, Leaves, InsideSize,
         DirNames, DirsOk, NsOf, MetaKept, OthersKept, InodesAgree, FileLimit.MaxBlocks, Lb, SizesFit, Bare, Grown,
         OnlyInode, DirSound, DirEntries;
    var geo := fs.geo;
    ghost var disk := fs.disk;
    inode' := inode;
    r := Ok(());
    if dir {
      r, inode' := StartDir(fs, inode, parent);
      MetaFrame(geo, disk, fs.disk, fs.freeInodes, fs.freeInodesTotal, fs.usedDirs, live[inode.ino := inode]);
      SameUse(geo, fs.disk, fs.freeInodes, fs.freeInodesTotal, fs.usedDirs, live[inode.ino := inode], inode');
      assert fs.live == live[inode.ino := inode'];
      GrownIs(a.tree, fs.tree, inode.ino);
      if r.Ok? {
        NewDirStep(geo, Leaves(a.disk, a.tree), Leaves(fs.disk, fs.tree), live, inode');
        OneInode(Leaves(a.disk, a.tree), Leaves(fs.disk, fs.tree), live, inode');
        DirCame(geo, Leaves(a.disk, a.tree), Leaves(fs.disk, fs.tree), live, fs.live, inode.ino, parent);
      }
    } else {
      FileStep(geo, Leaves(a.disk, a.tree), Leaves(fs.disk, fs.tree), live, inode);
      FileCame(geo, Leaves(a.disk, a.tree), live, inode);
    }
    FreshFits(geo, live, inode');
  }

  lemma GrownIs(tree: map<Loc, nat>, tree': map<Loc, nat>, ino: nat)
    requires forall l :: l in tree ==> l in tree' && tree'[l] == tree[l]
    requires forall l :: l in tree' && l !in tree ==> l.Ino() == ino
    ensures Grown(tree, tree', ino)
  {
  }

  lemma GrownStripped(tree: map<Loc, nat>, mid: map<Loc, nat>, tree': map<Loc, nat>, ino: nat)
    requires Bare(tree, ino) && Grown(tree, mid, ino) && Stripped(mid, tree', ino)
    ensures tree' == tree
  {
  }

  lemma LeavesBack(a: Space, b: Space, c: Space, ino: nat)
    requires OthersKept(Leaves(a.disk, a.tree), Leaves(b.disk, b.tree), ino)
             && OthersKept(Leaves(b.disk, b.tree), Leaves(c.disk, c.tree), ino)
    requires Bare(a.tree, ino) && c.tree == a.tree
    ensures Leaves(c.disk, c.tree) == Leaves(a.disk, a.tree)
  {
    var x, y := Leaves(a.disk, a.tree), Leaves(c.disk, c.tree);
    forall l | l in x
      ensures l in y && y[l] == x[l]
    {
    }
    forall l | l in y
      ensures l in x
    {
    }
  }

  /** The failure path of `make`: what was allocated is freed, and everything is as before. */
  method Undo(fs: Ext2, inode: Inode, dir: bool, ghost a: Space, ghost live: map<nat, Inode>)
    requires InHand(fs, a, live, inode, dir) && inode.ino in fs.inodes && fs.inodes[inode.ino] == live[inode.ino]
    modifies fs`disk, fs`freeBlocks, fs`freeBlocksTotal, fs`live, fs`tree, fs`freeInodes, fs`freeInodesTotal,
             fs`usedDirs
    ensures Mapped(fs) && Accounted(fs) && fs.live == live && fs.tree == a.tree
            && Leaves(fs.disk, fs.tree) == Leaves(a.disk, a.tree)
  {
    hide Conserved, Bounded, BlocksAgree, BlockCountsOk, Leaves, InsideSize, MetaKept, OthersKept, InodesAgree, Bare,
         Grown, Stripped, Shape, Distinct, Owned, RootsAgree, EntriesAgree;
    ghost var mid, now := SpaceOf(fs), fs.live;
    var inode' := FreeAll(fs, inode);
    MetaFrame(fs.geo, mid.disk, fs.disk, fs.freeInodes, fs.freeInodesTotal, fs.usedDirs, now);
    SameUse(fs.geo, fs.disk, fs.freeInodes, fs.freeInodesTotal, fs.usedDirs, now, inode');
    GrownStripped(a.tree, mid.tree, fs.tree, inode.ino);
    LeavesBack(a, mid, SpaceOf(fs), inode.ino);
    ReturnInode(fs, fs.inodes[inode.ino], dir);
    assert fs.live == live;
  }

  // ----- the counts are what the bitmaps say -----

  /** Blocks in use determine the free counts. */
  lemma CountsDetermined(geo: Geometry, disk: map<nat, Bytes>, free: seq<nat>, total: nat, disk': map<nat, Bytes>,
        free': seq<nat>, total': nat)
    requires geo.Wf() && DiskOk(geo, disk) && DiskOk(geo, disk') && Used(geo, disk') == Used(geo, disk)
    requires BlockCountsOk(geo, disk, free, total) && BlockCountsOk(geo, disk', free', total')
    ensures free' == free && total' == total
  {
    hide Bitmap.Test, Bitmap.ClearCount, Volume.Geometry.GroupsOk, Volume.Geometry.IsMetadata;
    forall g: nat | g < geo.groups
      ensures free'[g] == free[g]
    {
      forall i: nat | i < geo.GroupBlocks(g)
        ensures Bitmap.Test(BlockBits(geo, disk', g), i) == Bitmap.Test(BlockBits(geo, disk, g), i)
      {
        geo.BlockAt(g, i);
        var b := geo.GroupStart(g) + i;
        assert b in Used(geo, disk') <==> b in Used(geo, disk);
      }
      Bitmap.CountSame(BlockBits(geo, disk', g), BlockBits(geo, disk, g), geo.GroupBlocks(g));
    }
  }

  /** Inodes in use determine the free counts and the groups' directories. */
  lemma InodesDetermined(geo: Geometry, disk: map<nat, Bytes>, free: seq<nat>, total: nat, dirs: seq<nat>,
        disk': map<nat, Bytes>, free': seq<nat>, total': nat, dirs': seq<nat>, live: map<nat, Inode>)
    requires geo.Wf() && DiskOk(geo, disk) && DiskOk(geo, disk')
    requires InodesAgree(geo, disk, free, total, dirs, live) && InodesAgree(geo, disk', free', total', dirs', live)
    ensures free' == free && total' == total && dirs' == dirs
  {
    hide Bitmap.Test, Bitmap.ClearCount, Volume.Geometry.GroupsOk, Volume.Geometry.IsMetadata, DirsIn, Busy;
    forall g: nat | g < geo.groups
      ensures free'[g] == free[g]
    {
      forall i: nat | i < geo.inodesPerGroup
        ensures Bitmap.Test(InodeBits(geo, disk', g), i) == Bitmap.Test(InodeBits(geo, disk, g), i)
      {
        InodeAt(geo, g, i);
        var x := InodeNumber(geo, g, i);
        assert x in UsedInodes(geo, disk') <==> x in UsedInodes(geo, disk);
      }
      Bitmap.CountSame(InodeBits(geo, disk', g), InodeBits(geo, disk, g), geo.inodesPerGroup);
    }
  }

  /** Everything is as it was: the inodes, the trees and what the data blocks hold, and every count. */
  twostate predicate AsBefore(fs: Ext2)
    reads fs
  {
    && fs.inodes == old(fs.inodes) && fs.live == old(fs.live)
    && fs.tree == old(fs.tree) && Leaves(fs.disk, fs.tree) == old(Leaves(fs.disk, fs.tree))
    && fs.freeBlocks == old(fs.freeBlocks) && fs.freeBlocksTotal == old(fs.freeBlocksTotal)
    && fs.freeInodes == old(fs.freeInodes) && fs.freeInodesTotal == old(fs.freeInodesTotal)
    && fs.usedDirs == old(fs.usedDirs)
  }

  lemma MadeIs(ns: Ns, at: Place, ino: nat, dir: bool)
    requires NsOk(ns) && at.0 in ns.up && ino !in ns.kind
    ensures at.0 in ns.links && at.0 != ino
    ensures var b := Born(ns, ino, dir, at.0).(names := ns.names[at := ino]);
            Made(ns, at, ino, dir) == if dir then b.(links := b.links[at.0 := ns.links[at.0] + 1]) else b
  {
    hide DirsOnce, TreeUp, DirLinks, FileLinks;
  }

  lemma OldShape(geo: Geometry, disk: map<nat, Bytes>, live: map<nat, Inode>, tree: map<Loc, nat>, x: nat)
    requires geo.Wf() && DiskOk(geo, disk) && TreeOk(geo, disk, live, tree, None) && x in live
    ensures live[x].ino == x && |live[x].ptrs| == N_SLOTS
  {
  }

  lemma NodeGone(geo: Geometry, leaves: map<Loc, Bytes>, live: map<nat, Inode>, x: nat)
    requires geo.Sane() && x in live && !live[x].InUse()
    ensures x !in NsOf(geo, leaves, live).kind
  {
  }

  lemma BornNames(ns: Ns, ino: nat, dir: bool, up: nat)
    ensures Born(ns, ino, dir, up).names == ns.names
  {
  }

  lemma UsedSame(geo: Geometry, disk: map<nat, Bytes>, disk': map<nat, Bytes>, tree: map<Loc, nat>)
    requires geo.Wf() && DiskOk(geo, disk) && DiskOk(geo, disk') && Conserved(geo, disk, tree)
             && Conserved(geo, disk', tree)
    ensures Used(geo, disk') == Used(geo, disk)
  {
  }

  lemma KeptTwo(a: map<Loc, Bytes>, b: map<Loc, Bytes>, c: map<Loc, Bytes>, i: nat, j: nat)
    requires OthersKept(a, b, i) && OthersKept(b, c, j)
    ensures KeptBut(a, c, {j, i})
  {
  }

  /** No space to create a name of `n` bytes in directory `d`: no inode number left, no block for a new
      directory's first, or, that one taken, no place for the name. */
  ghost predicate NoSpace(geo: Geometry, a: Space, d: Inode, n: nat, isDir: bool, freeInodes: nat)
    requires geo.Sane()
  {
    freeInodes == 0 || CannotLink(geo, a, d, n, isDir)
  }

  ghost predicate CannotLink(geo: Geometry, a: Space, d: Inode, n: nat, isDir: bool)
    requires geo.Sane()
  {
    || (isDir && a.free == 0)
    || NoPlace(geo, Leaves(a.disk, a.tree), a.tree, d.ino, d.size, n, if isDir then a.free - 1 else a.free)
  }

  lemma {:induction false} MissingSame(a: map<Loc, nat>, b: map<Loc, nat>, l: Loc)
    requires forall m: Loc :: m.Ino() == l.Ino() ==> (m in a <==> m in b)
    ensures Missing(a, l) == Missing(b, l)
  {
    if l.Sub? { MissingSame(a, b, l.up); }
  }

  /** A directory has a place for a name or not whatever happens to another file. */
  lemma PlaceSame(geo: Geometry, a: Space, b: Space, d: nat, size: nat, n: nat, free: nat, other: nat)
    requires geo.Sane() && other != d && Grown(a.tree, b.tree, other)
    requires OthersKept(Leaves(a.disk, a.tree), Leaves(b.disk, b.tree), other)
    ensures NoPlace(geo, Leaves(a.disk, a.tree), a.tree, d, size, n, free) ==
            NoPlace(geo, Leaves(b.disk, b.tree), b.tree, d, size, n, free)
  {
    hide Leaves, BlockFull, LeafFor, Reach, Missing, Lb;
    forall lb: nat ensures BlockOf(geo, Leaves(b.disk, b.tree), d, lb) == BlockOf(geo, Leaves(a.disk, a.tree), d, lb) {
    }
    if Lb(geo, size) < Reach(geo.P()) {
      MissingSame(a.tree, b.tree, LeafFor(d, Lb(geo, size), geo.P()));
    }
  }

  /** `link_new`: the new inode made whole and entered in `dir`; until it is, nothing else changes. */
  method LinkNew(fs: Ext2, inode: Inode, dir: Inode, name: Dirent.Name, isDir: bool, ghost a: Space,
        ghost live: map<nat, Inode>) returns (r: Result<()>, inode': Inode, dir': Inode)
    requires InHand(fs, a, live, inode, isDir) && inode == Fresh(inode.ino, isDir)
             && 0 < inode.ino <= fs.geo.inodesCount
    requires fs.tree == a.tree && Leaves(fs.disk, fs.tree) == Leaves(a.disk, a.tree)
    requires DirsOk(fs.geo, Leaves(a.disk, a.tree), live) && SizesFit(fs.geo, live)
    requires IsDir(live, dir.ino) && live[dir.ino] == dir && 0 < dir.ino <= fs.geo.inodesCount && Dirent.Ordinary(name)
    requires (dir.ino, name) !in NsOf(fs.geo, Leaves(a.disk, a.tree), live).names && a.free == fs.freeBlocksTotal
    modifies fs`disk, fs`freeBlocks, fs`freeBlocksTotal, fs`live, fs`tree
    ensures inode'.ino == inode.ino && dir'.ino == dir.ino
    ensures r.Err? ==> r.error == ENOSPC && InHand(fs, a, live, inode', isDir) && dir' == dir
    ensures r.Err? <==> CannotLink(fs.geo, a, dir, |name|, isDir)
    ensures old(fs.freeBlocksTotal) <= fs.freeBlocksTotal + 5
    ensures r.Ok? ==>
              && Whole(fs) && IsDir(fs.live, dir.ino) && dir'.links == dir.links && dir'.kind == Directory
              && inode'.InUse()
              && dir.size <= dir'.size <= dir.size + fs.geo.blockSize
              && fs.live == live[inode.ino := inode'][dir.ino := dir']
              && inode'.size == (if isDir then fs.geo.blockSize else 0)
              && NamesOn(fs) == Born(NsOf(fs.geo, Leaves(a.disk, a.tree), live), inode.ino, isDir, dir.ino).(names :=
                 NsOf(fs.geo, Leaves(a.disk, a.tree), live).names[(dir.ino, name) := inode.ino])
              && KeptBut(Leaves(a.disk, a.tree), Leaves(fs.disk, fs.tree), {dir.ino, inode.ino})
              && TypesStep(fs.geo, Leaves(a.disk, a.tree), Leaves(fs.disk, fs.tree), live, fs.live,
                 MadeTypes((dir.ino, name), inode.ino, isDir))
  {
    hide TypesStep, NewTypes, NoPlace, TreeOk, Bounded, BlocksAgree, BlockCountsOk, DirOk, Leaves, InsideSize,
         DirNames, DirsOk, NsOf, MetaKept, OthersKept, InodesAgree, FileLimit.MaxBlocks, Lb, SizesFit, Bare, Grown,
         OnlyInode, DirSound, DirEntries, NsOk, Conserved, KeptBut, FilesSame, Dirent.Ordinary, Dirent.Dotted, Made,
         Born, Used;
    dir' := dir;
    r, inode' := NewNode(fs, inode, isDir, dir.ino, a, live);
    if r.Err? {
      return;
    }
    ghost var mid, now := SpaceOf(fs), fs.live;
    PlaceSame(fs.geo, a, mid, dir.ino, dir.size, |name|, mid.free, inode.ino);
    BornNames(NsOf(fs.geo, Leaves(a.disk, a.tree), live), inode.ino, isDir, dir.ino);
    r, dir' := Enter(fs, dir, name, inode.ino, KindOf(isDir));
    if r.Ok? {
      StepPut(fs.geo, Leaves(a.disk, a.tree), Leaves(mid.disk, mid.tree), Leaves(fs.disk, fs.tree), live, now, fs.live,
          NewTypes(inode.ino, isDir), (dir.ino, name), KindOf(isDir));
      KeptTwo(Leaves(a.disk, a.tree), Leaves(mid.disk, mid.tree), Leaves(fs.disk, fs.tree), inode.ino, dir.ino);
    }
  }

  /** The new inode allocated and entered, or nothing changed. Neither it nor `dir` is stored yet. */
  method TakeAndLink(fs: Ext2, dir: Inode, name: Dirent.Name, isDir: bool) returns (r: Result<Inode>, dir': Inode)
    requires VolumeOk(fs) && IsDir(fs.live, dir.ino) && fs.live[dir.ino] == dir && Dirent.Ordinary(name)
    requires (dir.ino, name) !in NamesOn(fs).names
    modifies fs`disk, fs`freeBlocks, fs`freeBlocksTotal, fs`live, fs`tree, fs`freeInodes, fs`freeInodesTotal,
             fs`usedDirs
    ensures r.Err? ==>
            r.error == ENOSPC && dir' == dir && VolumeOk(fs) && AsBefore(fs) && NamesOn(fs) == old(NamesOn(fs))
    ensures r.Err? <==> NoSpace(fs.geo, old(SpaceOf(fs)), dir, |name|, isDir, old(fs.freeInodesTotal))
    ensures old(fs.freeBlocksTotal) <= fs.freeBlocksTotal + 5
    ensures r.Ok? ==>
              && Whole(fs) && IsDir(fs.live, dir.ino) && dir'.ino == dir.ino && dir'.links == dir.links
              && dir'.kind == Directory
              && dir.size <= dir'.size <= dir.size + fs.geo.blockSize
              && r.value.ino >= fs.geo.firstIno && r.value.ino in old(fs.live) && !old(fs.live)[r.value.ino].InUse()
              && r.value.InUse() && dir.ino > 0
              && Picked(fs.geo, Busy(fs.geo, old(fs.live)), old(fs.freeInodes), dir.ino, isDir, r.value.ino)
              && fs.live == old(fs.live)[r.value.ino := r.value][dir.ino := dir']
              && r.value.size == (if isDir then fs.geo.blockSize else 0)
              && NamesOn(fs) == Born(old(NamesOn(fs)), r.value.ino, isDir, dir.ino).(names :=
                 old(NamesOn(fs)).names[(dir.ino, name) := r.value.ino])
              && KeptBut(old(Leaves(fs.disk, fs.tree)), Leaves(fs.disk, fs.tree), {dir.ino, r.value.ino})
              && Retyped(fs, MadeTypes((dir.ino, name), r.value.ino, isDir))
  {
    hide TypesStep, MadeTypes, NoPlace, CannotLink, TreeOk, Bounded, BlocksAgree, BlockCountsOk, DirOk, Leaves,
         InsideSize, DirNames, DirsOk, NsOf, MetaKept, OthersKept, InodesAgree, FileLimit.MaxBlocks, Lb, SizesFit,
         Bare, Grown, OnlyInode, DirSound, DirEntries, NsOk, Conserved, KeptBut, FilesSame, Dirent.Ordinary,
         Dirent.Dotted, Made, Born, Used, Picked, Busy;
    var geo := fs.geo;
    ghost var a, live := SpaceOf(fs), fs.live;
    DirHere(fs, dir);
    dir' := dir;
    r := TakeInode(fs, dir.ino, isDir);
    if r.Err? {
      return;
    }
    var inode := r.value;
    BareStart(geo, live, a.tree, inode);
    OthersSame(Leaves(a.disk, a.tree), inode.ino);
    OldShape(geo, a.disk, live, a.tree, inode.ino);
    var linked;
    linked, inode, dir' := LinkNew(fs, inode, dir, name, isDir, a, live);
    if linked.Err? {
      Undo(fs, inode, isDir, a, live);
      UsedSame(geo, a.disk, fs.disk, a.tree);
      CountsDetermined(geo, a.disk, old(fs.freeBlocks), old(fs.freeBlocksTotal), fs.disk, fs.freeBlocks,
          fs.freeBlocksTotal);
      InodesDetermined(geo, a.disk, old(fs.freeInodes), old(fs.freeInodesTotal), old(fs.usedDirs), fs.disk,
          fs.freeInodes, fs.freeInodesTotal, fs.usedDirs, live);
      return Err(linked.error), dir;
    }
    return Ok(inode), dir';
  }

  lemma FilesMade(a: map<Loc, Bytes>, b: map<Loc, Bytes>, live: map<nat, Inode>, inode: Inode, dir: Inode)
    requires KeptBut(a, b, {dir.ino, inode.ino}) && dir.kind == Directory
    ensures FilesSame(a, b, live, live[inode.ino := inode][dir.ino := dir], {inode.ino})
  {
  }

  /** The part of `make` after its checks. */
  method MakeIn(fs: Ext2, dir: Inode, name: Dirent.Name, isDir: bool) returns (r: Result<nat>)
    requires VolumeOk(fs) && IsDir(fs.live, dir.ino) && fs.live[dir.ino] == dir && Dirent.Ordinary(name)
    requires (dir.ino, name) !in NamesOn(fs).names
    modifies fs`disk, fs`freeBlocks, fs`freeBlocksTotal, fs`live, fs`tree, fs`inodes, fs`freeInodes,
             fs`freeInodesTotal, fs`usedDirs
    ensures VolumeOk(fs)
    ensures r.Ok? ==>
              && r.value >= fs.geo.firstIno && r.value !in old(NamesOn(fs)).kind
              && NamesOn(fs) == Made(old(NamesOn(fs)), (dir.ino, name), r.value, isDir)
              && FilesSame(old(Leaves(fs.disk, fs.tree)), Leaves(fs.disk, fs.tree), old(fs.live), fs.live, {r.value})
              && r.value in fs.live && fs.live[r.value].size == (if isDir then fs.geo.blockSize else 0)
              && dir.ino > 0
              && Picked(fs.geo, Busy(fs.geo, old(fs.live)), old(fs.freeInodes), dir.ino, isDir, r.value)
              && Retyped(fs, MadeTypes((dir.ino, name), r.value, isDir))
    ensures old(TypesOn(fs)) ==> TypesOn(fs)
    ensures r.Err? ==> r.error == ENOSPC && AsBefore(fs) && NamesOn(fs) == old(NamesOn(fs))
    ensures r.Err? <==> NoSpace(fs.geo, old(SpaceOf(fs)), dir, |name|, isDir, old(fs.freeInodesTotal))
    ensures old(fs.freeBlocksTotal) <= fs.freeBlocksTotal + 5
    ensures Steady(fs.geo, old(fs.live), fs.live, fs.geo.blockSize)
  {
    hide TypesStep, TypesOk, MadeTypes, PutsFit, Steady, NoPlace, CannotLink, TreeOk, Bounded, BlocksAgree,
         BlockCountsOk, DirOk, Leaves, InsideSize, DirNames, DirsOk, NsOf, MetaKept, OthersKept, InodesAgree,
         FileLimit.MaxBlocks, Lb, SizesFit, Bare, Grown, OnlyInode, DirSound, DirEntries, NsOk, Conserved, KeptBut,
         FilesSame, Dirent.Ordinary, Dirent.Dotted, Made, Born, Used, Volume.Geometry.GroupsOk, Volume.Geometry.Sane,
         DiskOk, Nodes, UpIn, Picked, Busy;
    ghost var a, live, ns := SpaceOf(fs), fs.live, NamesOn(fs);
    DirHere(fs, dir);
    InodeHere(fs, dir.ino);
    var linked, parent := TakeAndLink(fs, dir, name, isDir);
    SteadySelf(fs.geo, live, fs.geo.blockSize);
    if linked.Err? {
      return Err(linked.error);
    }
    var inode := linked.value;
    NodeGone(fs.geo, Leaves(a.disk, a.tree), live, inode.ino);
    MadeIs(ns, (dir.ino, name), inode.ino, isDir);
    MadeOk(ns, (dir.ino, name), inode.ino, isDir);
    fs.inodes := fs.inodes[inode.ino := inode];
    ghost var mid, now, put := SpaceOf(fs), fs.live, MadeTypes((dir.ino, name), inode.ino, isDir);
    if isDir {
      parent := SetLinks(fs, parent, parent.links + 1);
      StepNone(fs.geo, Leaves(a.disk, a.tree), Leaves(mid.disk, mid.tree), Leaves(fs.disk, fs.tree), live, now, fs.live,
          put);
    }
    fs.inodes := fs.inodes[parent.ino := parent];
    FilesMade(Leaves(a.disk, a.tree), Leaves(fs.disk, fs.tree), live, inode, parent);
    SteadyTwo(fs.geo, live, inode, parent, fs.geo.blockSize);
    if old(TypesOn(fs)) {
      OrdinaryName(name);
      MadeFits(ns, (dir.ino, name), inode.ino, isDir);
      TypesFollow(fs.geo, Leaves(a.disk, a.tree), Leaves(fs.disk, fs.tree), live, fs.live, put);
    }
    return Ok(inode.ino);
  }

  /** Creates `dir/name`, a regular file or a directory. */
  method Make(fs: Ext2, dir: nat, name: Dirent.Name, isDir: bool) returns (r: Result<nat>)
    requires VolumeOk(fs)
    modifies fs`disk, fs`freeBlocks, fs`freeBlocksTotal, fs`live, fs`tree, fs`inodes, fs`freeInodes,
             fs`freeInodesTotal, fs`usedDirs
    ensures VolumeOk(fs)
    ensures var e := old(ChangeError(fs.inodes, fs.readOnly, dir, name));
            && (e.Some? ==> r == Err(e.value))
            && (e.None? ==>
                  if (dir, name) in old(NamesOn(fs)).names then r == Err(EEXIST)
                  else if isDir && old(fs.inodes)[dir].links >= LINK_MAX then r == Err(ENOSPC)
                  else if NoSpace(fs.geo, old(SpaceOf(fs)), old(fs.inodes)[dir], |name|, isDir, old(fs.freeInodesTotal))
                  then r == Err(ENOSPC)
                  else r.Ok?)
    ensures old(fs.freeBlocksTotal) <= fs.freeBlocksTotal + 5
    ensures Steady(fs.geo, old(fs.live), fs.live, fs.geo.blockSize)
    ensures r.Ok? ==>
              && r.value >= fs.geo.firstIno && r.value !in old(NamesOn(fs)).kind
              && NamesOn(fs) == Made(old(NamesOn(fs)), (dir, name), r.value, isDir)
              && FilesSame(old(Leaves(fs.disk, fs.tree)), Leaves(fs.disk, fs.tree), old(fs.live), fs.live, {r.value})
              && r.value in fs.live && (if isDir then fs.live[r.value].size == fs.geo.blockSize
                 else Data(fs, r.value) == [])
              // The number is the first unused one: of the emptiest group for a directory, else of the parent's.
              && dir > 0 && Picked(fs.geo, Busy(fs.geo, old(fs.live)), old(fs.freeInodes), dir, isDir, r.value)
              && Retyped(fs, MadeTypes((dir, name), r.value, isDir))
    ensures old(TypesOn(fs)) ==> TypesOn(fs)
    // A failure leaves everything as it was.
    ensures r.Err? ==> AsBefore(fs) && NamesOn(fs) == old(NamesOn(fs))
  {
    hide TypesStep, TypesOk, MadeTypes, Steady, NoPlace, CannotLink, TreeOk, Bounded, BlocksAgree, BlockCountsOk,
         DirOk, Leaves, InsideSize, DirNames, DirsOk, NsOf, MetaKept, OthersKept, InodesAgree, FileLimit.MaxBlocks,
         Lb, SizesFit, Bare, Grown, OnlyInode, DirSound, DirEntries, NsOk, Conserved, KeptBut, FilesSame,
         Dirent.Ordinary, Dirent.Dotted, Picked, Busy;
    var geo := fs.geo;
    ghost var a, live, ns := SpaceOf(fs), fs.live, NamesOn(fs);
    SteadySelf(geo, live, geo.blockSize);
    var got := DirForChange(fs, dir, name);
    if got.Err? {
      return Err(got.error);
    }
    var parent := got.value;
    InoIs(geo, fs.disk, fs.live, fs.tree, dir);
    DirHere(fs, parent);
    OrdinaryName(name);
    EntriesHere(fs, parent, name);
    var found, lb, k := FindEntry(fs, parent, name, UpIn(fs, dir));
    if found.value.Some? {
      return Err(EEXIST);
    }
    if isDir && parent.links >= LINK_MAX {
      return Err(ENOSPC);
    }
    r := MakeIn(fs, parent, name, isDir);
  }

  // ----- entry_inode, check_parent -----

  /** An entry of the namespace names an inode in use, never a reserved one. */
  lemma Target(fs: Ext2, at: Place)
    requires VolumeOk(fs) && at in NamesOn(fs).names
    ensures var x := NamesOn(fs).names[at];
            && x in fs.live && fs.live[x].InUse() && fs.live[x].ino == x
            && fs.geo.firstIno <= x <= fs.geo.inodesCount && Visible(fs.geo, x)
            && fs.live[x].size <= MaxFileSize(fs.geo.blockSize)
            && x in NamesOn(fs).links && NamesOn(fs).links[x] == fs.live[x].links
            && (x in NamesOn(fs).up <==> fs.live[x].kind == Directory)
    ensures IsDir(fs.live, at.0) && fs.live[at.0].ino == at.0 && at.0 in NamesOn(fs).links
            && NamesOn(fs).links[at.0] == fs.live[at.0].links
  {
    hide Conserved, Bounded, BlocksAgree, BlockCountsOk, DirOk, Leaves, InsideSize, DirNames, DirsOk, NsOf,
         FileLimit.MaxBlocks, Shape, Distinct, Owned, RootsAgree, EntriesAgree, Naming, DirLinks, FileLinks,
         UsedInodes, Busy, DirsIn, InodeCountsOk;
    InodeHere(fs, NamesOn(fs).names[at]);
    InodeHere(fs, at.0);
  }

  /** The inode a directory entry names. */
  method EntryInode(fs: Ext2, found: Found) returns (r: Result<Inode>)
    requires fs.geo.Sane() && found.entry.inode in fs.inodes && fs.inodes[found.entry.inode].InUse()
    requires fs.inodes[found.entry.inode].size <= MaxFileSize(fs.geo.blockSize)
    ensures r == Ok(fs.inodes[found.entry.inode])
  {
    hide FileLimit.MaxBlocks;
    var got := GetInode(fs, found.entry.inode);
    if got == Err(ENOENT) {
      return Err(EIO);
    }
    return got;
  }

  /** Whether the `..` of directory `dir` names `parent`. */
  method CheckParent(fs: Ext2, dir: Inode, parent: nat) returns (r: Result<()>)
    requires Whole(fs) && IsDir(fs.live, dir.ino) && fs.live[dir.ino] == dir
    ensures r == if UpIn(fs, dir.ino) == parent then Ok(()) else Err(EIO)
  {
    hide TreeOk, Bounded, BlocksAgree, BlockCountsOk, DirOk, Leaves, InsideSize, DirNames, DirsOk, NsOf, MetaKept,
         OthersKept, InodesAgree, FileLimit.MaxBlocks, Lb, SizesFit, DirSound, DirEntries, NsOk, Conserved, KeptBut,
         FilesSame, Dirent.Ordinary, Dirent.Dotted;
    DirHere(fs, dir);
    var found, lb, k := FindEntry(fs, dir, Dirent.DOTDOT, UpIn(fs, dir.ino));
    if found.value.Some? && found.value.value.entry.inode == parent {
      return Ok(());
    }
    return Err(EIO);
  }

  // ----- drop_link, remove_file -----

  /** Drops one link of a non-directory, freeing it with the last. (The freed inode's count is set
      to 0 by `ReleaseInode`; while its blocks are being freed they still are the inode's.) */
  method DropLink(fs: Ext2, inode: Inode)
    requires Whole(fs) && inode.ino in fs.live && fs.live[inode.ino] == inode && inode.InUse()
             && inode.ino >= fs.geo.firstIno && inode.kind != Directory
    modifies fs`disk, fs`freeBlocks, fs`freeBlocksTotal, fs`live, fs`tree, fs`inodes, fs`freeInodes,
             fs`freeInodesTotal, fs`usedDirs
    ensures Whole(fs) && inode.ino in fs.live
    ensures fs.live == old(fs.live)[inode.ino := fs.live[inode.ino]]
            && fs.inodes == old(fs.inodes)[inode.ino := fs.live[inode.ino]]
    ensures var ns := old(NamesOn(fs));
            NamesOn(fs) == if inode.links <= 1 then Ns(ns.kind - {inode.ino}, ns.links - {inode.ino},
                ns.up - {inode.ino}, ns.names)
                           else ns.(links := ns.links[inode.ino := inode.links - 1])
    ensures OthersKept(old(Leaves(fs.disk, fs.tree)), Leaves(fs.disk, fs.tree), inode.ino)
    ensures FilesSame(old(Leaves(fs.disk, fs.tree)), Leaves(fs.disk, fs.tree), old(fs.live), fs.live, {})
    ensures fs.freeBlocksTotal >= old(fs.freeBlocksTotal)
    ensures Steady(fs.geo, old(fs.live), fs.live, 0)
    ensures Retyped(fs, map[]) && !IsDir(fs.live, inode.ino)
  {
    hide TypesStep, Steady, TreeOk, Bounded, BlocksAgree, BlockCountsOk, DirOk, Leaves, InsideSize, DirNames, DirsOk,
         NsOf, MetaKept, OthersKept, InodesAgree, FileLimit.MaxBlocks, Lb, SizesFit, DirSound, DirEntries, NsOk,
         Conserved, KeptBut, FilesSame, Dirent.Ordinary, Dirent.Dotted;
    ghost var before, live := SpaceOf(fs), fs.live;
    InoIs(fs.geo, fs.disk, fs.live, fs.tree, inode.ino);
    if inode.links <= 1 {
      ReleaseInode(fs, inode);
      InoIs(fs.geo, fs.disk, fs.live, fs.tree, inode.ino);
      FilesApart(Leaves(before.disk, before.tree), Leaves(fs.disk, fs.tree), live, fs.live[inode.ino]);
      SteadyOne(fs.geo, live, fs.live[inode.ino], 0);
    } else {
      OthersSame(Leaves(fs.disk, fs.tree), inode.ino);
      var inode' := SetLinks(fs, inode, inode.links - 1);
      fs.inodes := fs.inodes[inode.ino := inode'];
      FilesRelinked(Leaves(before.disk, before.tree), live, inode');
      SteadyOne(fs.geo, live, inode', 0);
    }
  }

  /** Everything, down to the contents of every block, is as it was. */
  twostate predicate Untouched(fs: Ext2)
    reads fs
  {
    && fs.inodes == old(fs.inodes) && fs.live == old(fs.live) && fs.tree == old(fs.tree) && fs.disk == old(fs.disk)
    && fs.freeBlocks == old(fs.freeBlocks) && fs.freeBlocksTotal == old(fs.freeBlocksTotal)
    && fs.freeInodes == old(fs.freeInodes) && fs.freeInodesTotal == old(fs.freeInodesTotal)
    && fs.usedDirs == old(fs.usedDirs)
  }

  /** What `remove_file` and `remove_dir` look up first: the directory, the entry and its inode. */
  method LookUp(fs: Ext2, dir: nat, name: Dirent.Name)
    returns (r: Result<(Inode, Found, Inode)>, ghost lb: nat, ghost k: nat)
    requires VolumeOk(fs)
    ensures var e, ns, at := ChangeError(fs.inodes, fs.readOnly, dir, name), NamesOn(fs), (dir, name);
            && (e.Some? ==> r == Err(e.value))
            && (e.None? && at !in ns.names ==> r == Err(ENOENT))
            && (e.None? && at in ns.names ==>
                  && r.Ok? && IsDir(fs.live, dir) && r.value.0.ino == dir && r.value.0 == fs.live[dir]
                  && FoundAt(fs, r.value.0, r.value.1, lb, k, name)
                  && ns.names[at] in fs.live && r.value.2 == fs.live[ns.names[at]])
            && (e.None? ==> !Dirent.Dotted(name))
  {
    hide TreeOk, Bounded, BlocksAgree, BlockCountsOk, DirOk, Leaves, InsideSize, DirNames, DirsOk, NsOf, MetaKept,
         OthersKept, InodesAgree, FileLimit.MaxBlocks, Lb, SizesFit, DirSound, DirEntries, NsOk, Conserved, KeptBut,
         FilesSame, Dirent.Ordinary, Dirent.Dotted;
    lb, k := 0, 0;
    var got := DirForChange(fs, dir, name);
    if got.Err? {
      r := Err(got.error);
      return;
    }
    var parent := got.value;
    InoIs(fs.geo, fs.disk, fs.live, fs.tree, dir);
    DirHere(fs, parent);
    OrdinaryName(name);
    EntriesHere(fs, parent, name);
    var found;
    found, lb, k := FindEntry(fs, parent, name, UpIn(fs, dir));
    if found.value.None? {
      r := Err(ENOENT);
      return;
    }
    Target(fs, (dir, name));
    var entry := EntryInode(fs, found.value.value);
    r := Ok((parent, found.value.value, entry.value));
  }

  /** Removes the file `dir/name`. */
  method RemoveFile(fs: Ext2, dir: nat, name: Dirent.Name) returns (r: Result<()>)
    requires VolumeOk(fs)
    modifies fs`disk, fs`freeBlocks, fs`freeBlocksTotal, fs`live, fs`tree, fs`inodes, fs`freeInodes,
             fs`freeInodesTotal, fs`usedDirs
    ensures VolumeOk(fs)
    ensures var e, ns, at := old(ChangeError(fs.inodes, fs.readOnly, dir, name)), old(NamesOn(fs)), (dir, name);
            && r == (if e.Some? then Err(e.value) else if at !in ns.names then Err(ENOENT)
                     else if ns.names[at] in ns.up then Err(EISDIR) else Ok(()))
            && (r.Ok? ==> at in ns.names && NamesOn(fs) == Unlinked(ns, at))
    ensures FilesSame(old(Leaves(fs.disk, fs.tree)), Leaves(fs.disk, fs.tree), old(fs.live), fs.live, {})
    ensures fs.freeBlocksTotal >= old(fs.freeBlocksTotal)
    ensures Steady(fs.geo, old(fs.live), fs.live, 0)
    ensures Retyped(fs, map[]) && (old(TypesOn(fs)) ==> TypesOn(fs))
    ensures r.Err? ==> Untouched(fs)
  {
    hide TypesStep, TypesOk, PutsFit, Steady, TreeOk, Bounded, BlocksAgree, BlockCountsOk, DirOk, Leaves, InsideSize,
         DirNames, DirsOk, NsOf, MetaKept, OthersKept, InodesAgree, FileLimit.MaxBlocks, Lb, SizesFit, DirSound,
         DirEntries, NsOk, Conserved, KeptBut, FilesSame, Unlinked, FoundAt, NamesOf, Dirent.Ordinary, Dirent.Dotted;
    FilesSelf(Leaves(fs.disk, fs.tree), fs.live);
    SelfStep(fs.geo, Leaves(fs.disk, fs.tree), fs.live);
    SteadySelf(fs.geo, fs.live, 0);
    var looked, lb, k := LookUp(fs, dir, name);
    if looked.Err? {
      return Err(looked.error);
    }
    var (parent, found, inode) := looked.value;
    Target(fs, (dir, name));
    if inode.kind == Directory {
      return Err(EISDIR);
    }
    ghost var a, ns, live := SpaceOf(fs), NamesOn(fs), fs.live;
    UnlinkedOk(ns, (dir, name));
    UnlinkedIs(ns, (dir, name));
    Leave(fs, parent, found, lb, k, name);
    fs.inodes := fs.inodes[dir := parent];
    ghost var mid := SpaceOf(fs);
    FilesApart(Leaves(a.disk, a.tree), Leaves(mid.disk, mid.tree), live, parent);
    assert live[dir := parent] == live;
    DropLink(fs, inode);
    FilesTrans(Leaves(a.disk, a.tree), Leaves(mid.disk, mid.tree), Leaves(fs.disk, fs.tree), live, live, fs.live);
    StepNone(fs.geo, Leaves(a.disk, a.tree), Leaves(mid.disk, mid.tree), Leaves(fs.disk, fs.tree), live, live, fs.live,
        map[]);
    if old(TypesOn(fs)) {
      UnlinkedFits(ns, (dir, name));
      TypesFollow(fs.geo, Leaves(a.disk, a.tree), Leaves(fs.disk, fs.tree), live, fs.live, map[]);
    }
    return Ok(());
  }

  lemma UnlinkedIs(ns: Ns, at: Place)
    requires at in ns.names && ns.names[at] !in ns.up && ns.names[at] in ns.links && ns.links[ns.names[at]] > 0
    ensures var x := ns.names[at];
            Unlinked(ns, at) == if ns.links[x] <= 1 then Ns(ns.kind - {x}, ns.links - {x}, ns.up - {x}, ns.names - {at})
                                else Ns(ns.kind, ns.links[x := ns.links[x] - 1], ns.up, ns.names - {at})
  {
    assert ns.up - {ns.names[at]} == ns.up;
  }

  // ----- remove_dir -----

  /** Whether nothing is entered in directory `dir`. */
  method HoldsNothing(fs: Ext2, dir: Inode) returns (r: Result<bool>)
    requires Whole(fs) && IsDir(fs.live, dir.ino) && fs.live[dir.ino] == dir
    ensures r == Ok(Empty(NamesOn(fs).names, dir.ino))
  {
    hide TreeOk, Bounded, BlocksAgree, BlockCountsOk, DirOk, Leaves, InsideSize, DirNames, DirsOk, NsOf, MetaKept,
         OthersKept, InodesAgree, FileLimit.MaxBlocks, Lb, SizesFit, DirSound, DirEntries, NsOk, Conserved, KeptBut,
         FilesSame, Dirent.Ordinary, NamesOf, Dirent.Dotted;
    DirHere(fs, dir);
    forall name: Dirent.Name
      ensures (dir.ino, name) in NamesOn(fs).names <==> name in NamesOf(fs, dir) && !Dirent.Dotted(name)
    {
      EntryHere(fs, dir, name);
    }
    r := DirIsEmpty(fs, dir, UpIn(fs, dir.ino));
    if !r.value {
      ghost var name :| name in NamesOf(fs, dir) && !Dirent.Dotted(name);
      assert (dir.ino, name) in NamesOn(fs).names && (dir.ino, name).0 == dir.ino;
    } else {
      forall k | k in NamesOn(fs).names
        ensures k.0 != dir.ino
      {
        assert (k.0, k.1) == k;
      }
    }
  }

  lemma EntryHere(fs: Ext2, dir: Inode, name: Dirent.Name)
    requires fs.geo.Sane() && IsDir(fs.live, dir.ino) && fs.live[dir.ino] == dir
    ensures (dir.ino, name) in NamesOn(fs).names <==> name in NamesOf(fs, dir) && !Dirent.Dotted(name)
  {
    hide Leaves, DirNames, Dirent.Dotted, NsOf;
    NsOfIs(fs.geo, Leaves(fs.disk, fs.tree), fs.live, dir.ino);
    EntryAt(fs.geo, Leaves(fs.disk, fs.tree), fs.live, NamesOn(fs), dir.ino, name);
  }

  lemma DirRemovedIs(ns: Ns, at: Place)
    requires NsOk(ns) && at in ns.names && ns.names[at] in ns.up
    ensures at.0 in ns.links && ns.links[at.0] > 2 && at.0 != ns.names[at]
    ensures var x := ns.names[at];
            DirRemoved(ns, at) == Ns(ns.kind - {x}, ns.links[at.0 := ns.links[at.0] - 1] - {x}, ns.up - {x},
                ns.names - {at})
  {
    hide TreeUp, DirsOnce, FileLinks, DirLinks, EntriesOk, Ancestor;
    DirFacts(ns, at);
    FileIn(ns, at);
    LinksDrop(ns.links, ns.up, ns.names[at]);
  }

  /** Removes the empty directory `dir/name`. */
  method RemoveDir(fs: Ext2, dir: nat, name: Dirent.Name) returns (r: Result<()>)
    requires VolumeOk(fs)
    modifies fs`disk, fs`freeBlocks, fs`freeBlocksTotal, fs`live, fs`tree, fs`inodes, fs`freeInodes,
             fs`freeInodesTotal, fs`usedDirs
    ensures VolumeOk(fs)
    ensures var e, ns, at := old(ChangeError(fs.inodes, fs.readOnly, dir, name)), old(NamesOn(fs)), (dir, name);
            && r == (if e.Some? then Err(e.value) else if at !in ns.names then Err(ENOENT)
                     else if ns.names[at] !in ns.up then Err(ENOTDIR)
                     else if !Empty(ns.names, ns.names[at]) then Err(ENOTEMPTY) else Ok(()))
            && (r.Ok? ==> at in ns.names && NamesOn(fs) == DirRemoved(ns, at))
    ensures FilesSame(old(Leaves(fs.disk, fs.tree)), Leaves(fs.disk, fs.tree), old(fs.live), fs.live, {})
    ensures fs.freeBlocksTotal >= old(fs.freeBlocksTotal)
    ensures Steady(fs.geo, old(fs.live), fs.live, 0)
    ensures Retyped(fs, map[]) && (old(TypesOn(fs)) ==> TypesOn(fs))
    ensures r.Err? ==> Untouched(fs)
  {
    hide TypesStep, TypesOk, Steady, TreeOk, Bounded, BlocksAgree, BlockCountsOk, DirOk, Leaves, InsideSize,
         DirNames, DirsOk, NsOf, MetaKept, OthersKept, InodesAgree, FileLimit.MaxBlocks, Lb, SizesFit, DirSound,
         DirEntries, NsOk, Conserved, KeptBut, FilesSame, DirRemoved, FoundAt, NamesOf, Empty, Ancestor,
         Dirent.Ordinary, Dirent.Dotted;
    FilesSelf(Leaves(fs.disk, fs.tree), fs.live);
    SelfStep(fs.geo, Leaves(fs.disk, fs.tree), fs.live);
    SteadySelf(fs.geo, fs.live, 0);
    var looked, lb, k := LookUp(fs, dir, name);
    if looked.Err? {
      return Err(looked.error);
    }
    var (parent, found, inode) := looked.value;
    Target(fs, (dir, name));
    if inode.kind != Directory {
      return Err(ENOTDIR);
    }
    ghost var ns := NamesOn(fs);
    InodeHere(fs, inode.ino);
    DirFacts(ns, (dir, name));
    var checked := CheckParent(fs, inode, dir);
    if checked.Err? {
      return checked;
    }
    var empty := HoldsNothing(fs, inode);
    if !empty.value {
      return Err(ENOTEMPTY);
    }
    DropDir(fs, parent, found, inode, lb, k, name);
    return Ok(());
  }

  /** The part of `remove_dir` after its checks. */
  method DropDir(fs: Ext2, dir: Inode, found: Found, inode: Inode, ghost lb: nat, ghost k: nat, ghost name: Dirent.Name)
    requires VolumeOk(fs) && IsDir(fs.live, dir.ino) && fs.live[dir.ino] == dir
             && FoundAt(fs, dir, found, lb, k, name) && !Dirent.Dotted(name)
    requires (dir.ino, name) in NamesOn(fs).names && IsDir(fs.live, inode.ino) && fs.live[inode.ino] == inode
    requires NamesOn(fs).names[(dir.ino, name)] == inode.ino && Empty(NamesOn(fs).names, inode.ino)
    modifies fs`disk, fs`freeBlocks, fs`freeBlocksTotal, fs`live, fs`tree, fs`inodes, fs`freeInodes,
             fs`freeInodesTotal, fs`usedDirs
    ensures VolumeOk(fs) && NamesOn(fs) == DirRemoved(old(NamesOn(fs)), (dir.ino, name))
    ensures FilesSame(old(Leaves(fs.disk, fs.tree)), Leaves(fs.disk, fs.tree), old(fs.live), fs.live, {})
    ensures fs.freeBlocksTotal >= old(fs.freeBlocksTotal)
    ensures Steady(fs.geo, old(fs.live), fs.live, 0)
    ensures Retyped(fs, map[]) && (old(TypesOn(fs)) ==> TypesOn(fs))
  {
    hide TypesStep, TypesOk, PutsFit, Steady, TreeOk, Bounded, BlocksAgree, BlockCountsOk, DirOk, Leaves, InsideSize,
         DirNames, DirsOk, NsOf, MetaKept, OthersKept, InodesAgree, FileLimit.MaxBlocks, Lb, SizesFit, DirSound,
         DirEntries, NsOk, Conserved, KeptBut, FilesSame, DirRemoved, FoundAt, NamesOf, Empty, Dirent.Ordinary,
         Dirent.Dotted;
    ghost var a, ns, at, live := SpaceOf(fs), NamesOn(fs), (dir.ino, name), fs.live;
    Target(fs, at);
    InodeHere(fs, inode.ino);
    DirRemovedIs(ns, at);
    DirRemovedOk(ns, at);
    EmptyStill(ns.names, at, inode.ino);
    DirHere(fs, dir);
    Leave(fs, dir, found, lb, k, name);
    ghost var left := Leaves(fs.disk, fs.tree);
    var parent := SetLinks(fs, dir, dir.links - 1);
    fs.inodes := fs.inodes[dir.ino := parent];
    ghost var mid, now := SpaceOf(fs), fs.live;
    FilesApart(Leaves(a.disk, a.tree), Leaves(mid.disk, mid.tree), live, parent);
    StepNone(fs.geo, Leaves(a.disk, a.tree), left, Leaves(mid.disk, mid.tree), live, live, now, map[]);
    ReleaseInode(fs, inode);
    StepNone(fs.geo, Leaves(a.disk, a.tree), Leaves(mid.disk, mid.tree), Leaves(fs.disk, fs.tree), live, now, fs.live,
        map[]);
    InoIs(fs.geo, fs.disk, fs.live, fs.tree, inode.ino);
    FilesApart(Leaves(mid.disk, mid.tree), Leaves(fs.disk, fs.tree), now, fs.live[inode.ino]);
    FilesTrans(Leaves(a.disk, a.tree), Leaves(mid.disk, mid.tree), Leaves(fs.disk, fs.tree), live, now, fs.live);
    SteadyTwo(fs.geo, live, parent, fs.live[inode.ino], 0);
    if old(TypesOn(fs)) {
      DirRemovedFits(ns, at);
      TypesFollow(fs.geo, Leaves(a.disk, a.tree), Leaves(fs.disk, fs.tree), live, fs.live, map[]);
    }
  }

  lemma EmptyStill(names: map<Place, nat>, at: Place, x: nat)
    requires Empty(names, x)
    ensures Empty(names - {at}, x)
  {
  }
}

/** Inodes in use against the inode bitmaps and the groups' counts (crates/ext2/src/allocator.rs):
    taking a new inode and giving one back. */
module InodeUse {
  import opened Wrappers
  import opened Le
  import opened Arith
  import Bitmap
  import Sets
  import opened BlockPath
  import opened Volume
  import opened Allocator
  import opened Trees
  import opened BlockMap
  import opened InodeAlloc
  import opened NameTree

  /** The inode numbers that must be marked: those in use and the reserved ones. */
  ghost function Busy(geo: Geometry, live: map<nat, Inode>): set<nat> {
    set x | x in live && (x < geo.firstIno || live[x].InUse())
  }

  /** The directories whose inodes are in group `g`. */
  ghost function DirsIn(geo: Geometry, live: map<nat, Inode>, g: nat): set<nat>
    requires geo.inodesPerGroup > 0
  {
    set d | d in live && d > 0 && IsDir(live, d) && InodeGroup(geo, d) == g
  }

  /** The inodes of the volume, the bitmaps and the counts agree. */
  ghost predicate InodesAgree(geo: Geometry, disk: map<nat, Bytes>, free: seq<nat>, total: nat, usedDirs: seq<nat>,
        live: map<nat, Inode>)
    requires geo.Wf() && DiskOk(geo, disk)
  {
    && |free| == geo.groups && InodeCountsOk(geo, disk, free, total)
    && (forall x :: x in live <==> 1 <= x <= geo.inodesCount)
    && UsedInodes(geo, disk) == Busy(geo, live)
    && |usedDirs| == geo.groups && (forall g: nat :: g < geo.groups ==> usedDirs[g] == |DirsIn(geo, live, g)|)
  }

  ghost predicate Accounted(fs: Ext2)
    reads fs
  {
    && fs.geo.Wf() && DiskOk(fs.geo, fs.disk)
    && InodesAgree(fs.geo, fs.disk, fs.freeInodes, fs.freeInodesTotal, fs.usedDirs, fs.live)
  }

  // ----- what says nothing about inodes, and what inodes say nothing about -----

  lemma BitsFrame(geo: Geometry, disk: map<nat, Bytes>, disk': map<nat, Bytes>)
    requires geo.Wf() && DiskOk(geo, disk) && DiskOk(geo, disk')
    requires forall g :: 0 <= g < geo.groups ==> InodeBits(geo, disk', g) == InodeBits(geo, disk, g)
    ensures UsedInodes(geo, disk') == UsedInodes(geo, disk)
    ensures forall free, total :: InodeCountsOk(geo, disk, free, total) ==> InodeCountsOk(geo, disk', free, total)
  {
    hide Bitmap.Test, Volume.Geometry.GroupsOk, InodeBits;
    forall x: nat | 1 <= x <= geo.inodesCount
      ensures InodeUsed(geo, disk', x) == InodeUsed(geo, disk, x)
    {
      InodeSplits(geo, x);
    }
  }

  /** Changes to data, indirect blocks and block bitmaps say nothing about inodes. */
  lemma MetaFrame(geo: Geometry, disk: map<nat, Bytes>, disk': map<nat, Bytes>, free: seq<nat>, total: nat,
        usedDirs: seq<nat>, live: map<nat, Inode>)
    requires geo.Wf() && DiskOk(geo, disk) && DiskOk(geo, disk') && MetaKept(geo, disk, disk')
    requires InodesAgree(geo, disk, free, total, usedDirs, live)
    ensures InodesAgree(geo, disk', free, total, usedDirs, live)
  {
    hide Bitmap.Test, Volume.Geometry.GroupsOk, UsedInodes, Busy, DirsIn, InodeCountsOk;
    BlockBitmapsApart(geo);
    forall g | 0 <= g < geo.groups
      ensures InodeBits(geo, disk', g) == InodeBits(geo, disk, g)
    {
      geo.PartIsMetadata(g, 2, geo.descs[g].inodeBitmap);
    }
    BitsFrame(geo, disk, disk');
  }

  lemma InodeBitmapsApart(geo: Geometry)
    requires geo.Wf()
    ensures forall b: nat :: IsInodeBitmap(geo, b) ==> geo.IsMetadata(b) && !IsBlockBitmap(geo, b)
  {
    BlockBitmapsApart(geo);
    forall g | 0 <= g < geo.groups
      ensures geo.IsMetadata(geo.descs[g].inodeBitmap)
    {
      geo.PartIsMetadata(g, 2, geo.descs[g].inodeBitmap);
    }
  }

  /** Changes to inode bitmaps say nothing about blocks. */
  lemma InodeBitsFrame(geo: Geometry, disk: map<nat, Bytes>, disk': map<nat, Bytes>, live: map<nat, Inode>,
        tree: map<Loc, nat>)
    requires geo.Wf() && DiskOk(geo, disk) && DiskOk(geo, disk') && OnlyInodeBits(geo, disk, disk')
    requires TreeOk(geo, disk, live, tree, None) && Conserved(geo, disk, tree)
    ensures TreeOk(geo, disk', live, tree, None) && Conserved(geo, disk', tree)
            && Leaves(disk', tree) == Leaves(disk, tree)
    ensures forall free, total :: BlockCountsOk(geo, disk, free, total) ==> BlockCountsOk(geo, disk', free, total)
  {
    hide Bitmap.Test, Volume.Geometry.GroupsOk, TreeOk, Leaves, Volume.Geometry.IsMetadata;
    InodeBitmapsApart(geo);
    forall g | 0 <= g < geo.groups
      ensures BlockBits(geo, disk', g) == BlockBits(geo, disk, g)
    {
      assert IsBlockBitmap(geo, geo.descs[g].blockBitmap);
      geo.PartIsMetadata(g, 1, geo.descs[g].blockBitmap);
    }
    forall b: nat | geo.firstDataBlock <= b < geo.blocksCount
      ensures BlockUsed(geo, disk', b) == BlockUsed(geo, disk, b)
    {
      geo.BlockSplits(b);
    }
    TreeFrame(geo, disk, disk', live, tree, None);
  }

  /** Changes to an inode that keep its kind and its being in use. */
  lemma SameUse(geo: Geometry, disk: map<nat, Bytes>, free: seq<nat>, total: nat, usedDirs: seq<nat>,
        live: map<nat, Inode>, inode: Inode)
    requires geo.Wf() && DiskOk(geo, disk) && InodesAgree(geo, disk, free, total, usedDirs, live)
    requires inode.ino in live && inode.kind == live[inode.ino].kind && (inode.InUse() <==> live[inode.ino].InUse())
    ensures InodesAgree(geo, disk, free, total, usedDirs, live[inode.ino := inode])
  {
    hide InodeCountsOk, UsedInodes;
    var live' := live[inode.ino := inode];
    assert Busy(geo, live') == Busy(geo, live);
    forall g: nat
      ensures DirsIn(geo, live', g) == DirsIn(geo, live, g)
    {
    }
  }

  // ----- an inode without blocks comes and goes -----

  /** No block of the tree is `x`'s. */
  ghost predicate Bare(tree: map<Loc, nat>, x: nat) {
    forall l :: l in tree ==> l.Ino() != x
  }

  lemma BareInode(geo: Geometry, disk: map<nat, Bytes>, live: map<nat, Inode>, tree: map<Loc, nat>, inode: Inode)
    requires geo.Wf() && DiskOk(geo, disk) && TreeOk(geo, disk, live, tree, None) && BlocksAgree(geo, live, tree)
    requires inode.ino > 0 && Bare(tree, inode.ino) && |inode.ptrs| == N_SLOTS
    requires inode.HasTree() ==> inode.blocks == 0 && forall s :: 0 <= s < N_SLOTS ==> inode.ptrs[s] == 0
    ensures TreeOk(geo, disk, live[inode.ino := inode], tree, None) && BlocksAgree(geo, live[inode.ino := inode], tree)
  {
    hide Ptr, EntriesAgree, Shape, Distinct, Volume.Geometry.IsMetadata, Volume.Geometry.GroupsOk;
    assert Nodes(tree, inode.ino) == {};
  }

  /** An inode not in use has no blocks. */
  lemma UnusedBare(geo: Geometry, disk: map<nat, Bytes>, live: map<nat, Inode>, tree: map<Loc, nat>, x: nat)
    requires geo.Wf() && DiskOk(geo, disk) && TreeOk(geo, disk, live, tree, None) && x in live && !live[x].HasTree()
    ensures Bare(tree, x)
  {
  }

  /** Marking a number used and its inode going into use. */
  lemma UseMore(geo: Geometry, disk: map<nat, Bytes>, disk': map<nat, Bytes>, live: map<nat, Inode>,
        usedDirs: seq<nat>, inode: Inode)
    requires geo.Wf() && DiskOk(geo, disk) && DiskOk(geo, disk') && inode.ino in live && inode.ino >= geo.firstIno
             && inode.InUse() && !live[inode.ino].InUse()
    requires UsedInodes(geo, disk) == Busy(geo, live) && UsedInodes(geo, disk') == UsedInodes(geo, disk) + {inode.ino}
    requires (forall x :: x in live <==> 1 <= x <= geo.inodesCount)
    requires |usedDirs| == geo.groups && (forall g: nat :: g < geo.groups ==> usedDirs[g] == |DirsIn(geo, live, g)|)
    ensures InodeGroup(geo, inode.ino) < geo.groups
    ensures var live', g := live[inode.ino := inode], InodeGroup(geo, inode.ino);
            && UsedInodes(geo, disk') == Busy(geo, live')
            && usedDirs[g] < U16_MAX
            && forall h: nat :: h < geo.groups ==>
               (if inode.kind == Directory then usedDirs[g := usedDirs[g] + 1] else usedDirs)[h] ==
               |DirsIn(geo, live', h)|
  {
    hide UsedInodes, DirsIn, InodeGroup, IsDir;
    var live', g := live[inode.ino := inode], InodeGroup(geo, inode.ino);
    InodeSplits(geo, inode.ino);
    assert Busy(geo, live') == Busy(geo, live) + {inode.ino};
    GroupHolds(geo, live, g);
    forall h: nat | h < geo.groups
      ensures |DirsIn(geo, live', h)| == |DirsIn(geo, live, h)| + if inode.kind == Directory && h == g then 1 else 0
    {
      DirsMore(geo, live, inode, h);
    }
  }

  lemma DirsMore(geo: Geometry, live: map<nat, Inode>, inode: Inode, h: nat)
    requires geo.inodesPerGroup > 0 && inode.ino in live && inode.ino > 0 && inode.InUse() && !live[inode.ino].InUse()
    ensures |DirsIn(geo, live[inode.ino := inode], h)|
         == |DirsIn(geo, live, h)| + if inode.kind == Directory && h == InodeGroup(geo, inode.ino) then 1 else 0
  {
    hide InodeGroup;
    var live' := live[inode.ino := inode];
    assert DirsIn(geo, live', h) ==
      if inode.kind == Directory && h == InodeGroup(geo, inode.ino) then DirsIn(geo, live, h) + {inode.ino}
          else DirsIn(geo, live, h);
    assert inode.ino !in DirsIn(geo, live, h);
  }

  /** A group has at most as many directories as inodes. */
  lemma GroupHolds(geo: Geometry, live: map<nat, Inode>, g: nat)
    requires geo.Sane() && (forall x :: x in live <==> 1 <= x <= geo.inodesCount)
    ensures |DirsIn(geo, live, g)| <= geo.inodesPerGroup < U16_MAX
  {
    var f := map d | d in DirsIn(geo, live, g) :: InodeIndex(geo, d);
    forall d | d in DirsIn(geo, live, g)
      ensures f[d] < geo.inodesPerGroup && d == InodeNumber(geo, g, f[d])
    {
      InodeSplits(geo, d);
    }
    Sets.Numbered(DirsIn(geo, live, g), f, geo.inodesPerGroup);
  }

  /** Clearing a number and its inode going out of use. */
  lemma UseLess(geo: Geometry, disk: map<nat, Bytes>, disk': map<nat, Bytes>, live: map<nat, Inode>,
        usedDirs: seq<nat>, inode: Inode)
    requires geo.Wf() && DiskOk(geo, disk) && DiskOk(geo, disk') && inode.ino in live && inode.ino >= geo.firstIno
             && !inode.InUse() && live[inode.ino].InUse()
    requires UsedInodes(geo, disk) == Busy(geo, live) && UsedInodes(geo, disk') == UsedInodes(geo, disk) - {inode.ino}
    requires (forall x :: x in live <==> 1 <= x <= geo.inodesCount)
    requires |usedDirs| == geo.groups && (forall g: nat :: g < geo.groups ==> usedDirs[g] == |DirsIn(geo, live, g)|)
    ensures InodeGroup(geo, inode.ino) < geo.groups
    ensures var live', g := live[inode.ino := inode], InodeGroup(geo, inode.ino);
            && UsedInodes(geo, disk') == Busy(geo, live')
            && (live[inode.ino].kind == Directory ==> 0 < usedDirs[g] < U16_MAX)
            && forall h: nat :: h < geo.groups ==>
               (if live[inode.ino].kind == Directory then usedDirs[g := Clamp(usedDirs[g] as int - 1, U16_MAX)]
               else usedDirs)[h] == |DirsIn(geo, live', h)|
  {
    hide UsedInodes;
    var live', g := live[inode.ino := inode], InodeGroup(geo, inode.ino);
    InodeSplits(geo, inode.ino);
    assert Busy(geo, live') == Busy(geo, live) - {inode.ino};
    GroupHolds(geo, live, g);
    assert live[inode.ino].kind == Directory ==> inode.ino in DirsIn(geo, live, g);
    forall h: nat | h < geo.groups
      ensures DirsIn(geo, live', h) ==
              if live[inode.ino].kind == Directory && h == g then DirsIn(geo, live, h) - {inode.ino}
              else DirsIn(geo, live, h)
    {
    }
  }

  // ----- taking a new inode, and giving one back -----

  /** `Inode::fresh`: no size, no blocks, one link, or two for a directory. */
  function Fresh(ino: nat, dir: bool): Inode {
    Inode(ino, if dir then Directory else Regular, 0, if dir then 2 else 1, 0, seq(N_SLOTS, _ => 0))
  }

  /** Allocates an inode number and starts its inode; it is not stored yet. */
  method TakeInode(fs: Ext2, parent: nat, dir: bool) returns (r: Result<Inode>)
    requires Mapped(fs) && Accounted(fs) && 1 <= parent <= fs.geo.inodesCount
    modifies fs`disk, fs`freeInodes, fs`freeInodesTotal, fs`usedDirs, fs`live
    ensures Mapped(fs) && Accounted(fs) && Leaves(fs.disk, fs.tree) == old(Leaves(fs.disk, fs.tree))
    ensures r.Err? <==> old(fs.freeInodesTotal) == 0
    ensures r.Err? ==>
              && r.error == ENOSPC && fs.disk == old(fs.disk) && fs.freeInodes == old(fs.freeInodes)
              && fs.freeInodesTotal == old(fs.freeInodesTotal) && fs.usedDirs == old(fs.usedDirs)
              && fs.live == old(fs.live)
    ensures r.Ok? ==>
              && r.value == Fresh(r.value.ino, dir) && fs.geo.firstIno <= r.value.ino <= fs.geo.inodesCount
              && r.value.ino in old(fs.live) && !old(fs.live)[r.value.ino].InUse() && Bare(fs.tree, r.value.ino)
              && fs.live == old(fs.live)[r.value.ino := r.value]
              && OnlyInodeBits(fs.geo, old(fs.disk), fs.disk)
              && Picked(fs.geo, Busy(fs.geo, old(fs.live)), old(fs.freeInodes), parent, dir, r.value.ino)
  {
    hide Ptr, TreeOk, Bounded, Conserved, BlockCountsOk, Volume.Geometry.IsMetadata, Volume.Geometry.GroupsOk, Used,
         UsedInodes, InodeCountsOk, Leaves, DirsIn, Volume.Geometry.Metadata, InodeGroup, Picked, FirstFound;
    var geo := fs.geo;
    ghost var disk, live, dirs := fs.disk, fs.live, fs.usedDirs;
    assert ReservedUsed(geo, disk);
    var got := AllocInode(fs, parent, dir);
    if got.Err? {
      return Err(got.error);
    }
    var inode := Fresh(got.value, dir);
    assert inode.ino in live && inode.ino !in Busy(geo, live);
    UnusedBare(geo, disk, live, fs.tree, inode.ino);
    InodeBitsFrame(geo, disk, fs.disk, live, fs.tree);
    BareInode(geo, fs.disk, live, fs.tree, inode);
    UseMore(geo, disk, fs.disk, live, dirs, inode);
    fs.live := fs.live[inode.ino := inode];
    return Ok(inode);
  }

  /** Gives back the number of an inode without blocks; `inode` is what it leaves behind. */
  method ReturnInode(fs: Ext2, inode: Inode, dir: bool)
    requires Mapped(fs) && Accounted(fs) && inode.ino in fs.live && fs.live[inode.ino].InUse()
             && inode.ino >= fs.geo.firstIno
    requires Bare(fs.tree, inode.ino) && |inode.ptrs| == N_SLOTS && !inode.InUse()
             && (dir <==> fs.live[inode.ino].kind == Directory)
    modifies fs`disk, fs`freeInodes, fs`freeInodesTotal, fs`usedDirs, fs`live
    ensures Mapped(fs) && Accounted(fs) && Leaves(fs.disk, fs.tree) == old(Leaves(fs.disk, fs.tree))
    ensures fs.live == old(fs.live)[inode.ino := inode] && fs.freeInodesTotal == old(fs.freeInodesTotal) + 1
    ensures OnlyInodeBits(fs.geo, old(fs.disk), fs.disk)
  {
    hide Ptr, TreeOk, Bounded, Conserved, BlockCountsOk, Volume.Geometry.IsMetadata, Volume.Geometry.GroupsOk, Used,
         UsedInodes, InodeCountsOk, Leaves, DirsIn, Volume.Geometry.Metadata, InodeGroup;
    var geo := fs.geo;
    ghost var disk, live, dirs := fs.disk, fs.live, fs.usedDirs;
    assert inode.ino in Busy(geo, live);
    FreeInode(fs, inode.ino, dir);
    InodeBitsFrame(geo, disk, fs.disk, live, fs.tree);
    BareInode(geo, fs.disk, live, fs.tree, inode);
    UseLess(geo, disk, fs.disk, live, dirs, inode);
    fs.live := fs.live[inode.ino := inode];
  }
}

/** What the counts in the superblock add up to: every block is free, metadata or in one place of
    one file, and every inode number is free or in use. */
module Totals {
  import opened Le
  import opened Arith
  import Bitmap
  import opened Sets
  import opened BlockPath
  import opened Volume
  import opened Allocator
  import opened Trees
  import opened BlockMap
  import opened InodeAlloc
  import opened InodeUse
  import opened Namespace
  import opened NameTree
  import opened NameOps
  import opened Rename

  // ----- numbers laid out group after group -----

  ghost function Shifted(s: set<nat>, base: nat): set<nat> {
    set i | i in s :: base + i
  }

  lemma ShiftedSize(s: set<nat>, base: nat)
    ensures |Shifted(s, base)| == |s|
  {
    var f := map i | i in s :: base + i;
    ImageSize(s, f, Shifted(s, base));
  }

  /** The numbers of the groups `sets`, each from its base on. */
  ghost function Numbers(sets: seq<set<nat>>, bases: seq<nat>): set<nat>
    requires |sets| == |bases|
  {
    if sets == [] then {}
    else Numbers(sets[..|sets| - 1], bases[..|bases| - 1]) + Shifted(sets[|sets| - 1], bases[|bases| - 1])
  }

  /** No number of a group reaches a later one. */
  ghost predicate InOrder(sets: seq<set<nat>>, bases: seq<nat>)
    requires |sets| == |bases|
  {
    forall g, h, i :: 0 <= g < h < |sets| && i in sets[g] ==> bases[g] + i < bases[h]
  }

  lemma {:induction false} NumbersHas(sets: seq<set<nat>>, bases: seq<nat>, x: nat)
    requires |sets| == |bases|
    ensures x in Numbers(sets, bases) <==> exists g :: 0 <= g < |sets| && x in Shifted(sets[g], bases[g])
  {
    if sets != [] {
      var n := |sets| - 1;
      NumbersHas(sets[..n], bases[..n], x);
      if g :| 0 <= g < n && x in Shifted(sets[g], bases[g]) {
        assert x in Shifted(sets[..n][g], bases[..n][g]);
      }
    }
  }

  lemma {:induction false} NumbersCount(sets: seq<set<nat>>, bases: seq<nat>, counts: seq<nat>)
    requires |sets| == |bases| == |counts| && InOrder(sets, bases)
             && forall g :: 0 <= g < |sets| ==> counts[g] == |sets[g]|
    ensures |Numbers(sets, bases)| == Sum(counts)
  {
    if sets != [] {
      var n := |sets| - 1;
      NumbersCount(sets[..n], bases[..n], counts[..n]);
      ShiftedSize(sets[n], bases[n]);
      forall x | x in Numbers(sets[..n], bases[..n])
        ensures x !in Shifted(sets[n], bases[n])
      {
        NumbersHas(sets[..n], bases[..n], x);
      }
    }
  }

  // ----- blocks -----

  ghost function AllBlocks(geo: Geometry): set<nat> {
    Below(geo.blocksCount) - Below(geo.firstDataBlock)
  }

  ghost function FreeBits(geo: Geometry, disk: map<nat, Bytes>): seq<set<nat>>
    requires geo.Wf() && DiskOk(geo, disk)
  {
    seq(geo.groups, g requires 0 <= g < geo.groups => Bitmap.ClearBits(BlockBits(geo, disk, g), geo.GroupBlocks(g)))
  }

  ghost function Starts(geo: Geometry): seq<nat> {
    seq(geo.groups, g requires 0 <= g < geo.groups => geo.GroupStart(g))
  }

  /** A free block is a clear bit of its group. */
  lemma FreeIsClear(geo: Geometry, disk: map<nat, Bytes>, b: nat) returns (g: nat)
    requires geo.Wf() && DiskOk(geo, disk) && b in AllBlocks(geo) && b !in Used(geo, disk)
    ensures g < geo.groups && b in Shifted(FreeBits(geo, disk)[g], Starts(geo)[g])
  {
    hide Bitmap.Test, Volume.Geometry.GroupsOk, Volume.Geometry.IsMetadata, BlockBits;
    geo.BlockSplits(b);
    g := geo.GroupOf(b);
    assert geo.IndexOf(b) in FreeBits(geo, disk)[g];
  }

  lemma ClearIsFree(geo: Geometry, disk: map<nat, Bytes>, b: nat, g: nat)
    requires geo.Wf() && DiskOk(geo, disk) && g < geo.groups && b in Shifted(FreeBits(geo, disk)[g], Starts(geo)[g])
    ensures b in AllBlocks(geo) && b !in Used(geo, disk)
  {
    hide Bitmap.Test, Volume.Geometry.GroupsOk, Volume.Geometry.IsMetadata, BlockBits;
    geo.BlockAt(g, b - geo.GroupStart(g));
  }

  lemma FreeNumbers(geo: Geometry, disk: map<nat, Bytes>, b: nat)
    requires geo.Wf() && DiskOk(geo, disk)
    ensures b in Numbers(FreeBits(geo, disk), Starts(geo)) <==> b in AllBlocks(geo) && b !in Used(geo, disk)
  {
    hide Volume.Geometry.GroupsOk, Volume.Geometry.IsMetadata, Numbers, Shifted, Used, AllBlocks;
    var sets, bases := FreeBits(geo, disk), Starts(geo);
    NumbersHas(sets, bases, b);
    if g :| 0 <= g < |sets| && b in Shifted(sets[g], bases[g]) {
      ClearIsFree(geo, disk, b, g);
    }
    if b in AllBlocks(geo) && b !in Used(geo, disk) {
      var g := FreeIsClear(geo, disk, b);
    }
  }

  lemma BlocksInOrder(geo: Geometry, disk: map<nat, Bytes>)
    requires geo.Wf() && DiskOk(geo, disk)
    ensures InOrder(FreeBits(geo, disk), Starts(geo))
  {
    hide Bitmap.Test, Volume.Geometry.GroupsOk, Volume.Geometry.IsMetadata;
    var sets, bases := FreeBits(geo, disk), Starts(geo);
    forall g, h, i | 0 <= g < h < |sets| && i in sets[g]
      ensures bases[g] + i < bases[h]
    {
      geo.GroupInside(g);
      TimesMono(g + 1, h, geo.blocksPerGroup);
    }
  }

  /** The superblock's free count is the number of blocks not marked in use. */
  lemma FreeTotal(geo: Geometry, disk: map<nat, Bytes>, free: seq<nat>, total: nat)
    requires geo.Wf() && DiskOk(geo, disk) && BlockCountsOk(geo, disk, free, total)
    ensures total == |AllBlocks(geo) - Used(geo, disk)|
  {
    hide Bitmap.Test, Volume.Geometry.GroupsOk, Volume.Geometry.IsMetadata, Numbers, InOrder, Used;
    var sets, bases := FreeBits(geo, disk), Starts(geo);
    forall b: nat
      ensures b in Numbers(sets, bases) <==> b in AllBlocks(geo) - Used(geo, disk)
    {
      FreeNumbers(geo, disk, b);
    }
    assert Numbers(sets, bases) == AllBlocks(geo) - Used(geo, disk);
    BlocksInOrder(geo, disk);
    NumbersCount(sets, bases, free);
  }

  lemma AllSize(geo: Geometry)
    requires geo.Sane()
    ensures |AllBlocks(geo)| == geo.blocksCount - geo.firstDataBlock
  {
    assert Below(geo.firstDataBlock) <= Below(geo.blocksCount);
  }

  /** Conservation: each block is free, metadata, or at exactly one place of one file. */
  lemma BlocksConserved(fs: Ext2)
    requires Mapped(fs)
    ensures fs.freeBlocksTotal + |MetaBlocks(fs.geo)| + |fs.tree| == fs.geo.blocksCount - fs.geo.firstDataBlock
    ensures MetaBlocks(fs.geo) !! fs.tree.Values && |fs.tree.Values| == |fs.tree|
  {
    hide BlockCountsOk, Bounded, BlocksAgree, RootsAgree, EntriesAgree, Shape, Owned, Distinct, InodesShaped,
         Volume.Geometry.IsMetadata, Volume.Geometry.GroupsOk, Used, AllBlocks, MetaBlocks;
    FreeTotal(fs.geo, fs.disk, fs.freeBlocks, fs.freeBlocksTotal);
    AllSize(fs.geo);
    UsedInside(fs.geo, fs.disk);
    MetaApart(fs.geo, fs.live, fs.tree);
    ThreeParts(AllBlocks(fs.geo), Used(fs.geo, fs.disk), MetaBlocks(fs.geo), fs.tree.Values);
  }

  lemma MetaApart(geo: Geometry, live: map<nat, Inode>, tree: map<Loc, nat>)
    requires geo.Wf() && Owned(geo, live, tree) && Distinct(tree)
    ensures MetaBlocks(geo) !! tree.Values && |tree.Values| == |tree|
  {
    hide Volume.Geometry.IsMetadata, Volume.Geometry.GroupsOk;
    ImageSize(tree.Keys, tree, tree.Values);
    forall b | b in tree.Values
      ensures b !in MetaBlocks(geo)
    {
      var l :| l in tree && tree[l] == b;
    }
  }

  lemma ThreeParts(all: set<nat>, used: set<nat>, meta: set<nat>, mine: set<nat>)
    requires used <= all && used == meta + mine && meta !! mine
    ensures |all - used| + |meta| + |mine| == |all|
  {
    assert all == (all - used) + used;
  }

  lemma UsedInside(geo: Geometry, disk: map<nat, Bytes>)
    requires geo.Wf() && DiskOk(geo, disk)
    ensures Used(geo, disk) <= AllBlocks(geo)
  {
  }

  // ----- inodes -----

  ghost function AllInodes(geo: Geometry): set<nat> {
    Below(geo.inodesCount + 1) - {0}
  }

  ghost function FreeInodeBits(geo: Geometry, disk: map<nat, Bytes>): seq<set<nat>>
    requires geo.Wf() && DiskOk(geo, disk)
  {
    seq(geo.groups, g requires 0 <= g < geo.groups => Bitmap.ClearBits(InodeBits(geo, disk, g), geo.inodesPerGroup))
  }

  ghost function InodeStarts(geo: Geometry): seq<nat> {
    seq(geo.groups, g requires 0 <= g < geo.groups => InodeNumber(geo, g, 0))
  }

  lemma FreeInodeIsClear(geo: Geometry, disk: map<nat, Bytes>, x: nat) returns (g: nat)
    requires geo.Wf() && DiskOk(geo, disk) && x in AllInodes(geo) && x !in UsedInodes(geo, disk)
    ensures g < geo.groups && x in Shifted(FreeInodeBits(geo, disk)[g], InodeStarts(geo)[g])
  {
    hide Bitmap.Test, Volume.Geometry.GroupsOk, Volume.Geometry.IsMetadata, InodeBits;
    InodeSplits(geo, x);
    g := InodeGroup(geo, x);
    assert InodeIndex(geo, x) in FreeInodeBits(geo, disk)[g];
  }

  lemma ClearInodeIsFree(geo: Geometry, disk: map<nat, Bytes>, x: nat, g: nat)
    requires geo.Wf() && DiskOk(geo, disk) && g < geo.groups
             && x in Shifted(FreeInodeBits(geo, disk)[g], InodeStarts(geo)[g])
    ensures x in AllInodes(geo) && x !in UsedInodes(geo, disk)
  {
    hide Bitmap.Test, Volume.Geometry.GroupsOk, Volume.Geometry.IsMetadata, InodeBits;
    InodeAt(geo, g, x - InodeNumber(geo, g, 0));
  }

  lemma FreeInodeNumbers(geo: Geometry, disk: map<nat, Bytes>, x: nat)
    requires geo.Wf() && DiskOk(geo, disk)
    ensures x in Numbers(FreeInodeBits(geo, disk), InodeStarts(geo)) <==>
            x in AllInodes(geo) && x !in UsedInodes(geo, disk)
  {
    hide Volume.Geometry.GroupsOk, Volume.Geometry.IsMetadata, Numbers, Shifted, UsedInodes, AllInodes;
    var sets, bases := FreeInodeBits(geo, disk), InodeStarts(geo);
    NumbersHas(sets, bases, x);
    if g :| 0 <= g < |sets| && x in Shifted(sets[g], bases[g]) {
      ClearInodeIsFree(geo, disk, x, g);
    }
    if x in AllInodes(geo) && x !in UsedInodes(geo, disk) {
      var g := FreeInodeIsClear(geo, disk, x);
    }
  }

  lemma InodesInOrder(geo: Geometry, disk: map<nat, Bytes>)
    requires geo.Wf() && DiskOk(geo, disk)
    ensures InOrder(FreeInodeBits(geo, disk), InodeStarts(geo))
  {
    hide Bitmap.Test, Volume.Geometry.GroupsOk, Volume.Geometry.IsMetadata;
    var sets, bases := FreeInodeBits(geo, disk), InodeStarts(geo);
    forall g, h, i | 0 <= g < h < |sets| && i in sets[g]
      ensures bases[g] + i < bases[h]
    {
      TimesMono(g + 1, h, geo.inodesPerGroup);
    }
  }

  /** The superblock's free count is the number of inode numbers not marked in use. */
  lemma FreeInodeTotal(geo: Geometry, disk: map<nat, Bytes>, free: seq<nat>, total: nat)
    requires geo.Wf() && DiskOk(geo, disk) && InodeCountsOk(geo, disk, free, total)
    ensures total + |UsedInodes(geo, disk)| == geo.inodesCount
  {
    hide Bitmap.Test, Volume.Geometry.GroupsOk, Volume.Geometry.IsMetadata, Numbers, InOrder, UsedInodes;
    var sets, bases := FreeInodeBits(geo, disk), InodeStarts(geo);
    forall x: nat
      ensures x in Numbers(sets, bases) <==> x in AllInodes(geo) - UsedInodes(geo, disk)
    {
      FreeInodeNumbers(geo, disk, x);
    }
    assert Numbers(sets, bases) == AllInodes(geo) - UsedInodes(geo, disk);
    InodesInOrder(geo, disk);
    NumbersCount(sets, bases, free);
    UsedInodesInside(geo, disk);
  }

  lemma UsedInodesInside(geo: Geometry, disk: map<nat, Bytes>)
    requires geo.Wf() && DiskOk(geo, disk)
    ensures UsedInodes(geo, disk) <= AllInodes(geo)
  {
    hide Bitmap.Test, Volume.Geometry.GroupsOk, Volume.Geometry.IsMetadata, InodeBits;
  }

  /** There are no more directories than inodes in use, so the bound on rename's walk is `MAX_DEPTH`: a
      volume of at most that many directories is never taken for a loop. */
  lemma WalkReaches(fs: Ext2, a: nat, d: nat)
    requires VolumeOk(fs) && d in NamesOn(fs).up
    ensures |NamesOn(fs).up| + fs.freeInodesTotal <= fs.geo.inodesCount
    ensures TooDeep(NamesOn(fs).up, a, d, WalkLimit(fs.geo, fs.freeInodesTotal)) <==>
            TooDeep(NamesOn(fs).up, a, d, MAX_DEPTH)
    ensures |NamesOn(fs).up| <= MAX_DEPTH ==> !TooDeep(NamesOn(fs).up, a, d, WalkLimit(fs.geo, fs.freeInodesTotal))
  {
    hide TreeOk, Bounded, BlocksAgree, BlockCountsOk, Leaves, DirsOk, NsOf, Conserved, UsedInodes, InodeCountsOk,
         DirsIn, DirsOnce, TreeUp, DirLinks, FileLinks, EntriesOk, TooDeep;
    var up := NamesOn(fs).up;
    FreeInodeTotal(fs.geo, fs.disk, fs.freeInodes, fs.freeInodesTotal);
    forall x | x in up.Keys
      ensures x in Busy(fs.geo, fs.live)
    {
      InodeHere(fs, x);
    }
    SubsetSize(up.Keys, Busy(fs.geo, fs.live));
    var limit := WalkLimit(fs.geo, fs.freeInodesTotal);
    if |up| <= limit + 1 { NeverTooDeep(up, a, d, limit); }
    if TooDeep(up, a, d, MAX_DEPTH) { DeeperYet(up, a, d, limit, MAX_DEPTH); }
  }

  lemma DeeperYet(up: map<nat, nat>, a: nat, d: nat, limit: nat, more: nat)
    requires limit <= more && TooDeep(up, a, d, more)
    ensures TooDeep(up, a, d, limit)
  {
  }

  /** The reserved inode numbers but the root's. */
  ghost function Reserved(geo: Geometry): set<nat> {
    Below(geo.firstIno) - {0, ROOT}
  }

  lemma ReservedSize(geo: Geometry)
    requires geo.Sane()
    ensures |Reserved(geo)| == geo.firstIno - 2
  {
  }

  /** The names' inodes determine how many numbers are free. */
  lemma NumbersLeft(fs: Ext2)
    requires VolumeOk(fs)
    ensures fs.freeInodesTotal + |NamesOn(fs).kind| == fs.geo.inodesCount + 2 - fs.geo.firstIno
  {
    hide TreeOk, Bounded, BlocksAgree, BlockCountsOk, Leaves, DirsOk, NsOf, Conserved, UsedInodes, InodeCountsOk,
         DirsIn, DirsOnce, DirLinks, FileLinks, EntriesOk, Reserved, Rooted;
    var geo, kinds := fs.geo, NamesOn(fs).kind.Keys;
    FreeInodeTotal(geo, fs.disk, fs.freeInodes, fs.freeInodesTotal);
    InodeHere(fs, ROOT);
    forall x: nat ensures x in Busy(geo, fs.live) <==> x in kinds || x in Reserved(geo) {
      InodeHere(fs, x);
      ReservedIs(geo, x);
    }
    forall x | x in kinds ensures x !in Reserved(geo) {
      InodeHere(fs, x);
      ReservedIs(geo, x);
    }
    assert Busy(geo, fs.live) == kinds + Reserved(geo);
    ReservedSize(geo);
  }

  lemma ReservedIs(geo: Geometry, x: nat)
    ensures x in Reserved(geo) <==> 1 <= x < geo.firstIno && x != ROOT
  {
  }
}

/** A small volume with an empty root directory: the invariants hold of it, so every run can start
    somewhere. */
module Fresh {
  import opened Wrappers
  import opened Le
  import opened Arith
  import Bitmap
  import opened BlockPath
  import opened FileLimit
  import opened Volume
  import opened Allocator
  import opened Trees
  import opened BlockMap
  import opened FileData
  import opened FileOps
  import Dirent
  import opened Directory
  import opened Namespace
  import opened NameTree
  import opened DirTypes
  import opened InodeAlloc
  import opened InodeUse
  import opened NameOps
  import opened Ops

  /** One group of 64 blocks of 1 KiB and 24 inodes: superblock and descriptors in blocks 1 and 2,
      bitmaps in 3 and 4, the inode table in 5 to 7. */
  const GEO: Geometry := Geometry(1024, 64, 24, 1, 8192, 24, 11, 1, 3, [2], [Desc(3, 4, 5)], true)

  const ROOT_BLOCK: nat := 8

  function NoPtrs(): seq<nat> {
    seq(15, _ => 0)
  }

  function BlockBitmap(): Bytes {
    [0xFF] + Zeros(1023)
  }

  function InodeBitmap(): Bytes {
    [0xFF, 0x03] + Zeros(1022)
  }

  function FreshBlock(b: nat): (data: Bytes)
    ensures |data| == 1024
  {
    if b == 3 then BlockBitmap()
    else if b == 4 then InodeBitmap()
    else if b == ROOT_BLOCK then Dirent.InitDir(1024, ROOT, ROOT, true)
    else Zeros(1024)
  }

  function FreshDisk(): map<nat, Bytes> {
    map b: nat | b < 64 :: FreshBlock(b)
  }

  function FreshInode(x: nat): Inode {
    if x == ROOT then Inode(ROOT, Directory, 1024, 2, 2, NoPtrs()[0 := ROOT_BLOCK])
    else Inode(x, Regular, 0, 0, 0, NoPtrs())
  }

  function FreshInodes(): map<nat, Inode> {
    map x: nat | 1 <= x <= 24 :: FreshInode(x)
  }

  function FreshTree(): map<Loc, nat> {
    map[Root(ROOT, 0) := ROOT_BLOCK]
  }

  lemma GeoSane()
    ensures GEO.Sane() && GEO.groups == 1 && GEO.GroupStart(0) == 1 && GEO.GroupBlocks(0) == 63
    ensures GEO.Metadata(0) == [Extent(1, 2), Extent(3, 1), Extent(4, 1), Extent(5, 3)]
  {
    assert Times(0, 8192) == 0 && Times(1, 8192) == 8192 && Times(1, 24) == 24;
  }

  lemma GeoOk()
    ensures GEO.Wf()
  {
    hide Volume.Geometry.Sane, Volume.Geometry.Metadata, Volume.Geometry.GroupBlocks, Volume.Geometry.GroupStart;
    GeoSane();
    assert GEO.groups == 1;
    assert GEO.GroupOk(0);
    assert GEO.GroupsOk(0) && GEO.GroupsOk(1);
  }

  lemma FreshDiskOk()
    ensures DiskOk(GEO, FreshDisk())
  {
    hide FreshBlock;
  }

  lemma SumOne(n: nat)
    ensures Sum([n]) == n
  {
    assert [n][..0] == [];
  }

  /** The bits of `2^n - 1`. */
  lemma {:induction false} OnesBits(n: nat, k: nat)
    ensures Bitmap.Bit(Bitmap.Weight(n) - 1, k) <==> k < n
  {
    if k > 0 {
      if n > 0 {
        assert (Bitmap.Weight(n) - 1) / 2 == Bitmap.Weight(n - 1) - 1;
        OnesBits(n - 1, k - 1);
      } else {
        OnesBits(0, k - 1);
      }
    }
  }

  lemma Weights()
    ensures Bitmap.Weight(0) - 1 == 0 && Bitmap.Weight(2) - 1 == 0x03 && Bitmap.Weight(8) - 1 == 0xFF
  {
    assert Bitmap.Weight(4) == 16;
  }

  /** The bitmaps mark the first 8 blocks of the group and the first 10 inodes. */
  lemma FreshBits(i: nat)
    requires i < 8 * 1024
    ensures Bitmap.Test(BlockBitmap(), i) <==> i < 8
    ensures Bitmap.Test(InodeBitmap(), i) <==> i < 10
  {
    hide Bitmap.Bit, Bitmap.Weight;
    Weights();
    OnesBits(0, i % 8);
    OnesBits(2, i % 8);
    OnesBits(8, i % 8);
  }

  lemma InGroupZero(b: nat)
    requires 1 <= b < 64
    ensures GEO.GroupOf(b) == 0 && GEO.IndexOf(b) == b - 1
  {
  }

  lemma PartsHave(parts: seq<Extent>, b: nat)
    requires parts == [Extent(1, 2), Extent(3, 1), Extent(4, 1), Extent(5, 3)]
    ensures (exists e :: e in parts && e.Has(b)) <==> 1 <= b < 8
  {
    if 1 <= b < 3 { assert parts[0].Has(b); }
    if b == 3 { assert parts[1].Has(b); }
    if b == 4 { assert parts[2].Has(b); }
    if 5 <= b < 8 { assert parts[3].Has(b); }
  }

  lemma FreshMetadata(geo: Geometry, b: nat)
    requires geo.Sane() && geo.firstDataBlock <= b && geo.GroupOf(b) == 0 && geo.groups == 1
    requires geo.Metadata(0) == [Extent(1, 2), Extent(3, 1), Extent(4, 1), Extent(5, 3)]
    ensures geo.IsMetadata(b) <==> 1 <= b < 8
  {
    hide Volume.Geometry.Metadata, Volume.Geometry.GroupOf, Extent.Has;
    PartsHave(geo.Metadata(0), b);
  }

  lemma FreshMetadataIs(b: nat)
    requires GEO.Sane() && 1 <= b < 64
    ensures GEO.IsMetadata(b) <==> b < 8
  {
    hide *;
    InGroupZero(b);
    GeoSane();
    FreshMetadata(GEO, b);
  }

  lemma FreshBlockUsed(disk: map<nat, Bytes>, b: nat)
    requires GEO.Wf() && DiskOk(GEO, disk) && 3 in disk && disk[3] == BlockBitmap() && 1 <= b < 64
    ensures BlockUsed(GEO, disk, b) <==> b <= 8
  {
    hide Bitmap.Test, BlockBitmap, InodeBitmap, Volume.Geometry.GroupsOk, Volume.Geometry.Sane, DiskOk,
         Volume.Geometry.GroupOf, Volume.Geometry.IndexOf;
    InGroupZero(b);
    FreshBits(b - 1);
    assert GEO.descs[0].blockBitmap == 3;
    assert BlockBits(GEO, disk, 0) == BlockBitmap();
  }

  lemma FreshUsed()
    requires GEO.Wf() && DiskOk(GEO, FreshDisk())
    ensures Conserved(GEO, FreshDisk(), FreshTree())
  {
    hide BlockBitmap, InodeBitmap, Volume.Geometry.GroupsOk, Volume.Geometry.Sane, DiskOk, BlockUsed,
         Volume.Geometry.IsMetadata, FreshDisk, FreshTree;
    FreshBitmaps();
    FreshTreeIs();
    assert GEO.firstDataBlock == 1 && GEO.blocksCount == 64;
    forall b: nat | 1 <= b < 64
      ensures BlockUsed(GEO, FreshDisk(), b) <==> b <= 8
      ensures GEO.IsMetadata(b) <==> b < 8
    {
      FreshBlockUsed(FreshDisk(), b);
      FreshMetadataIs(b);
    }
    assert Used(GEO, FreshDisk()) == MetaBlocks(GEO) + {ROOT_BLOCK};
  }

  lemma FreshBitmaps()
    ensures var disk := FreshDisk(); 3 in disk && disk[3] == BlockBitmap() && 4 in disk && disk[4] == InodeBitmap()
  {
    hide BlockBitmap, InodeBitmap;
  }

  lemma FreshTreeIs()
    ensures FreshTree().Values == {ROOT_BLOCK}
    ensures var at := Root(ROOT, 0); at.Valid(256) && at.Leaf() && at.Base(256) == 0 && at.Ino() == ROOT
  {
    assert Root(ROOT, 0) in FreshTree();
  }

  lemma FreshTreeOk()
    requires GEO.Wf() && DiskOk(GEO, FreshDisk())
    ensures TreeOk(GEO, FreshDisk(), FreshInodes(), FreshTree(), None)
  {
    hide Volume.Geometry.GroupsOk, FreshBlock, Loc.Valid, Loc.Base, Loc.Rest, Volume.Geometry.IsMetadata;
    FreshTreeIs();
    assert !GEO.BadBlock(ROOT_BLOCK) by { RootBlockOk(); }
  }

  lemma RootBlockOk()
    requires GEO.Sane()
    ensures !GEO.BadBlock(ROOT_BLOCK)
  {
    assert GEO.GroupOf(8) == 0;
    assert GEO.Metadata(0) == [Extent(1, 2), Extent(3, 1), Extent(4, 1), Extent(5, 3)];
  }

  lemma FreshSizes()
    requires GEO.Sane()
    ensures Bounded(GEO, FreshTree()) && BlocksAgree(GEO, FreshInodes(), FreshTree())
    ensures InsideSize(GEO, FreshInodes(), FreshTree()) && SizesFit(GEO, FreshInodes())
  {
    hide FreshBlock, FileLimit.MaxBlocks, Loc.Valid, Loc.Base, Loc.Rest;
    MaxBlocksAre();
    FreshTreeIs();
    assert Nodes(FreshTree(), ROOT) == {Root(ROOT, 0)};
    assert Times(1, 2) == 2;
  }

  lemma FreshInodeUsed(disk: map<nat, Bytes>, x: nat)
    requires GEO.Wf() && DiskOk(GEO, disk) && 4 in disk && disk[4] == InodeBitmap() && 1 <= x <= 24
    ensures InodeUsed(GEO, disk, x) <==> x <= 10
  {
    hide Bitmap.Test, BlockBitmap, InodeBitmap, Volume.Geometry.GroupsOk, Volume.Geometry.Sane, DiskOk;
    assert InodeGroup(GEO, x) == 0 && InodeIndex(GEO, x) == x - 1;
    FreshBits(x - 1);
    assert GEO.descs[0].inodeBitmap == 4;
    assert InodeBits(GEO, disk, 0) == InodeBitmap();
  }

  lemma FreshUse()
    requires GEO.Wf() && DiskOk(GEO, FreshDisk())
    ensures UsedInodes(GEO, FreshDisk()) == Busy(GEO, FreshInodes())
  {
    hide BlockBitmap, InodeBitmap, Volume.Geometry.GroupsOk, Volume.Geometry.Sane, DiskOk, InodeUsed, FreshDisk,
         NoPtrs;
    FreshBitmaps();
    assert GEO.inodesCount == 24 && GEO.firstIno == 11;
    forall x: nat | 1 <= x <= 24
      ensures InodeUsed(GEO, FreshDisk(), x) <==> x <= 10
    {
      FreshInodeUsed(FreshDisk(), x);
    }
  }

  lemma FreshDirs()
    ensures DirsIn(GEO, FreshInodes(), 0) == {ROOT} && (forall x :: x in FreshInodes() <==> 1 <= x <= 24)
  {
    hide NoPtrs;
    assert InodeGroup(GEO, ROOT) == 0;
  }

  ghost function FreshLeaves(): map<Loc, Bytes> {
    Leaves(FreshDisk(), FreshTree())
  }

  lemma FreshRoot()
    requires GEO.Wf()
    ensures DirSound(GEO, FreshLeaves(), FreshInodes(), ROOT)
    ensures DirEntries(GEO, FreshLeaves(), FreshInodes(), ROOT) == map[Dirent.DOT := ROOT, Dirent.DOTDOT := ROOT]
    ensures TypeIs(GEO, FreshLeaves(), FreshInodes(), ROOT, Dirent.DOT, Dirent.TypeByte(Directory))
            && TypeIs(GEO, FreshLeaves(), FreshInodes(), ROOT, Dirent.DOTDOT, Dirent.TypeByte(Directory))
  {
    hide Dirent.InitDir, DirSound, DirEntries, Loc.Valid, Loc.Base, Loc.Rest, LeafFor, Reach,
         Volume.Geometry.GroupsOk;
    var at := Root(ROOT, 0);
    FreshTreeIs();
    LeafIsFor(at, 256);
    assert FreshLeaves()[at] == Dirent.InitDir(1024, ROOT, ROOT, true);
    assert BlockOf(GEO, FreshLeaves(), ROOT, 0) == Dirent.InitDir(1024, ROOT, ROOT, true);
    NewDirSound(GEO, FreshLeaves(), FreshInodes(), ROOT, ROOT);
    NewDirTyped(GEO, FreshLeaves(), ROOT, ROOT);
  }

  const FRESH_NAMES: Ns := Ns(map[ROOT := Directory], map[ROOT := 2], map[ROOT := ROOT], map[])

  lemma FreshNames()
    requires GEO.Wf()
    ensures DirsOk(GEO, FreshLeaves(), FreshInodes()) && NsOf(GEO, FreshLeaves(), FreshInodes()) == FRESH_NAMES
  {
    hide DirSound, DirEntries, FreshLeaves, NsOf;
    FreshRoot();
    forall x: nat
      ensures NsAt(GEO, FreshLeaves(), FreshInodes(), FRESH_NAMES, x)
    {
    }
    NsUnique(GEO, FreshLeaves(), FreshInodes(), FRESH_NAMES);
  }

  lemma FreshTypes()
    requires GEO.Wf() && GEO.Sane()
    ensures TypesOk(GEO, FreshLeaves(), FreshInodes())
  {
    hide DirSound, DirEntries, FreshLeaves, DotsTyped;
    FreshRoot();
    forall d: nat, m: Dirent.Name
      ensures EntryTyped(GEO, FreshLeaves(), FreshInodes(), d, m)
    {
    }
  }

  lemma FreshNamesOk()
    ensures NsOk(FRESH_NAMES)
  {
    assert Climb(FRESH_NAMES.up, ROOT, 0) == ROOT;
    assert Subdirs(FRESH_NAMES.up, ROOT) == {};
  }

  /** A volume with an empty root directory. */
  method Format() returns (fs: Ext2)
    ensures VolumeOk(fs) && NamesOn(fs) == FRESH_NAMES && TypesOn(fs)
  {
    hide TypesOk, Bitmap.ClearCount, TreeOk, Conserved, Bounded, BlocksAgree, InsideSize, SizesFit, DirsOk, NsOf,
         NsOk, FreshDisk, FreshInodes, FreshTree, UsedInodes, Busy, DirsIn;
    GeoOk();
    FreshDiskOk();
    FreshUsed();
    FreshTreeOk();
    FreshSizes();
    FreshUse();
    FreshDirs();
    FreshNames();
    FreshNamesOk();
    FreshTypes();
    var free := Bitmap.ClearCount(BlockBits(GEO, FreshDisk(), 0), GEO.GroupBlocks(0));
    var freeInodes := Bitmap.ClearCount(InodeBits(GEO, FreshDisk(), 0), 24);
    SumOne(free);
    SumOne(freeInodes);
    fs := new Ext2(GEO, FreshDisk(), [free], free, [freeInodes], freeInodes, [1], FreshInodes(), FreshTree());
  }
}

/** The state of a mounted ext2 filesystem: its geometry (crates/ext2/src/superblock.rs), the
    fixed and the counting fields of its group descriptors (crates/ext2/src/group.rs), its
    inodes and the contents of its blocks. */
module Volume {
  import opened Wrappers
  import opened Le
  import opened Arith
  import opened BlockPath

  // ----- geometry -----

  /** The fixed fields of a group descriptor. */
  datatype Desc = Desc(blockBitmap: nat, inodeBitmap: nat, inodeTable: nat)

  /** A run of blocks, empty with `len` 0. */
  datatype Extent = Extent(first: nat, len: nat) {
    predicate Has(b: nat) {
      first <= b < first + len
    }

    predicate Overlaps(e: Extent) {
      len > 0 && e.len > 0 && first < e.first + e.len && e.first < first + len
    }
  }

  datatype Geometry = Geometry(
    blockSize: nat,
    blocksCount: nat,
    inodesCount: nat,
    firstDataBlock: nat,
    blocksPerGroup: nat,
    inodesPerGroup: nat,
    firstIno: nat,
    groups: nat,
    inodeTableBlocks: nat,
    superBlocks: seq<nat>,  // per group: its superblock and descriptor copy, 0 without one
    descs: seq<Desc>,
    filetype: bool
  ) {
    /** What the superblock checks of a mount establish. */
    predicate Sane() {
      && (blockSize == 1024 || blockSize == 2048 || blockSize == 4096)
      && firstDataBlock == (if blockSize == 1024 then 1 else 0)
      && firstDataBlock < blocksCount < 0x1_0000_0000
      && 8 <= blocksPerGroup <= 8 * blockSize
      && 0 < inodesPerGroup <= 8 * blockSize
      && 0 < groups && GroupStart(groups - 1) < blocksCount <= GroupStart(groups)
      && inodesCount == Times(groups, inodesPerGroup) < 0x1_0000_0000
      && 2 < firstIno <= inodesCount
      && |superBlocks| == groups && |descs| == groups && superBlocks[0] > 0
    }

    /** Pointers per indirect block. */
    function P(): nat {
      blockSize / 4
    }

    /** The first block of group `g`. */
    function GroupStart(g: nat): nat {
      firstDataBlock + Times(g, blocksPerGroup)
    }

    /** The blocks in group `g`: the last group may be short. */
    function GroupBlocks(g: nat): int {
      if blocksCount - GroupStart(g) < blocksPerGroup then blocksCount - GroupStart(g) else blocksPerGroup
    }

    function GroupOf(block: nat): nat
      requires blocksPerGroup > 0 && firstDataBlock <= block
    {
      Quot(block - firstDataBlock, blocksPerGroup)
    }

    function IndexOf(block: nat): nat
      requires blocksPerGroup > 0 && firstDataBlock <= block
    {
      Rem(block - firstDataBlock, blocksPerGroup)
    }

    /** Group `g`'s superblock and descriptor copy, bitmaps and inode table. */
    function Metadata(g: nat): (parts: seq<Extent>)
      requires g < |descs| && g < |superBlocks|
    {
      [Extent(GroupStart(g), superBlocks[g]),
       Extent(descs[g].blockBitmap, 1),
       Extent(descs[g].inodeBitmap, 1),
       Extent(descs[g].inodeTable, inodeTableBlocks)]
    }

    /** Whether `block` holds metadata, or lies before the first group. */
    predicate IsMetadata(block: nat)
      requires Sane()
    {
      block < firstDataBlock ||
      (GroupOf(block) < groups && exists e :: e in Metadata(GroupOf(block)) && e.Has(block))
    }

    /** Outside the filesystem or into its metadata: no file's block. */
    predicate BadBlock(block: nat)
      requires Sane()
    {
      block >= blocksCount || IsMetadata(block)
    }

    /** Every part of group `g`'s metadata inside the group, no two overlapping. */
    predicate GroupOk(g: nat)
      requires Sane() && g < groups
    {
      && (forall k :: 0 <= k < 4 ==>
            && GroupStart(g) <= Metadata(g)[k].first
            && Metadata(g)[k].first + Metadata(g)[k].len <= GroupStart(g) + GroupBlocks(g))
      && (forall k, m :: 0 <= k < m < 4 ==> !Metadata(g)[k].Overlaps(Metadata(g)[m]))
    }

    /** What `group::check` accepts, of the first `n` groups. */
    predicate GroupsOk(n: nat)
      requires Sane() && n <= groups
    {
      n == 0 || (GroupsOk(n - 1) && GroupOk(n - 1))
    }

    lemma {:induction false} EachGroupOk(n: nat, g: nat)
      requires Sane() && g < n <= groups && GroupsOk(n)
      ensures GroupOk(g)
    {
      if g < n - 1 { EachGroupOk(n - 1, g); }
    }

    predicate Wf() {
      Sane() && GroupsOk(groups)
    }

    lemma GroupInside(g: nat)
      requires Sane() && g < groups
      ensures 0 < GroupBlocks(g) <= blocksPerGroup
      ensures GroupStart(g) + GroupBlocks(g) <= blocksCount
    {
      TimesMono(g, groups - 1, blocksPerGroup);
    }

    /** Block numbers are group and index, one to one. */
    lemma BlockAt(g: nat, i: nat)
      requires Sane() && g < groups && i < GroupBlocks(g)
      ensures firstDataBlock <= GroupStart(g) + i < blocksCount
      ensures GroupOf(GroupStart(g) + i) == g && IndexOf(GroupStart(g) + i) == i
    {
      GroupInside(g);
      QuotOf(g, blocksPerGroup, i);
    }

    lemma BlockSplits(block: nat)
      requires Sane() && firstDataBlock <= block < blocksCount
      ensures GroupOf(block) < groups && IndexOf(block) < GroupBlocks(GroupOf(block))
      ensures block == GroupStart(GroupOf(block)) + IndexOf(block)
    {
      var r := block - firstDataBlock;
      QuotRem(r, blocksPerGroup);
      if groups <= GroupOf(block) {
        TimesMono(groups, GroupOf(block), blocksPerGroup);
      }
    }

    lemma PartIsMetadata(g: nat, k: nat, block: nat)
      requires Wf() && g < groups && k < 4 && Metadata(g)[k].Has(block)
      ensures firstDataBlock <= block < blocksCount && GroupOf(block) == g && IsMetadata(block)
    {
      EachGroupOk(groups, g);
      GroupInside(g);
      BlockAt(g, block - GroupStart(g));
      assert Metadata(g)[k] in Metadata(g);
    }
  }

  // ----- inodes -----

  datatype FileType = Regular | Directory | CharDev | BlockDev | Fifo | Socket | Symlink

  /** The fields of an inode the driver works with; `links` 0 while not in use. */
  datatype Inode = Inode(
    ino: nat,
    kind: FileType,
    size: nat,
    links: nat,
    blocks: nat,      // space used in 512-byte units, indirect blocks included
    ptrs: seq<nat>    // the fifteen entries of `i_block`
  ) {
    predicate InUse() {
      links > 0
    }

    /** `i_block` holds block pointers. */
    predicate HasTree() {
      InUse() && (kind == Regular || kind == Directory)
    }
  }

  // ----- the mounted filesystem -----

  /** `disk` is the content of the block cache: what `BlockCache.Content` gives for each block. */
  class Ext2 {
    const geo: Geometry
    var disk: map<nat, Bytes>
    var freeBlocks: seq<nat>        // per group
    var freeBlocksTotal: nat        // in the superblock
    var freeInodes: seq<nat>        // per group
    var freeInodesTotal: nat        // in the superblock
    var usedDirs: seq<nat>          // per group
    var inodes: map<nat, Inode>     // the inode tables
    var readOnly: bool

    /** The inodes as the operation in progress sees them: its own copies, not yet written
        back, over the stored ones. */
    ghost var live: map<nat, Inode>
    /** Every block of every file, by its place in the pointer trees. */
    ghost var tree: map<Loc, nat>

    /** A filesystem as mounted for writing. */
    constructor (geo: Geometry, disk: map<nat, Bytes>, freeBlocks: seq<nat>, freeBlocksTotal: nat, freeInodes: seq<nat>,
                 freeInodesTotal: nat, usedDirs: seq<nat>, inodes: map<nat, Inode>, ghost tree: map<Loc, nat>)
      ensures this.geo == geo && this.disk == disk && this.freeBlocks == freeBlocks
              && this.freeBlocksTotal == freeBlocksTotal
      ensures this.freeInodes == freeInodes && this.freeInodesTotal == freeInodesTotal && this.usedDirs == usedDirs
      ensures this.inodes == this.live == inodes && this.tree == tree && !readOnly
    {
      this.geo, this.disk, this.freeBlocks, this.freeBlocksTotal := geo, disk, freeBlocks, freeBlocksTotal;
      this.freeInodes, this.freeInodesTotal, this.usedDirs := freeInodes, freeInodesTotal, usedDirs;
      this.inodes, this.live, this.tree, readOnly := inodes, inodes, tree, false;
    }
  }
}

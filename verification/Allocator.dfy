/** The allocator (crates/ext2/src/allocator.rs): blocks and inodes through the group bitmaps.
    Every change updates the free counts in the group descriptor and the superblock. */
module Allocator {
  import opened Wrappers
  import opened Le
  import opened Arith
  import Bitmap
  import opened Volume

  // ----- what the bitmaps say -----

  /** Every block of the filesystem has its contents, a block long. */
  ghost predicate DiskOk(geo: Geometry, disk: map<nat, Bytes>) {
    && (forall b: nat :: b in disk <==> b < geo.blocksCount)
    && (forall b: nat :: b in disk ==> |disk[b]| == geo.blockSize)
  }

  function BlockBits(geo: Geometry, disk: map<nat, Bytes>, g: nat): (bits: Bytes)
    requires geo.Wf() && DiskOk(geo, disk) && g < geo.groups
    ensures |bits| == geo.blockSize && 0 < geo.GroupBlocks(g) <= 8 * |bits|
  {
    geo.GroupInside(g);
    geo.PartIsMetadata(g, 1, geo.descs[g].blockBitmap);
    disk[geo.descs[g].blockBitmap]
  }

  /** Whether the bitmaps mark `b` in use. */
  predicate BlockUsed(geo: Geometry, disk: map<nat, Bytes>, b: nat)
    requires geo.Wf() && DiskOk(geo, disk) && geo.firstDataBlock <= b < geo.blocksCount
  {
    geo.BlockSplits(b);
    Bitmap.Test(BlockBits(geo, disk, geo.GroupOf(b)), geo.IndexOf(b))
  }

  /** The blocks marked in use. */
  ghost function Used(geo: Geometry, disk: map<nat, Bytes>): set<nat>
    requires geo.Wf() && DiskOk(geo, disk)
  {
    set b: nat | geo.firstDataBlock <= b < geo.blocksCount && BlockUsed(geo, disk, b)
  }

  /** The metadata blocks of the groups. */
  ghost function MetaBlocks(geo: Geometry): set<nat>
    requires geo.Wf()
  {
    set b: nat | geo.firstDataBlock <= b < geo.blocksCount && geo.IsMetadata(b)
  }

  function Sum(s: seq<nat>): nat {
    if s == [] then 0 else Sum(s[..|s| - 1]) + s[|s| - 1]
  }

  lemma {:induction false} SumUpdate(s: seq<nat>, g: nat, v: nat)
    requires g < |s|
    ensures Sum(s[g := v]) == Sum(s) - s[g] + v
  {
    var t := s[g := v];
    if g < |s| - 1 {
      SumUpdate(s[..|s| - 1], g, v);
      assert t[..|s| - 1] == s[..|s| - 1][g := v];
    } else {
      assert t[..|s| - 1] == s[..|s| - 1];
    }
  }

  lemma {:induction false} SumZero(s: seq<nat>)
    ensures Sum(s) == 0 <==> forall g :: 0 <= g < |s| ==> s[g] == 0
  {
    if s != [] { SumZero(s[..|s| - 1]); }
  }

  /** Each group's free count is its clear bits, the superblock's is their sum. */
  ghost predicate BlockCountsOk(geo: Geometry, disk: map<nat, Bytes>, free: seq<nat>, total: nat)
    requires geo.Wf() && DiskOk(geo, disk)
  {
    && |free| == geo.groups
    && (forall g :: 0 <= g < geo.groups ==>
          free[g] == Bitmap.ClearCount(BlockBits(geo, disk, g), geo.GroupBlocks(g)))
    && total == Sum(free)
  }

  /** A count kept between 0 and `max`. */
  function Clamp(n: int, max: nat): nat {
    if n < 0 then 0 else if n > max then max else n
  }

  // ----- changing one bit of the block bitmaps -----

  function WithBlockBits(geo: Geometry, disk: map<nat, Bytes>, g: nat, bits: Bytes): map<nat, Bytes>
    requires geo.Wf() && g < geo.groups
  {
    disk[geo.descs[g].blockBitmap := bits]
  }

  /** A group's block bitmap is written without touching another group's, nor any block that is
      not metadata. */
  lemma WithBlockBitsOk(geo: Geometry, disk: map<nat, Bytes>, g: nat, bits: Bytes)
    requires geo.Wf() && DiskOk(geo, disk) && g < geo.groups && |bits| == geo.blockSize
    ensures DiskOk(geo, WithBlockBits(geo, disk, g, bits))
    ensures forall h :: 0 <= h < geo.groups ==>
              BlockBits(geo, WithBlockBits(geo, disk, g, bits), h) == if h == g then bits else BlockBits(geo, disk, h)
    ensures geo.IsMetadata(geo.descs[g].blockBitmap)
  {
    geo.PartIsMetadata(g, 1, geo.descs[g].blockBitmap);
    forall h | 0 <= h < geo.groups && h != g
      ensures geo.descs[h].blockBitmap != geo.descs[g].blockBitmap
    {
      geo.PartIsMetadata(h, 1, geo.descs[h].blockBitmap);
    }
  }

  lemma SetBlockBit(geo: Geometry, disk: map<nat, Bytes>, free: seq<nat>, total: nat, b: nat)
    requires geo.Wf() && DiskOk(geo, disk) && geo.firstDataBlock <= b < geo.blocksCount
    requires !BlockUsed(geo, disk, b)
    ensures var g := geo.GroupOf(b);
            g < geo.groups && geo.IndexOf(b) < 8 * geo.blockSize
    ensures var g := geo.GroupOf(b);
            var disk' := WithBlockBits(geo, disk, g, Bitmap.Set(BlockBits(geo, disk, g), geo.IndexOf(b)));
            DiskOk(geo, disk') && Used(geo, disk') == Used(geo, disk) + {b} &&
            (BlockCountsOk(geo, disk, free, total) ==>
               total > 0 && free[g] > 0 && BlockCountsOk(geo, disk', free[g := free[g] - 1], total - 1))
  {
    hide Bitmap.Test, Volume.Geometry.GroupOk, Volume.Geometry.Metadata;
    geo.BlockSplits(b);
    var g, i := geo.GroupOf(b), geo.IndexOf(b);
    var bits := BlockBits(geo, disk, g);
    var bits' := Bitmap.Set(bits, i);
    WithBlockBitsOk(geo, disk, g, bits');
    var disk' := WithBlockBits(geo, disk, g, bits');
    forall c: nat | geo.firstDataBlock <= c < geo.blocksCount
      ensures BlockUsed(geo, disk', c) <==> c == b || BlockUsed(geo, disk, c)
    {
      geo.BlockSplits(c);
    }
    if BlockCountsOk(geo, disk, free, total) {
      Bitmap.SetCount(bits, geo.GroupBlocks(g), i);
      SumUpdate(free, g, free[g] - 1);
    }
  }

  lemma ClearBlockBit(geo: Geometry, disk: map<nat, Bytes>, free: seq<nat>, total: nat, b: nat)
    requires geo.Wf() && DiskOk(geo, disk) && geo.firstDataBlock <= b < geo.blocksCount
    requires BlockUsed(geo, disk, b)
    ensures var g := geo.GroupOf(b);
            g < geo.groups && geo.IndexOf(b) < 8 * geo.blockSize
    ensures var g := geo.GroupOf(b);
            var disk' := WithBlockBits(geo, disk, g, Bitmap.Clear(BlockBits(geo, disk, g), geo.IndexOf(b)));
            DiskOk(geo, disk') && Used(geo, disk') == Used(geo, disk) - {b} &&
            (BlockCountsOk(geo, disk, free, total) ==>
               BlockCountsOk(geo, disk', free[g := free[g] + 1], total + 1))
  {
    hide Bitmap.Test, Volume.Geometry.GroupOk, Volume.Geometry.Metadata;
    geo.BlockSplits(b);
    var g, i := geo.GroupOf(b), geo.IndexOf(b);
    var bits := BlockBits(geo, disk, g);
    var bits' := Bitmap.Clear(bits, i);
    WithBlockBitsOk(geo, disk, g, bits');
    var disk' := WithBlockBits(geo, disk, g, bits');
    forall c: nat | geo.firstDataBlock <= c < geo.blocksCount
      ensures BlockUsed(geo, disk', c) <==> c != b && BlockUsed(geo, disk, c)
    {
      geo.BlockSplits(c);
      if geo.GroupOf(c) == g && geo.IndexOf(c) == i { assert c == b; }
    }
    if BlockCountsOk(geo, disk, free, total) {
      Bitmap.ClearCountUp(bits, geo.GroupBlocks(g), i);
      SumUpdate(free, g, free[g] + 1);
    }
  }

  // ----- blocks -----

  ghost predicate IsBlockBitmap(geo: Geometry, b: nat) {
    exists g :: 0 <= g < |geo.descs| && geo.descs[g].blockBitmap == b
  }

  /** `disk'` is `disk` with other block bitmaps. */
  ghost predicate OnlyBlockBits(geo: Geometry, disk: map<nat, Bytes>, disk': map<nat, Bytes>) {
    && disk'.Keys == disk.Keys
    && forall b :: b in disk && !IsBlockBitmap(geo, b) ==> disk'[b] == disk[b]
  }

  /** Block bitmaps are metadata, and never an inode bitmap. */
  lemma BlockBitmapsApart(geo: Geometry)
    requires geo.Wf()
    ensures forall b: nat :: IsBlockBitmap(geo, b) ==> geo.IsMetadata(b)
    ensures forall g :: 0 <= g < geo.groups ==>
              geo.descs[g].inodeBitmap < geo.blocksCount && !IsBlockBitmap(geo, geo.descs[g].inodeBitmap)
  {
    forall g | 0 <= g < geo.groups
      ensures geo.IsMetadata(geo.descs[g].blockBitmap)
    {
      geo.PartIsMetadata(g, 1, geo.descs[g].blockBitmap);
    }
    forall g, h | 0 <= g < geo.groups && 0 <= h < geo.groups
      ensures geo.descs[g].inodeBitmap < geo.blocksCount && geo.descs[g].inodeBitmap != geo.descs[h].blockBitmap
    {
      geo.PartIsMetadata(g, 2, geo.descs[g].inodeBitmap);
      geo.PartIsMetadata(h, 1, geo.descs[h].blockBitmap);
      if g == h {
        geo.EachGroupOk(geo.groups, g);
        assert !geo.Metadata(g)[1].Overlaps(geo.Metadata(g)[2]);
      }
    }
  }

  /** The group searched after `step` others, from `first` on. */
  function Turn(first: nat, step: nat, groups: nat): (g: nat)
    requires groups > 0
    ensures g < groups
  {
    (first + step) % groups
  }

  lemma TurnStart(first: nat, groups: nat)
    requires first < groups
    ensures Turn(first, 0, groups) == first
  {
    SmallMod(first, groups);
  }

  /** A search from any group comes round to every group. */
  lemma TurnReaches(first: nat, groups: nat, g: nat)
    requires first < groups && g < groups
    ensures exists step :: 0 <= step < groups && Turn(first, step, groups) == g
  {
    TurnSteps(first, g, groups);
  }

  /** Nothing to be had from a group: its count says so, or its bitmap does. */
  ghost predicate Exhausted(geo: Geometry, disk: map<nat, Bytes>, free: seq<nat>, g: nat)
    requires geo.Wf() && DiskOk(geo, disk) && |free| == geo.groups && g < geo.groups
  {
    free[g] == 0 || Bitmap.ClearCount(BlockBits(geo, disk, g), geo.GroupBlocks(g)) == 0
  }

  /** The goal, moved into the filesystem. */
  function Aim(geo: Geometry, goal: nat): (b: nat)
    requires geo.Sane()
    ensures geo.firstDataBlock <= b < geo.blocksCount
  {
    if goal < geo.firstDataBlock then geo.firstDataBlock
    else if goal >= geo.blocksCount then geo.blocksCount - 1
    else goal
  }

  /** `b` is the first free block from `aim` on: in its group, going round, or the first of the next group
      that has one. */
  ghost predicate Nearest(geo: Geometry, disk: map<nat, Bytes>, free: seq<nat>, aim: nat, b: nat)
    requires geo.Wf() && DiskOk(geo, disk) && |free| == geo.groups
    requires geo.firstDataBlock <= aim < geo.blocksCount && geo.firstDataBlock <= b < geo.blocksCount
  {
    geo.BlockSplits(b);
    geo.BlockSplits(aim);
    exists step :: 0 <= step < geo.groups && IsTurn(geo, disk, free, geo.GroupOf(aim), geo.GroupOf(b), step) &&
      Bitmap.FirstFrom(BlockBits(geo, disk, geo.GroupOf(b)), geo.GroupBlocks(geo.GroupOf(b)),
                       if step == 0 then geo.IndexOf(aim) else 0, geo.IndexOf(b))
  }

  /** Group `g` comes after `step` others from `first` on, none of which has anything. */
  ghost predicate IsTurn(geo: Geometry, disk: map<nat, Bytes>, free: seq<nat>, first: nat, g: nat, step: nat)
    requires geo.Wf() && DiskOk(geo, disk) && |free| == geo.groups
  {
    Turn(first, step, geo.groups) == g
        && forall k :: 0 <= k < step ==> Exhausted(geo, disk, free, Turn(first, k, geo.groups))
  }

  /** How many groups the search looks at before `g`, from `first` on. */
  function Steps(first: nat, g: nat, groups: nat): nat
    requires first < groups && g < groups
  {
    if first <= g then g - first else g + groups - first
  }

  /** A search from `aim` on looks at block `x` before block `b`: it goes round in the group of `aim`, then
      through the following groups, each from its start. */
  ghost predicate Sooner(geo: Geometry, aim: nat, x: nat, b: nat)
    requires geo.Sane() && geo.firstDataBlock <= aim < geo.blocksCount
    requires geo.firstDataBlock <= x < geo.blocksCount && geo.firstDataBlock <= b < geo.blocksCount
  {
    geo.BlockSplits(aim);
    geo.BlockSplits(x);
    geo.BlockSplits(b);
    var g, h, k := geo.GroupOf(aim), geo.GroupOf(x), geo.GroupOf(b);
    var from, i, j := geo.IndexOf(aim), geo.IndexOf(x), geo.IndexOf(b);
    if h != k then Steps(g, h, geo.groups) < Steps(g, k, geo.groups)
    else if k != g then i < j
    else if from <= j then from <= i < j
    else from <= i || i < j
  }

  /** `b` is the unused block a search from `aim` on comes to first. */
  ghost predicate Closest(geo: Geometry, used: set<nat>, aim: nat, b: nat)
    requires geo.Sane() && geo.firstDataBlock <= aim < geo.blocksCount
  {
    && geo.firstDataBlock <= b < geo.blocksCount && b !in used
    && forall x: nat :: geo.firstDataBlock <= x < geo.blocksCount && Sooner(geo, aim, x, b) ==> x in used
  }

  /** With counts that agree with the bitmaps, the block found is the closest. */
  lemma NearestIsClosest(geo: Geometry, disk: map<nat, Bytes>, free: seq<nat>, total: nat, aim: nat, b: nat)
    requires geo.Wf() && DiskOk(geo, disk) && BlockCountsOk(geo, disk, free, total)
    requires geo.firstDataBlock <= aim < geo.blocksCount && geo.firstDataBlock <= b < geo.blocksCount
    requires Nearest(geo, disk, free, aim, b)
    ensures Closest(geo, Used(geo, disk), aim, b)
  {
    hide Bitmap.Test, Bitmap.ClearCount, Turn, Volume.Geometry.GroupsOk, Volume.Geometry.Metadata;
    geo.BlockSplits(aim);
    geo.BlockSplits(b);
    var g, k := geo.GroupOf(aim), geo.GroupOf(b);
    var step :| 0 <= step < geo.groups && IsTurn(geo, disk, free, g, k, step) &&
      Bitmap.FirstFrom(BlockBits(geo, disk, k), geo.GroupBlocks(k),
                       if step == 0 then geo.IndexOf(aim) else 0, geo.IndexOf(b));
    StepsTurn(g, k, step, geo.groups);
    forall x: nat | geo.firstDataBlock <= x < geo.blocksCount && Sooner(geo, aim, x, b)
      ensures x in Used(geo, disk)
    {
      geo.BlockSplits(x);
      var h := geo.GroupOf(x);
      if h != k {
        TurnSteps(g, h, geo.groups);
        assert Exhausted(geo, disk, free, Turn(g, Steps(g, h, geo.groups), geo.groups));
        Bitmap.CountZero(BlockBits(geo, disk, h), geo.GroupBlocks(h));
      }
      assert Bitmap.Test(BlockBits(geo, disk, h), geo.IndexOf(x));
    }
  }

  lemma TurnSteps(first: nat, g: nat, groups: nat)
    requires first < groups && g < groups
    ensures Steps(first, g, groups) < groups && Turn(first, Steps(first, g, groups), groups) == g
  {
    if first <= g { SmallMod(g, groups); } else { Digits(1, 0, g, 1, groups); }
  }

  lemma StepsTurn(first: nat, g: nat, step: nat, groups: nat)
    requires first < groups && step < groups && Turn(first, step, groups) == g
    ensures g < groups && Steps(first, g, groups) == step
  {
    if first + step < groups { SmallMod(first + step, groups); }
    else { Digits(1, 0, first + step - groups, 1, groups); }
  }

  /** A free goal is what is found. */
  lemma ClosestIsAim(geo: Geometry, used: set<nat>, aim: nat, b: nat)
    requires geo.Sane() && geo.firstDataBlock <= aim < geo.blocksCount
    requires Closest(geo, used, aim, b) && aim !in used
    ensures b == aim
  {
    geo.BlockSplits(aim);
    geo.BlockSplits(b);
    if b != aim { assert Sooner(geo, aim, aim, b); }
  }

  /** The search of `alloc_block`: from the goal on in its group, wrapping, then in the following
      groups. A bitmap that offers a metadata block is corrupt. */
  method FindFree(geo: Geometry, disk: map<nat, Bytes>, free: seq<nat>, goal: nat) returns (r: Result<nat>)
    requires geo.Wf() && DiskOk(geo, disk) && |free| == geo.groups
    ensures r.Ok? ==>
              && geo.firstDataBlock <= r.value < geo.blocksCount
              && !geo.IsMetadata(r.value) && !BlockUsed(geo, disk, r.value)
    ensures r.Err? ==>
              || (r.error == EIO && !(MetaBlocks(geo) <= Used(geo, disk)))
              || (r.error == ENOSPC && forall g :: 0 <= g < geo.groups ==> Exhausted(geo, disk, free, g))
    ensures geo.firstDataBlock <= goal < geo.blocksCount ==> geo.GroupOf(goal) < geo.groups
    ensures r.Ok? ==> Nearest(geo, disk, free, Aim(geo, goal), r.value)
    // A free goal is what is found.
    ensures (geo.firstDataBlock <= goal < geo.blocksCount && !geo.IsMetadata(goal) &&
             !BlockUsed(geo, disk, goal) && free[geo.GroupOf(goal)] > 0) ==> r == Ok(goal)
  {
    hide Bitmap.Test, Bitmap.ClearCount, Turn, Volume.Geometry.GroupsOk, Volume.Geometry.Metadata,
         Volume.Geometry.IsMetadata;
    var goal' := Aim(geo, goal);
    geo.BlockSplits(goal');
    var first, index := geo.GroupOf(goal'), geo.IndexOf(goal');
    TurnStart(first, geo.groups);
    for step := 0 to geo.groups
      invariant forall k :: 0 <= k < step ==> Exhausted(geo, disk, free, Turn(first, k, geo.groups))
      invariant step > 0 && goal == goal' && free[first] > 0 ==> BlockUsed(geo, disk, goal)
    {
      var g := Turn(first, step, geo.groups);
      if free[g] == 0 {
        continue;
      }
      var bits := BlockBits(geo, disk, g);
      Bitmap.CountZero(bits, geo.GroupBlocks(g));
      var found := Bitmap.FindZero(bits, geo.GroupBlocks(g), if step == 0 then index else 0);
      if found.None? {
        continue;
      }
      geo.BlockAt(g, found.value);
      var block := geo.GroupStart(g) + found.value;
      assert IsTurn(geo, disk, free, first, g, step);
      if step == 0 && goal == goal' && !BlockUsed(geo, disk, goal) {
        assert found.value == index && block == goal;
      }
      if geo.IsMetadata(block) {
        assert block in MetaBlocks(geo) && block !in Used(geo, disk);
        return Err(EIO);
      }
      return Ok(block);
    }
    forall g | 0 <= g < geo.groups
      ensures Exhausted(geo, disk, free, g)
    {
      TurnReaches(first, geo.groups, g);
    }
    return Err(ENOSPC);
  }

  /** With counts that agree with the bitmaps, groups are exhausted only when nothing is free. */
  lemma ExhaustedIsFull(geo: Geometry, disk: map<nat, Bytes>, free: seq<nat>, total: nat)
    requires geo.Wf() && DiskOk(geo, disk) && BlockCountsOk(geo, disk, free, total)
    requires forall g :: 0 <= g < geo.groups ==> Exhausted(geo, disk, free, g)
    ensures total == 0
  {
    forall g | 0 <= g < geo.groups
      ensures free[g] == 0
    {
      assert Exhausted(geo, disk, free, g);
    }
    SumZero(free);
  }

  /** Allocates a block near `goal`. */
  method AllocBlock(fs: Ext2, goal: nat) returns (r: Result<nat>)
    requires fs.geo.Wf() && DiskOk(fs.geo, fs.disk) && |fs.freeBlocks| == fs.geo.groups
    modifies fs`disk, fs`freeBlocks, fs`freeBlocksTotal
    ensures r.Err? ==>
            fs.disk == old(fs.disk) && fs.freeBlocks == old(fs.freeBlocks)
            && fs.freeBlocksTotal == old(fs.freeBlocksTotal)
    ensures DiskOk(fs.geo, fs.disk) && |fs.freeBlocks| == fs.geo.groups
    ensures OnlyBlockBits(fs.geo, old(fs.disk), fs.disk)
    ensures r.Ok? ==> fs.geo.firstDataBlock <= r.value < fs.geo.blocksCount && !fs.geo.IsMetadata(r.value)
    ensures r.Ok? ==> r.value !in Used(fs.geo, old(fs.disk))
    ensures r.Ok? ==> Nearest(fs.geo, old(fs.disk), old(fs.freeBlocks), Aim(fs.geo, goal), r.value)
    ensures r.Ok? ==> Used(fs.geo, fs.disk) == Used(fs.geo, old(fs.disk)) + {r.value}
    // With counts that agree with the bitmaps it fails only when nothing is left.
    ensures old(BlockCountsOk(fs.geo, fs.disk, fs.freeBlocks, fs.freeBlocksTotal)) ==>
              && BlockCountsOk(fs.geo, fs.disk, fs.freeBlocks, fs.freeBlocksTotal)
              && (r.Ok? ==> fs.freeBlocksTotal == old(fs.freeBlocksTotal) - 1)
              && (r.Ok? ==> Closest(fs.geo, Used(fs.geo, old(fs.disk)), Aim(fs.geo, goal), r.value))
              && (MetaBlocks(fs.geo) <= Used(fs.geo, old(fs.disk)) ==>
                    (r.Ok? <==> old(fs.freeBlocksTotal) > 0) && (r.Err? ==> r.error == ENOSPC))
  {
    hide Bitmap.Test, Volume.Geometry.GroupsOk, Volume.Geometry.Metadata, Volume.Geometry.IsMetadata, Closest,
         Nearest, Aim;
    var geo := fs.geo;
    if fs.freeBlocksTotal == 0 {
      return Err(ENOSPC);
    }
    r := FindFree(geo, fs.disk, fs.freeBlocks, goal);
    if r.Err? {
      if BlockCountsOk(geo, fs.disk, fs.freeBlocks, fs.freeBlocksTotal) && r.error == ENOSPC &&
         forall g :: 0 <= g < geo.groups ==> Exhausted(geo, fs.disk, fs.freeBlocks, g) {
        ExhaustedIsFull(geo, fs.disk, fs.freeBlocks, fs.freeBlocksTotal);
      }
      return;
    }
    var block := r.value;
    SetBlockBit(geo, fs.disk, fs.freeBlocks, fs.freeBlocksTotal, block);
    if BlockCountsOk(geo, fs.disk, fs.freeBlocks, fs.freeBlocksTotal) {
      CountsFit(geo, fs.disk, fs.freeBlocks, fs.freeBlocksTotal);
      NearestIsClosest(geo, fs.disk, fs.freeBlocks, fs.freeBlocksTotal, Aim(geo, goal), block);
    }
    var g := geo.GroupOf(block);
    assert IsBlockBitmap(geo, geo.descs[g].blockBitmap);
    fs.disk := WithBlockBits(geo, fs.disk, g, Bitmap.Set(BlockBits(geo, fs.disk, g), geo.IndexOf(block)));
    CountFreeBlocks(fs, g, -1);
  }

  /** Frees a block. One outside the filesystem, in its metadata or already free is left alone. */
  method FreeBlock(fs: Ext2, block: nat)
    requires fs.geo.Wf() && DiskOk(fs.geo, fs.disk) && |fs.freeBlocks| == fs.geo.groups
    modifies fs`disk, fs`freeBlocks, fs`freeBlocksTotal
    ensures DiskOk(fs.geo, fs.disk) && |fs.freeBlocks| == fs.geo.groups
    ensures OnlyBlockBits(fs.geo, old(fs.disk), fs.disk)
    ensures fs.geo.BadBlock(block) || block !in Used(fs.geo, old(fs.disk)) ==>
              fs.disk == old(fs.disk) && fs.freeBlocks == old(fs.freeBlocks)
                  && fs.freeBlocksTotal == old(fs.freeBlocksTotal)
    ensures !fs.geo.BadBlock(block) ==> Used(fs.geo, fs.disk) == Used(fs.geo, old(fs.disk)) - {block}
    ensures old(BlockCountsOk(fs.geo, fs.disk, fs.freeBlocks, fs.freeBlocksTotal)) ==>
              BlockCountsOk(fs.geo, fs.disk, fs.freeBlocks, fs.freeBlocksTotal)
    ensures !fs.geo.BadBlock(block) && block in Used(fs.geo, old(fs.disk)) &&
            old(BlockCountsOk(fs.geo, fs.disk, fs.freeBlocks, fs.freeBlocksTotal)) ==>
              fs.freeBlocksTotal == old(fs.freeBlocksTotal) + 1
  {
    hide Bitmap.Test, Volume.Geometry.GroupsOk, Volume.Geometry.Metadata;
    var geo := fs.geo;
    if geo.BadBlock(block) {
      return;
    }
    geo.BlockSplits(block);
    var g, i := geo.GroupOf(block), geo.IndexOf(block);
    if !Bitmap.Test(BlockBits(geo, fs.disk, g), i) {
      return;
    }
    ClearBlockBit(geo, fs.disk, fs.freeBlocks, fs.freeBlocksTotal, block);
    assert IsBlockBitmap(geo, geo.descs[g].blockBitmap);
    fs.disk := WithBlockBits(geo, fs.disk, g, Bitmap.Clear(BlockBits(geo, fs.disk, g), i));
    if old(BlockCountsOk(fs.geo, fs.disk, fs.freeBlocks, fs.freeBlocksTotal)) {
      CountsFit(geo, fs.disk, old(fs.freeBlocks)[g := old(fs.freeBlocks)[g] + 1], old(fs.freeBlocksTotal) + 1);
    }
    CountFreeBlocks(fs, g, 1);
  }

  /** Counts that agree with the bitmaps never reach the limits of their fields. */
  lemma CountsFit(geo: Geometry, disk: map<nat, Bytes>, free: seq<nat>, total: nat)
    requires geo.Wf() && DiskOk(geo, disk) && BlockCountsOk(geo, disk, free, total)
    ensures forall g :: 0 <= g < geo.groups ==> free[g] <= U16_MAX
    ensures total <= U32_MAX
  {
    forall g | 0 <= g < geo.groups
      ensures free[g] <= geo.GroupBlocks(g) <= geo.blocksPerGroup
    {
      geo.GroupInside(g);
      Bitmap.CountAtMost(BlockBits(geo, disk, g), geo.GroupBlocks(g));
    }
    SumFits(geo, free, geo.groups);
    assert free[..geo.groups] == free;
  }

  lemma {:induction false} SumFits(geo: Geometry, free: seq<nat>, n: nat)
    requires geo.Sane() && |free| == geo.groups && n <= geo.groups
    requires forall g :: 0 <= g < geo.groups ==> free[g] <= geo.GroupBlocks(g) <= geo.blocksPerGroup
    ensures n > 0 ==> Sum(free[..n]) <= geo.GroupStart(n - 1) + geo.GroupBlocks(n - 1)
    ensures Sum(free[..n]) <= geo.blocksCount
  {
    if n == 0 {
    } else {
      SumFits(geo, free, n - 1);
      assert free[..n][..n - 1] == free[..n - 1];
      geo.GroupInside(n - 1);
    }
  }

  /** `count_free_blocks`: the group's and the superblock's free counts, saturating. Within the limits of
      their fields the superblock's stays the sum of the groups'. */
  method CountFreeBlocks(fs: Ext2, g: nat, delta: int)
    requires g < |fs.freeBlocks|
    modifies fs`freeBlocks, fs`freeBlocksTotal
    ensures old(fs.freeBlocksTotal == Sum(fs.freeBlocks) <= U32_MAX - delta)
            && 0 <= old(fs.freeBlocks)[g] + delta <= U16_MAX ==>
              fs.freeBlocksTotal == Sum(fs.freeBlocks) == old(fs.freeBlocksTotal) + delta
    ensures fs.freeBlocks == old(fs.freeBlocks)[g := Clamp(old(fs.freeBlocks)[g] + delta, U16_MAX)]
    ensures fs.freeBlocksTotal == Clamp(old(fs.freeBlocksTotal) + delta, U32_MAX)
  {
    SumUpdate(fs.freeBlocks, g, Clamp(fs.freeBlocks[g] + delta, U16_MAX));
    fs.freeBlocks := fs.freeBlocks[g := Clamp(fs.freeBlocks[g] + delta, U16_MAX)];
    fs.freeBlocksTotal := Clamp(fs.freeBlocksTotal + delta, U32_MAX);
  }
}

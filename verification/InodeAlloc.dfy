/** Inode numbers (crates/ext2/src/allocator.rs): `alloc_inode` and `free_inode` through the inode
    bitmaps. */
module InodeAlloc {
  import opened Wrappers
  import opened Le
  import opened Arith
  import Bitmap
  import opened Volume
  import opened Allocator

  // ----- what the bitmaps say -----

  function InodeGroup(geo: Geometry, ino: nat): nat
    requires geo.inodesPerGroup > 0 && ino > 0
  {
    Quot(ino - 1, geo.inodesPerGroup)
  }

  function InodeIndex(geo: Geometry, ino: nat): nat
    requires geo.inodesPerGroup > 0 && ino > 0
  {
    Rem(ino - 1, geo.inodesPerGroup)
  }

  function InodeNumber(geo: Geometry, g: nat, i: nat): nat {
    Times(g, geo.inodesPerGroup) + i + 1
  }

  lemma InodeSplits(geo: Geometry, ino: nat)
    requires geo.Sane() && 1 <= ino <= geo.inodesCount
    ensures InodeGroup(geo, ino) < geo.groups && InodeIndex(geo, ino) < geo.inodesPerGroup
    ensures ino == InodeNumber(geo, InodeGroup(geo, ino), InodeIndex(geo, ino))
  {
    QuotRem(ino - 1, geo.inodesPerGroup);
    if geo.groups <= InodeGroup(geo, ino) {
      TimesMono(geo.groups, InodeGroup(geo, ino), geo.inodesPerGroup);
    }
  }

  lemma InodeAt(geo: Geometry, g: nat, i: nat)
    requires geo.Sane() && g < geo.groups && i < geo.inodesPerGroup
    ensures 1 <= InodeNumber(geo, g, i) <= geo.inodesCount
    ensures InodeGroup(geo, InodeNumber(geo, g, i)) == g && InodeIndex(geo, InodeNumber(geo, g, i)) == i
  {
    QuotOf(g, geo.inodesPerGroup, i);
    TimesMono(g + 1, geo.groups, geo.inodesPerGroup);
  }

  function InodeBits(geo: Geometry, disk: map<nat, Bytes>, g: nat): (bits: Bytes)
    requires geo.Wf() && DiskOk(geo, disk) && g < geo.groups
    ensures |bits| == geo.blockSize && geo.inodesPerGroup <= 8 * |bits|
  {
    geo.PartIsMetadata(g, 2, geo.descs[g].inodeBitmap);
    disk[geo.descs[g].inodeBitmap]
  }

  /** Whether the bitmaps mark inode `ino` in use. */
  predicate InodeUsed(geo: Geometry, disk: map<nat, Bytes>, ino: nat)
    requires geo.Wf() && DiskOk(geo, disk) && 1 <= ino <= geo.inodesCount
  {
    InodeSplits(geo, ino);
    Bitmap.Test(InodeBits(geo, disk, InodeGroup(geo, ino)), InodeIndex(geo, ino))
  }

  /** The inode numbers marked in use. */
  ghost function UsedInodes(geo: Geometry, disk: map<nat, Bytes>): set<nat>
    requires geo.Wf() && DiskOk(geo, disk)
  {
    set ino: nat | 1 <= ino <= geo.inodesCount && InodeUsed(geo, disk, ino)
  }

  ghost predicate InodeCountsOk(geo: Geometry, disk: map<nat, Bytes>, free: seq<nat>, total: nat)
    requires geo.Wf() && DiskOk(geo, disk)
  {
    && |free| == geo.groups
    && (forall g :: 0 <= g < geo.groups ==>
          free[g] == Bitmap.ClearCount(InodeBits(geo, disk, g), geo.inodesPerGroup))
    && total == Sum(free)
  }

  /** Inode numbers below the first for files are never free. */
  ghost predicate ReservedUsed(geo: Geometry, disk: map<nat, Bytes>)
    requires geo.Wf() && DiskOk(geo, disk)
  {
    forall ino: nat :: 1 <= ino < geo.firstIno ==> ino in UsedInodes(geo, disk)
  }

  // ----- changing one bit -----

  ghost predicate IsInodeBitmap(geo: Geometry, b: nat) {
    exists g :: 0 <= g < |geo.descs| && geo.descs[g].inodeBitmap == b
  }

  /** `disk'` is `disk` with other inode bitmaps. */
  ghost predicate OnlyInodeBits(geo: Geometry, disk: map<nat, Bytes>, disk': map<nat, Bytes>) {
    && disk'.Keys == disk.Keys
    && forall b :: b in disk && !IsInodeBitmap(geo, b) ==> disk'[b] == disk[b]
  }

  function WithInodeBits(geo: Geometry, disk: map<nat, Bytes>, g: nat, bits: Bytes): map<nat, Bytes>
    requires geo.Wf() && g < geo.groups
  {
    disk[geo.descs[g].inodeBitmap := bits]
  }

  lemma WithInodeBitsOk(geo: Geometry, disk: map<nat, Bytes>, g: nat, bits: Bytes)
    requires geo.Wf() && DiskOk(geo, disk) && g < geo.groups && |bits| == geo.blockSize
    ensures DiskOk(geo, WithInodeBits(geo, disk, g, bits))
            && OnlyInodeBits(geo, disk, WithInodeBits(geo, disk, g, bits))
    ensures forall h :: 0 <= h < geo.groups ==>
              InodeBits(geo, WithInodeBits(geo, disk, g, bits), h) == if h == g then bits else InodeBits(geo, disk, h)
  {
    hide Volume.Geometry.GroupsOk, Volume.Geometry.IsMetadata;
    geo.PartIsMetadata(g, 2, geo.descs[g].inodeBitmap);
    assert IsInodeBitmap(geo, geo.descs[g].inodeBitmap);
    forall h | 0 <= h < geo.groups && h != g
      ensures geo.descs[h].inodeBitmap != geo.descs[g].inodeBitmap
    {
      geo.PartIsMetadata(h, 2, geo.descs[h].inodeBitmap);
    }
  }

  lemma SetInodeBit(geo: Geometry, disk: map<nat, Bytes>, free: seq<nat>, total: nat, ino: nat)
    requires geo.Wf() && DiskOk(geo, disk) && 1 <= ino <= geo.inodesCount && !InodeUsed(geo, disk, ino)
    ensures InodeGroup(geo, ino) < geo.groups && InodeIndex(geo, ino) < 8 * geo.blockSize
    ensures var g := InodeGroup(geo, ino);
            var disk' := WithInodeBits(geo, disk, g, Bitmap.Set(InodeBits(geo, disk, g), InodeIndex(geo, ino)));
            && DiskOk(geo, disk') && OnlyInodeBits(geo, disk, disk')
            && UsedInodes(geo, disk') == UsedInodes(geo, disk) + {ino}
            && (InodeCountsOk(geo, disk, free, total) ==>
                  total > 0 && free[g] > 0 && InodeCountsOk(geo, disk', free[g := free[g] - 1], total - 1))
  {
    hide Bitmap.Test, Volume.Geometry.GroupsOk, Volume.Geometry.Metadata;
    InodeSplits(geo, ino);
    var g, i := InodeGroup(geo, ino), InodeIndex(geo, ino);
    var bits := InodeBits(geo, disk, g);
    WithInodeBitsOk(geo, disk, g, Bitmap.Set(bits, i));
    var disk' := WithInodeBits(geo, disk, g, Bitmap.Set(bits, i));
    forall n: nat | 1 <= n <= geo.inodesCount
      ensures InodeUsed(geo, disk', n) <==> n == ino || InodeUsed(geo, disk, n)
    {
      InodeSplits(geo, n);
    }
    if InodeCountsOk(geo, disk, free, total) {
      Bitmap.SetCount(bits, geo.inodesPerGroup, i);
      SumUpdate(free, g, free[g] - 1);
    }
  }

  lemma ClearInodeBit(geo: Geometry, disk: map<nat, Bytes>, free: seq<nat>, total: nat, ino: nat)
    requires geo.Wf() && DiskOk(geo, disk) && 1 <= ino <= geo.inodesCount && InodeUsed(geo, disk, ino)
    ensures InodeGroup(geo, ino) < geo.groups && InodeIndex(geo, ino) < 8 * geo.blockSize
    ensures var g := InodeGroup(geo, ino);
            var disk' := WithInodeBits(geo, disk, g, Bitmap.Clear(InodeBits(geo, disk, g), InodeIndex(geo, ino)));
            && DiskOk(geo, disk') && OnlyInodeBits(geo, disk, disk')
            && UsedInodes(geo, disk') == UsedInodes(geo, disk) - {ino}
            && (InodeCountsOk(geo, disk, free, total) ==>
                  InodeCountsOk(geo, disk', free[g := free[g] + 1], total + 1))
  {
    hide Bitmap.Test, Volume.Geometry.GroupsOk, Volume.Geometry.Metadata;
    InodeSplits(geo, ino);
    var g, i := InodeGroup(geo, ino), InodeIndex(geo, ino);
    var bits := InodeBits(geo, disk, g);
    WithInodeBitsOk(geo, disk, g, Bitmap.Clear(bits, i));
    var disk' := WithInodeBits(geo, disk, g, Bitmap.Clear(bits, i));
    forall n: nat | 1 <= n <= geo.inodesCount
      ensures InodeUsed(geo, disk', n) <==> n != ino && InodeUsed(geo, disk, n)
    {
      InodeSplits(geo, n);
    }
    if InodeCountsOk(geo, disk, free, total) {
      Bitmap.ClearCountUp(bits, geo.inodesPerGroup, i);
      SumUpdate(free, g, free[g] + 1);
    }
  }

  /** Counts that agree with the bitmaps never reach the limits of their fields. */
  lemma InodeCountsFit(geo: Geometry, disk: map<nat, Bytes>, free: seq<nat>, total: nat)
    requires geo.Wf() && DiskOk(geo, disk) && InodeCountsOk(geo, disk, free, total)
    ensures forall g :: 0 <= g < geo.groups ==> free[g] <= U16_MAX
    ensures total <= geo.inodesCount
  {
    hide Bitmap.Test, Volume.Geometry.GroupsOk, Bitmap.ClearCount;
    forall g | 0 <= g < geo.groups
      ensures free[g] <= geo.inodesPerGroup
    {
      Bitmap.CountAtMost(InodeBits(geo, disk, g), geo.inodesPerGroup);
    }
    SumAtMost(free, geo.inodesPerGroup);
  }

  lemma {:induction false} SumAtMost(s: seq<nat>, m: nat)
    requires forall g :: 0 <= g < |s| ==> s[g] <= m
    ensures Sum(s) <= Times(|s|, m)
  {
    if s != [] { SumAtMost(s[..|s| - 1], m); }
  }

  // ----- alloc_inode and free_inode -----

  /** No group has more free inodes than `g`, and no lower one as many. */
  predicate Emptiest(free: seq<nat>, g: nat) {
    && g < |free| && (forall h :: 0 <= h < |free| ==> free[h] <= free[g])
    && (forall h :: 0 <= h < g ==> free[h] < free[g])
  }

  /** The group with the most free inodes, the lowest of equals. */
  method MostFree(free: seq<nat>) returns (g: nat)
    requires free != []
    ensures Emptiest(free, g)
  {
    g := 0;
    for h := 1 to |free|
      invariant g < h <= |free|
      invariant forall k :: 0 <= k < h ==> free[k] <= free[g]
      invariant forall k :: 0 <= k < g ==> free[k] < free[g]
    {
      if free[h] > free[g] {
        g := h;
      }
    }
  }

  /** Nothing to be had from a group: its count says so, or its bitmap does from the first number
      for files on. */
  ghost predicate NoInodes(geo: Geometry, disk: map<nat, Bytes>, free: seq<nat>, g: nat)
    requires geo.Wf() && DiskOk(geo, disk) && |free| == geo.groups && g < geo.groups
  {
    free[g] == 0 ||
    forall i :: 0 <= i < geo.inodesPerGroup && InodeNumber(geo, g, i) >= geo.firstIno ==>
        Bitmap.Test(InodeBits(geo, disk, g), i)
  }

  /** `ino` is the first number for files, free, of group `g`, and `g` comes after `step` others from `first` on,
      none of which has one. */
  ghost predicate FirstNumber(geo: Geometry, disk: map<nat, Bytes>, free: seq<nat>, first: nat, step: nat, ino: nat)
    requires geo.Wf() && DiskOk(geo, disk) && |free| == geo.groups && 1 <= ino <= geo.inodesCount
  {
    InodeSplits(geo, ino);
    var g, i := InodeGroup(geo, ino), InodeIndex(geo, ino);
    && Turn(first, step, geo.groups) == g && !Bitmap.Test(InodeBits(geo, disk, g), i)
    && (forall j :: 0 <= j < i && InodeNumber(geo, g, j) >= geo.firstIno ==> Bitmap.Test(InodeBits(geo, disk, g), j))
    && (forall k :: 0 <= k < step ==> NoInodes(geo, disk, free, Turn(first, k, geo.groups)))
  }

  /** The group where the search for a number in directory `parent` starts: the emptiest for a directory, else
      the directory's own. */
  ghost predicate StartsAt(geo: Geometry, free: seq<nat>, parent: nat, dir: bool, first: nat)
    requires geo.Sane() && parent > 0
  {
    first < geo.groups && if dir then Emptiest(free, first) else first == InodeGroup(geo, parent)
  }

  /** A search from group `first` on looks at number `x` before `ino`. */
  ghost predicate SoonerNumber(geo: Geometry, first: nat, x: nat, ino: nat)
    requires geo.Sane() && first < geo.groups && 1 <= x <= geo.inodesCount && 1 <= ino <= geo.inodesCount
  {
    InodeSplits(geo, x);
    InodeSplits(geo, ino);
    var g, h := InodeGroup(geo, x), InodeGroup(geo, ino);
    if g == h then x < ino else Steps(first, g, geo.groups) < Steps(first, h, geo.groups)
  }

  /** `ino` is the unused number for files that a search from where it starts comes to first. */
  ghost predicate Picked(geo: Geometry, used: set<nat>, free: seq<nat>, parent: nat, dir: bool, ino: nat)
    requires geo.Sane() && parent > 0
  {
    && geo.firstIno <= ino <= geo.inodesCount && ino !in used
    && exists first: nat :: StartsAt(geo, free, parent, dir, first) && AllSooner(geo, used, first, ino)
  }

  ghost predicate AllSooner(geo: Geometry, used: set<nat>, first: nat, ino: nat)
    requires geo.Sane() && first < geo.groups && 1 <= ino <= geo.inodesCount
  {
    forall x: nat :: geo.firstIno <= x <= geo.inodesCount && SoonerNumber(geo, first, x, ino) ==> x in used
  }

  /** With counts that agree with the bitmaps, the number found is the first unused one. */
  lemma FirstIsPicked(geo: Geometry, disk: map<nat, Bytes>, free: seq<nat>, total: nat, first: nat, step: nat, ino: nat)
    requires geo.Wf() && DiskOk(geo, disk) && InodeCountsOk(geo, disk, free, total)
    requires first < geo.groups && step < geo.groups && geo.firstIno <= ino <= geo.inodesCount
    requires FirstNumber(geo, disk, free, first, step, ino)
    ensures AllSooner(geo, UsedInodes(geo, disk), first, ino)
  {
    hide Bitmap.Test, Bitmap.ClearCount, Turn, Volume.Geometry.GroupsOk, Volume.Geometry.Metadata;
    InodeSplits(geo, ino);
    var h := InodeGroup(geo, ino);
    StepsTurn(first, h, step, geo.groups);
    forall x: nat | geo.firstIno <= x <= geo.inodesCount && SoonerNumber(geo, first, x, ino)
      ensures x in UsedInodes(geo, disk)
    {
      InodeSplits(geo, x);
      var g := InodeGroup(geo, x);
      if g != h {
        TurnSteps(first, g, geo.groups);
        assert NoInodes(geo, disk, free, Turn(first, Steps(first, g, geo.groups), geo.groups));
        Bitmap.CountZero(InodeBits(geo, disk, g), geo.inodesPerGroup);
      }
      assert Bitmap.Test(InodeBits(geo, disk, g), InodeIndex(geo, x));
    }
  }

  /** The search of `alloc_inode`: group by group from `first` on, never below `s_first_ino`. */
  method FindInode(geo: Geometry, disk: map<nat, Bytes>, free: seq<nat>, first: nat) returns (r: Option<nat>)
    requires geo.Wf() && DiskOk(geo, disk) && |free| == geo.groups && first < geo.groups
    ensures r.Some? ==> geo.firstIno <= r.value <= geo.inodesCount && !InodeUsed(geo, disk, r.value)
    ensures r.Some? ==> exists step :: 0 <= step < geo.groups && FirstNumber(geo, disk, free, first, step, r.value)
    ensures r.None? ==> forall g :: 0 <= g < geo.groups ==> NoInodes(geo, disk, free, g)
  {
    hide Bitmap.Test, Volume.Geometry.GroupsOk, Volume.Geometry.Metadata;
    for step := 0 to geo.groups
      invariant forall k :: 0 <= k < step ==> NoInodes(geo, disk, free, Turn(first, k, geo.groups))
    {
      var g := Turn(first, step, geo.groups);
      if free[g] == 0 {
        continue;
      }
      var below := Times(g, geo.inodesPerGroup);
      var from := if geo.firstIno - 1 > below then geo.firstIno - 1 - below else 0;
      var found := Bitmap.FirstZero(InodeBits(geo, disk, g), from, geo.inodesPerGroup);
      if found.Some? {
        InodeAt(geo, g, found.value);
        assert FirstNumber(geo, disk, free, first, step, InodeNumber(geo, g, found.value));
        return Some(InodeNumber(geo, g, found.value));
      }
    }
    forall g | 0 <= g < geo.groups
      ensures NoInodes(geo, disk, free, g)
    {
      TurnReaches(first, geo.groups, g);
    }
    return None;
  }

  /** With counts that agree with the bitmaps, no group has a number left only when none is. */
  lemma NoInodesIsFull(geo: Geometry, disk: map<nat, Bytes>, free: seq<nat>, total: nat)
    requires geo.Wf() && DiskOk(geo, disk) && InodeCountsOk(geo, disk, free, total) && ReservedUsed(geo, disk)
    requires forall g :: 0 <= g < geo.groups ==> NoInodes(geo, disk, free, g)
    ensures total == 0
  {
    hide Bitmap.Test, Volume.Geometry.GroupsOk, Volume.Geometry.Metadata;
    forall g | 0 <= g < geo.groups
      ensures free[g] == 0
    {
      assert NoInodes(geo, disk, free, g);
      Bitmap.CountZero(InodeBits(geo, disk, g), geo.inodesPerGroup);
      if free[g] != 0 {
        forall i | 0 <= i < geo.inodesPerGroup
          ensures Bitmap.Test(InodeBits(geo, disk, g), i)
        {
          InodeAt(geo, g, i);
          if InodeNumber(geo, g, i) < geo.firstIno {
            assert InodeNumber(geo, g, i) in UsedInodes(geo, disk);
          }
        }
      }
    }
    SumZero(free);
  }

  /** `ino` is the first number found from where the search starts, for any counts. */
  ghost predicate FirstFound(geo: Geometry, disk: map<nat, Bytes>, free: seq<nat>, parent: nat, dir: bool, ino: nat)
    requires geo.Wf() && DiskOk(geo, disk) && |free| == geo.groups && parent > 0 && 1 <= ino <= geo.inodesCount
  {
    exists first: nat, step: nat ::
      StartsAt(geo, free, parent, dir, first) && step < geo.groups && FirstNumber(geo, disk, free, first, step, ino)
  }

  /** The number `alloc_inode` takes. */
  method PickInode(geo: Geometry, disk: map<nat, Bytes>, free: seq<nat>, ghost total: nat, parent: nat, dir: bool)
    returns (r: Option<nat>)
    requires geo.Wf() && DiskOk(geo, disk) && |free| == geo.groups && 1 <= parent <= geo.inodesCount
    ensures r.Some? ==> geo.firstIno <= r.value <= geo.inodesCount && !InodeUsed(geo, disk, r.value)
    ensures r.Some? ==> FirstFound(geo, disk, free, parent, dir, r.value)
    ensures InodeCountsOk(geo, disk, free, total) ==>
              && (r.Some? ==> Picked(geo, UsedInodes(geo, disk), free, parent, dir, r.value))
              && (r.None? && ReservedUsed(geo, disk) ==> total == 0)
  {
    hide Bitmap.Test, Volume.Geometry.GroupsOk, Volume.Geometry.Metadata, FirstNumber, AllSooner, NoInodes;
    var first;
    if dir {
      first := MostFree(free);
    } else {
      InodeSplits(geo, parent);
      first := InodeGroup(geo, parent);
    }
    r := FindInode(geo, disk, free, first);
    assert StartsAt(geo, free, parent, dir, first);
    if r.Some? {
      ghost var step: nat :| step < geo.groups && FirstNumber(geo, disk, free, first, step, r.value);
      if InodeCountsOk(geo, disk, free, total) { FirstIsPicked(geo, disk, free, total, first, step, r.value); }
    } else if InodeCountsOk(geo, disk, free, total) && ReservedUsed(geo, disk) {
      NoInodesIsFull(geo, disk, free, total);
    }
  }

  /** `count_free_inodes`: the group's and the superblock's free counts and the group's directories,
      saturating. */
  method CountFreeInodes(fs: Ext2, g: nat, delta: int, dir: bool)
    requires g < |fs.freeInodes| && g < |fs.usedDirs|
    modifies fs`freeInodes, fs`freeInodesTotal, fs`usedDirs
    ensures fs.freeInodes == old(fs.freeInodes)[g := Clamp(old(fs.freeInodes)[g] + delta, U16_MAX)]
    ensures fs.freeInodesTotal == Clamp(old(fs.freeInodesTotal) + delta, U32_MAX)
    ensures fs.usedDirs == if dir then old(fs.usedDirs)[g := Clamp(old(fs.usedDirs)[g] - delta, U16_MAX)]
            else old(fs.usedDirs)
  {
    fs.freeInodes := fs.freeInodes[g := Clamp(fs.freeInodes[g] + delta, U16_MAX)];
    if dir {
      fs.usedDirs := fs.usedDirs[g := Clamp(fs.usedDirs[g] - delta, U16_MAX)];
    }
    fs.freeInodesTotal := Clamp(fs.freeInodesTotal + delta, U32_MAX);
  }

  /** Allocates an inode number: a directory's in the group with the most free, anything else's in
      its parent's group, else the next group with one free. */
  method AllocInode(fs: Ext2, parent: nat, dir: bool) returns (r: Result<nat>)
    requires fs.geo.Wf() && DiskOk(fs.geo, fs.disk) && |fs.freeInodes| == fs.geo.groups
             && |fs.usedDirs| == fs.geo.groups
    requires 1 <= parent <= fs.geo.inodesCount
    modifies fs`disk, fs`freeInodes, fs`freeInodesTotal, fs`usedDirs
    ensures DiskOk(fs.geo, fs.disk) && OnlyInodeBits(fs.geo, old(fs.disk), fs.disk)
    ensures r.Err? ==> r.error == ENOSPC && fs.disk == old(fs.disk) && fs.freeInodes == old(fs.freeInodes) &&
                       fs.freeInodesTotal == old(fs.freeInodesTotal) && fs.usedDirs == old(fs.usedDirs)
    ensures r.Ok? ==> fs.geo.firstIno <= r.value <= fs.geo.inodesCount
    ensures r.Ok? ==> r.value !in UsedInodes(fs.geo, old(fs.disk))
    ensures r.Ok? ==> UsedInodes(fs.geo, fs.disk) == UsedInodes(fs.geo, old(fs.disk)) + {r.value}
    ensures |fs.freeInodes| == fs.geo.groups && |fs.usedDirs| == fs.geo.groups
    ensures r.Ok? ==> InodeGroup(fs.geo, r.value) < fs.geo.groups
    ensures r.Ok? ==>
            fs.usedDirs == if dir then old(fs.usedDirs)[InodeGroup(fs.geo, r.value) :=
            Clamp(old(fs.usedDirs)[InodeGroup(fs.geo, r.value)] + 1, U16_MAX)] else old(fs.usedDirs)
    ensures r.Ok? ==> FirstFound(fs.geo, old(fs.disk), old(fs.freeInodes), parent, dir, r.value)
    // With counts that agree with the bitmaps it fails only when nothing is left.
    ensures old(InodeCountsOk(fs.geo, fs.disk, fs.freeInodes, fs.freeInodesTotal)) ==>
              && InodeCountsOk(fs.geo, fs.disk, fs.freeInodes, fs.freeInodesTotal)
              && (r.Ok? ==> fs.freeInodesTotal == old(fs.freeInodesTotal) - 1)
              && (r.Ok? ==>
                    Picked(fs.geo, UsedInodes(fs.geo, old(fs.disk)), old(fs.freeInodes), parent, dir, r.value))
              && (ReservedUsed(fs.geo, old(fs.disk)) ==> (r.Ok? <==> old(fs.freeInodesTotal) > 0))
  {
    hide Bitmap.Test, Volume.Geometry.GroupsOk, Volume.Geometry.Metadata, Volume.Geometry.IsMetadata, FirstFound,
         Picked;
    var geo := fs.geo;
    if fs.freeInodesTotal == 0 {
      return Err(ENOSPC);
    }
    var found := PickInode(geo, fs.disk, fs.freeInodes, fs.freeInodesTotal, parent, dir);
    if found.None? {
      return Err(ENOSPC);
    }
    var ino := found.value;
    SetInodeBit(geo, fs.disk, fs.freeInodes, fs.freeInodesTotal, ino);
    if InodeCountsOk(geo, fs.disk, fs.freeInodes, fs.freeInodesTotal) {
      InodeCountsFit(geo, fs.disk, fs.freeInodes, fs.freeInodesTotal);
    }
    var g := InodeGroup(geo, ino);
    fs.disk := WithInodeBits(geo, fs.disk, g, Bitmap.Set(InodeBits(geo, fs.disk, g), InodeIndex(geo, ino)));
    CountFreeInodes(fs, g, -1, dir);
    return Ok(ino);
  }

  /** Frees inode number `ino` in its bitmap. One already free is left alone. */
  method FreeInode(fs: Ext2, ino: nat, dir: bool)
    requires fs.geo.Wf() && DiskOk(fs.geo, fs.disk) && |fs.freeInodes| == fs.geo.groups
             && |fs.usedDirs| == fs.geo.groups
    requires 1 <= ino <= fs.geo.inodesCount
    modifies fs`disk, fs`freeInodes, fs`freeInodesTotal, fs`usedDirs
    ensures DiskOk(fs.geo, fs.disk) && OnlyInodeBits(fs.geo, old(fs.disk), fs.disk)
    ensures |fs.freeInodes| == fs.geo.groups && |fs.usedDirs| == fs.geo.groups
    ensures UsedInodes(fs.geo, fs.disk) == UsedInodes(fs.geo, old(fs.disk)) - {ino}
    ensures ino !in UsedInodes(fs.geo, old(fs.disk)) ==>
              fs.disk == old(fs.disk) && fs.freeInodes == old(fs.freeInodes)
                  && fs.freeInodesTotal == old(fs.freeInodesTotal) && fs.usedDirs == old(fs.usedDirs)
    ensures InodeGroup(fs.geo, ino) < fs.geo.groups
    ensures ino in UsedInodes(fs.geo, old(fs.disk)) ==>
              fs.usedDirs == if dir then old(fs.usedDirs)[InodeGroup(fs.geo, ino) :=
                  Clamp(old(fs.usedDirs)[InodeGroup(fs.geo, ino)] as int - 1, U16_MAX)] else old(fs.usedDirs)
    ensures old(InodeCountsOk(fs.geo, fs.disk, fs.freeInodes, fs.freeInodesTotal)) ==>
              && InodeCountsOk(fs.geo, fs.disk, fs.freeInodes, fs.freeInodesTotal)
              && (ino in UsedInodes(fs.geo, old(fs.disk)) ==> fs.freeInodesTotal == old(fs.freeInodesTotal) + 1)
  {
    hide Bitmap.Test, Volume.Geometry.GroupsOk, Volume.Geometry.Metadata, Volume.Geometry.IsMetadata;
    var geo := fs.geo;
    InodeSplits(geo, ino);
    var g, i := InodeGroup(geo, ino), InodeIndex(geo, ino);
    if !Bitmap.Test(InodeBits(geo, fs.disk, g), i) {
      return;
    }
    ClearInodeBit(geo, fs.disk, fs.freeInodes, fs.freeInodesTotal, ino);
    fs.disk := WithInodeBits(geo, fs.disk, g, Bitmap.Clear(InodeBits(geo, fs.disk, g), i));
    if old(InodeCountsOk(fs.geo, fs.disk, fs.freeInodes, fs.freeInodesTotal)) {
      InodeCountsFit(geo, fs.disk, old(fs.freeInodes)[g := old(fs.freeInodes)[g] + 1], old(fs.freeInodesTotal) + 1);
    }
    CountFreeInodes(fs, g, 1, dir);
  }
}

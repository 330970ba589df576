/** Operations on regular files (crates/ext2/src/file.rs): `file_read`, `file_write`,
    `file_truncate`, each against the byte sequence it stands for. */
module FileOps {
  import opened Wrappers
  import opened Le
  import opened Arith
  import opened BlockPath
  import opened FileLimit
  import opened Volume
  import opened Allocator
  import opened Trees
  import opened BlockMap
  import opened Freeing
  import opened FileData

  ghost predicate SizesOk(geo: Geometry, live: map<nat, Inode>)
    requires geo.Sane()
  {
    forall ino :: ino in live && live[ino].HasTree() ==> live[ino].size <= MaxFileSize(geo.blockSize)
  }

  /** Between operations: every inode is stored, and no file has blocks past its end. */
  ghost predicate FilesOk(fs: Ext2)
    reads fs
  {
    && Mapped(fs) && fs.live == fs.inodes
    && InsideSize(fs.geo, fs.live, fs.tree) && SizesOk(fs.geo, fs.live)
  }

  /** The contents of file `ino`. */
  ghost function Data(fs: Ext2, ino: nat): Bytes
    requires fs.geo.Sane() && ino in fs.live
    reads fs
  {
    Contents(fs.geo, Leaves(fs.disk, fs.tree), ino, fs.live[ino].size)
  }

  // ----- zero_tail -----

  /** `b` is `a` with the rest of the block holding byte `size` of `ino` zero. */
  ghost predicate TailZeroed(geo: Geometry, a: map<Loc, Bytes>, b: map<Loc, Bytes>, ino: nat, size: nat)
    requires geo.Sane()
  {
    forall pos: nat ::
      ByteAt(geo, b, ino, pos) == if pos >= size && Lb(geo, pos) == Lb(geo, size) && Within(geo, size) != 0 then 0
          else ByteAt(geo, a, ino, pos)
  }

  lemma TailWritten(geo: Geometry, leaves: map<Loc, Bytes>, ino: nat, size: nat)
    requires geo.Sane() && Lb(geo, size) < Reach(geo.P())
    requires LeafFor(ino, Lb(geo, size), geo.P()) in leaves
             && |leaves[LeafFor(ino, Lb(geo, size), geo.P())]| == geo.blockSize
    requires Within(geo, size) != 0
    ensures var leaf := LeafFor(ino, Lb(geo, size), geo.P());
            TailZeroed(geo, leaves, leaves[leaf :=
                leaves[leaf][..Within(geo, size)] + Zeros(geo.blockSize - Within(geo, size))], ino, size)
  {
    hide Lb, Within, Reach, LeafFor;
    var leaf := LeafFor(ino, Lb(geo, size), geo.P());
    var data := leaves[leaf][..Within(geo, size)] + Zeros(geo.blockSize - Within(geo, size));
    forall pos: nat
      ensures ByteAt(geo, leaves[leaf := data], ino, pos) ==
              if pos >= size && Lb(geo, pos) == Lb(geo, size) && Within(geo, size) != 0 then 0
                  else ByteAt(geo, leaves, ino, pos)
    {
      BlockWritten(geo, leaves, ino, Lb(geo, size), data, ino, pos);
      PosIs(geo, pos);
      PosIs(geo, size);
    }
  }

  /** Zeroes the rest of the block holding byte `size`. */
  method ZeroTail(fs: Ext2, inode: Inode, size: nat)
    requires Mapped(fs) && inode.ino in fs.live && fs.live[inode.ino] == inode && inode.HasTree()
    modifies fs`disk
    ensures Mapped(fs) && MetaKept(fs.geo, old(fs.disk), fs.disk)
    ensures OthersKept(old(Leaves(fs.disk, fs.tree)), Leaves(fs.disk, fs.tree), inode.ino)
    ensures TailZeroed(fs.geo, old(Leaves(fs.disk, fs.tree)), Leaves(fs.disk, fs.tree), inode.ino, size)
  {
    hide Ptr, EntriesAgree, RootsAgree, Distinct, InodesShaped, Shape, Owned, Bounded, BlocksAgree, Conserved,
         BlockCountsOk, Volume.Geometry.IsMetadata, Volume.Geometry.GroupsOk, Used, ByteAt, LeafFor, Reach, Lb,
         Within;
    var geo := fs.geo;
    if Within(geo, size) == 0 {
      return;
    }
    var r := Bmap(fs, inode, Lb(geo, size));
    if r.value.Some? {
      var block := r.value.value;
      ghost var leaf := LeafFor(inode.ino, Lb(geo, size), geo.P());
      Present(geo, fs.disk, fs.live, fs.tree, leaf);
      TailWritten(geo, Leaves(fs.disk, fs.tree), inode.ino, size);
      StoreData(fs, leaf, block, fs.disk[block][..Within(geo, size)] + Zeros(geo.blockSize - Within(geo, size)));
    } else {
      TailHole(geo, fs.disk, fs.tree, inode.ino, size);
    }
  }

  lemma TailHole(geo: Geometry, disk: map<nat, Bytes>, tree: map<Loc, nat>, ino: nat, size: nat)
    requires geo.Sane() && BlockAt(geo, tree, ino, Lb(geo, size)).None?
    ensures TailZeroed(geo, Leaves(disk, tree), Leaves(disk, tree), ino, size)
  {
    hide Lb, Within, Reach, LeafFor;
  }

  /** After the tail is zeroed nothing past the end of the file is left but zeros. */
  lemma PastEnd(geo: Geometry, live: map<nat, Inode>, disk: map<nat, Bytes>, disk': map<nat, Bytes>,
        tree: map<Loc, nat>, ino: nat, pos: nat)
    requires geo.Sane() && InsideSize(geo, live, tree) && ino in live && pos >= live[ino].size
    requires TailZeroed(geo, Leaves(disk, tree), Leaves(disk', tree), ino, live[ino].size)
    ensures ByteAt(geo, Leaves(disk', tree), ino, pos) == 0
  {
    hide ByteAt, Lb, Within, Leaves;
    var size := live[ino].size;
    PosIs(geo, pos);
    PosIs(geo, size);
    if Lb(geo, pos) == Lb(geo, size) && Within(geo, size) != 0 {
    } else {
      if Lb(geo, pos) > Lb(geo, size) {
        TimesMono(Lb(geo, size) + 1, Lb(geo, pos), geo.blockSize);
      }
      if Lb(geo, pos) < Lb(geo, size) {
        TimesMono(Lb(geo, pos) + 1, Lb(geo, size), geo.blockSize);
      }
      NoByteOutside(geo, live, disk', tree, ino, pos);
    }
  }

  // ----- the operations -----

  /** Inode `ino`, which must be in use. */
  method GetInode(fs: Ext2, ino: nat) returns (r: Result<Inode>)
    requires fs.geo.Sane()
    ensures r.Ok? ==>
            ino in fs.inodes && r.value == fs.inodes[ino] && r.value.InUse()
            && r.value.size <= MaxFileSize(fs.geo.blockSize)
    ensures r.Err? ==> r == (if ino in fs.inodes && fs.inodes[ino].InUse() then Err(EIO) else Err(ENOENT))
    ensures ino in fs.inodes && fs.inodes[ino].InUse() && fs.inodes[ino].size <= MaxFileSize(fs.geo.blockSize) ==> r.Ok?
  {
    if ino !in fs.inodes || !fs.inodes[ino].InUse() {
      return Err(ENOENT);
    }
    if fs.inodes[ino].size > MaxFileSize(fs.geo.blockSize) {
      return Err(EIO);
    }
    return Ok(fs.inodes[ino]);
  }

  /** Why regular file `ino` cannot be had at all. */
  function Refusal(inodes: map<nat, Inode>, ino: nat): Option<Errno> {
    if ino !in inodes || !inodes[ino].InUse() then Some(ENOENT)
    else if inodes[ino].kind == Regular then None
    else if inodes[ino].kind == Directory then Some(EISDIR)
    else Some(EINVAL)
  }

  /** Why regular file `ino` cannot be changed: a read-only filesystem says so after `ENOENT`. */
  function ChangeRefusal(inodes: map<nat, Inode>, readOnly: bool, ino: nat): Option<Errno> {
    if Refusal(inodes, ino) != Some(ENOENT) && readOnly then Some(EROFS) else Refusal(inodes, ino)
  }

  ghost predicate SizesFit(geo: Geometry, inodes: map<nat, Inode>)
    requires geo.Sane()
  {
    forall ino :: ino in inodes && inodes[ino].InUse() ==> inodes[ino].size <= MaxFileSize(geo.blockSize)
  }

  /** Reads up to `n` bytes at `offset`. */
  method FileRead(fs: Ext2, ino: nat, offset: nat, n: nat) returns (r: Result<Bytes>)
    requires FilesOk(fs) && SizesFit(fs.geo, fs.inodes)
    ensures r == if Refusal(fs.inodes, ino).Some? then Err(Refusal(fs.inodes, ino).value)
                 else Ok(Reading(Data(fs, ino), offset, n))
  {
    hide Ptr, EntriesAgree, RootsAgree, Distinct, InodesShaped, Shape, Owned, Bounded, BlocksAgree, Conserved,
         BlockCountsOk, Volume.Geometry.IsMetadata, Volume.Geometry.GroupsOk, ByteAt, FileLimit.MaxBlocks;
    var got := GetInode(fs, ino);
    if got.Err? {
      return Err(got.error);
    }
    var inode := got.value;
    if inode.kind != Regular {
      return Err(if inode.kind == Directory then EISDIR else EINVAL);
    }
    if offset >= inode.size {
      return Ok([]);
    }
    InoIs(fs.geo, fs.disk, fs.live, fs.tree, ino);
    var len := if n < inode.size - offset then n else inode.size - offset;
    var buf := ReadData(fs, inode, offset, len);
    assert buf == Reading(Data(fs, ino), offset, n);
    return Ok(buf);
  }

  lemma InoIs(geo: Geometry, disk: map<nat, Bytes>, live: map<nat, Inode>, tree: map<Loc, nat>, ino: nat)
    requires geo.Wf() && DiskOk(geo, disk) && TreeOk(geo, disk, live, tree, None) && ino in live
    ensures live[ino].ino == ino && ino > 0
  {
  }

  /** What an operation on file `ino` leaves alone: everything of the other files. */
  twostate predicate OnlyFile(fs: Ext2, ino: nat)
    requires fs.geo.Sane()
    reads fs
  {
    && MetaKept(fs.geo, old(fs.disk), fs.disk)
    && OthersKept(old(Leaves(fs.disk, fs.tree)), Leaves(fs.disk, fs.tree), ino)
    && fs.inodes.Keys == old(fs.inodes.Keys)
    && (forall f :: f in fs.inodes && f != ino ==> fs.inodes[f] == old(fs.inodes)[f])
    && (ino in fs.inodes ==>
       fs.inodes[ino].kind == old(fs.inodes)[ino].kind && fs.inodes[ino].links == old(fs.inodes)[ino].links)
  }

  lemma WritingNothing(data: Bytes, offset: nat)
    ensures Writing(data, offset, []) == data
  {
  }

  /** One byte of a file after a write. */
  lemma WriteByte(geo: Geometry, live: map<nat, Inode>, a: Space, z: Space, c: Space, ino: nat, offset: nat,
        w: Bytes, i: nat)
    requires geo.Sane() && InsideSize(geo, live, a.tree) && ino in live && z.tree == a.tree
    requires if offset > live[ino].size
             then TailZeroed(geo, Leaves(a.disk, a.tree), Leaves(z.disk, z.tree), ino, live[ino].size)
             else z.disk == a.disk
    requires Overlaid(geo, Leaves(z.disk, z.tree), Leaves(c.disk, c.tree), ino, offset, w)
    requires i < live[ino].size || (w != [] && i < offset + |w|)
    ensures ByteAt(geo, Leaves(c.disk, c.tree), ino, i) ==
            if offset <= i < offset + |w| then w[i - offset]
                else if i < live[ino].size then ByteAt(geo, Leaves(a.disk, a.tree), ino, i) else 0
  {
    hide ByteAt, Leaves, InsideSize, Lb, Within;
    assert ByteAt(geo, Leaves(c.disk, c.tree), ino, i) ==
      if offset <= i < offset + |w| then w[i - offset] else ByteAt(geo, Leaves(z.disk, z.tree), ino, i);
    if i >= live[ino].size && !(offset <= i < offset + |w|) {
      PastEnd(geo, live, a.disk, z.disk, a.tree, ino, i);
    }
  }

  /** What a write amounts to in the bytes of its file. */
  lemma WriteResult(geo: Geometry, live: map<nat, Inode>, a: Space, z: Space, c: Space, ino: nat, offset: nat, w: Bytes)
    requires geo.Sane() && InsideSize(geo, live, a.tree) && ino in live && z.tree == a.tree
    requires if offset > live[ino].size
             then TailZeroed(geo, Leaves(a.disk, a.tree), Leaves(z.disk, z.tree), ino, live[ino].size)
             else z.disk == a.disk
    requires Overlaid(geo, Leaves(z.disk, z.tree), Leaves(c.disk, c.tree), ino, offset, w)
    ensures var size := live[ino].size;
            Contents(geo, Leaves(c.disk, c.tree), ino, if w != [] && offset + |w| > size then offset + |w| else size)
            == Writing(Contents(geo, Leaves(a.disk, a.tree), ino, size), offset, w)
  {
    hide ByteAt, Leaves, InsideSize, Overlaid, TailZeroed;
    var size := live[ino].size;
    var n := if w != [] && offset + |w| > size then offset + |w| else size;
    var data := Contents(geo, Leaves(a.disk, a.tree), ino, size);
    var data' := Contents(geo, Leaves(c.disk, c.tree), ino, n);
    var want := Writing(data, offset, w);
    forall i: nat | i < n
      ensures data'[i] == want[i]
    {
      WriteByte(geo, live, a, z, c, ino, offset, w, i);
    }
  }

  /** After a write the file's blocks are inside its new size. */
  lemma WriteInside(geo: Geometry, live: map<nat, Inode>, tree: map<Loc, nat>, tree': map<Loc, nat>, inode: Inode,
        end: nat)
    requires geo.Sane() && InsideSize(geo, live, tree) && inode.ino in live && inode.size >= live[inode.ino].size
    requires GrownTo(geo, tree, tree', inode.ino, end) && (end <= inode.size || tree' == tree)
    ensures InsideSize(geo, live[inode.ino := inode], tree')
  {
    hide Loc.Base, Loc.Valid, Loc.Rest;
  }

  /** `set_size` on the inode in hand. */
  method SetSize(fs: Ext2, inode: Inode, size: nat) returns (inode': Inode)
    requires Mapped(fs) && inode.ino in fs.live && fs.live[inode.ino] == inode && inode.HasTree()
    modifies fs`live
    ensures Mapped(fs) && inode' == inode.(size := size) && fs.live == old(fs.live)[inode.ino := inode']
  {
    hide Ptr, EntriesAgree, RootsAgree, Distinct, InodesShaped, Shape, Owned, Bounded, Conserved, BlockCountsOk,
         Volume.Geometry.IsMetadata, Volume.Geometry.GroupsOk;
    inode' := inode.(size := size);
    InodeOk(fs.geo, fs.disk, fs.live, fs.tree, None, inode');
    fs.live := fs.live[inode.ino := inode'];
  }

  /** Writes `buf` at `offset`; how much was written. */
  method FileWrite(fs: Ext2, ino: nat, offset: nat, buf: Bytes) returns (r: Result<nat>)
    requires FilesOk(fs) && SizesFit(fs.geo, fs.inodes)
    modifies fs`disk, fs`freeBlocks, fs`freeBlocksTotal, fs`live, fs`tree, fs`inodes
    ensures FilesOk(fs) && SizesFit(fs.geo, fs.inodes) && OnlyFile(fs, ino)
    ensures old(ChangeRefusal(fs.inodes, fs.readOnly, ino)).Some? ==>
              && r == Err(old(ChangeRefusal(fs.inodes, fs.readOnly, ino)).value)
              && fs.disk == old(fs.disk) && fs.tree == old(fs.tree) && fs.live == old(fs.live)
              && fs.inodes == old(fs.inodes)
    ensures old(ChangeRefusal(fs.inodes, fs.readOnly, ino)).None? ==>
              if buf == [] then r == Ok(0)
              else if offset + |buf| > MaxFileSize(fs.geo.blockSize) then r == Err(EFBIG)
              else
                && (r == Err(ENOSPC) || (r.Ok? && 0 < r.value <= |buf|))
                && (r == Err(ENOSPC) <==> Short(fs.geo, old(fs.tree), ino, offset, old(fs.freeBlocksTotal)))
                && (r.Ok? && r.value < |buf| ==> Short(fs.geo, fs.tree, ino, offset + r.value, fs.freeBlocksTotal))
    ensures r == Err(ENOSPC) ==> fs.freeBlocksTotal < 4
    ensures fs.freeBlocksTotal <= old(fs.freeBlocksTotal)
    ensures r.Err? ==>
            fs.tree == old(fs.tree) && fs.inodes == old(fs.inodes) && fs.freeBlocksTotal == old(fs.freeBlocksTotal)
    ensures r.Ok? && buf != [] ==> Appended(fs.geo, old(fs.tree), fs.tree, ino, offset, r.value,
                                            old(fs.freeBlocksTotal) - fs.freeBlocksTotal)
    // What is reported is what is stored.
    ensures r.Ok? ==>
            ino in fs.live && r.value <= |buf| && Data(fs, ino) == Writing(old(Data(fs, ino)), offset, buf[..r.value])
    ensures r.Err? && ino in fs.live ==> Data(fs, ino) == old(Data(fs, ino))
  {
    hide Ptr, EntriesAgree, RootsAgree, Distinct, InodesShaped, Shape, Owned, Bounded, BlocksAgree, Conserved,
         BlockCountsOk, Volume.Geometry.IsMetadata, Volume.Geometry.GroupsOk, Used, Leaves, ByteAt,
         FileLimit.MaxBlocks, MetaKept, OthersKept, InsideSize, Overlaid, TailZeroed, GrownTo, Contents, Writing,
         Short, Appended;
    var geo := fs.geo;
    ghost var before := SpaceOf(fs);
    WriteStart(geo, before, ino, offset, buf);
    var got := GetInode(fs, ino);
    if got.Err? {
      return Err(got.error);
    }
    var inode := got.value;
    if fs.readOnly {
      return Err(EROFS);
    }
    if inode.kind != Regular {
      return Err(if inode.kind == Directory then EISDIR else EINVAL);
    }
    if buf == [] {
      assert buf[..0] == [];
      WritingNothing(Data(fs, ino), offset);
      return Ok(0);
    }
    if offset + |buf| > MaxFileSize(geo.blockSize) {
      return Err(EFBIG);
    }
    InoIs(geo, fs.disk, fs.live, fs.tree, ino);
    r := WriteFile(fs, inode, offset, buf);
  }

  /** The bytes of a write: past the end of the file the gap before them reads as zeros. The size is
      not set yet. */
  method WriteBytes(fs: Ext2, inode: Inode, offset: nat, buf: Bytes)
    returns (done: nat, error: Option<Errno>, inode': Inode)
    requires Mapped(fs) && InsideSize(fs.geo, fs.live, fs.tree) && inode.ino in fs.live
             && fs.live[inode.ino] == inode && inode.HasTree()
    requires offset + |buf| <= MaxFileSize(fs.geo.blockSize)
    modifies fs`disk, fs`freeBlocks, fs`freeBlocksTotal, fs`live, fs`tree
    ensures Mapped(fs) && MetaKept(fs.geo, old(fs.disk), fs.disk)
    ensures fs.live == old(fs.live)[inode.ino := inode'] && SameFile(inode', inode)
    ensures done <= |buf| && (error.None? <==> done == |buf|)
            && (error.Some? ==> error.value == ENOSPC && fs.freeBlocksTotal < 4)
    ensures OthersKept(old(Leaves(fs.disk, fs.tree)), Leaves(fs.disk, fs.tree), inode.ino)
    ensures GrownTo(fs.geo, old(fs.tree), fs.tree, inode.ino, offset + done)
    ensures done == 0 ==> inode' == inode && fs.tree == old(fs.tree) && fs.freeBlocksTotal == old(fs.freeBlocksTotal)
    ensures error.Some? ==> Short(fs.geo, fs.tree, inode.ino, offset + done, fs.freeBlocksTotal)
    ensures buf != [] ==> (done == 0 <==> Short(fs.geo, old(fs.tree), inode.ino, offset, old(fs.freeBlocksTotal)))
    ensures fs.freeBlocksTotal <= old(fs.freeBlocksTotal)
    ensures Appended(fs.geo, old(fs.tree), fs.tree, inode.ino, offset, done,
                     old(fs.freeBlocksTotal) - fs.freeBlocksTotal)
    ensures Contents(fs.geo, Leaves(fs.disk, fs.tree), inode.ino,
            if done > 0 && offset + done > inode.size then offset + done else inode.size)
         == Writing(old(Contents(fs.geo, Leaves(fs.disk, fs.tree), inode.ino, inode.size)), offset, buf[..done])
  {
    hide Ptr, EntriesAgree, RootsAgree, Distinct, InodesShaped, Shape, Owned, Bounded, BlocksAgree, Conserved,
         BlockCountsOk, Volume.Geometry.IsMetadata, Volume.Geometry.GroupsOk, Used, Leaves, ByteAt,
         FileLimit.MaxBlocks, MetaKept, OthersKept, InsideSize, Overlaid, TailZeroed, GrownTo, Contents, Writing,
         Short, Appended;
    var geo := fs.geo;
    ghost var before, live, ino := SpaceOf(fs), fs.live, inode.ino;
    WriteStart(geo, before, ino, offset, buf);
    if offset > inode.size {
      ZeroTail(fs, inode, inode.size);
    }
    ghost var zeroed := SpaceOf(fs);
    done, error, inode' := WriteData(fs, inode, offset, buf);
    ghost var after := SpaceOf(fs);
    MetaTrans(geo, before.disk, zeroed.disk, zeroed.disk, after.disk) by { WriteStart(geo, zeroed, ino, offset, buf); }
    OthersTrans(Leaves(before.disk, before.tree), Leaves(zeroed.disk, zeroed.tree), Leaves(after.disk, after.tree),
        ino);
    WriteResult(geo, live, before, zeroed, after, ino, offset, buf[..done]);
  }

  /** The part of `file_write` after its checks. */
  method WriteFile(fs: Ext2, inode: Inode, offset: nat, buf: Bytes) returns (r: Result<nat>)
    requires FilesOk(fs) && SizesFit(fs.geo, fs.inodes)
    requires inode.ino in fs.live && fs.live[inode.ino] == inode && inode.HasTree()
    requires buf != [] && offset + |buf| <= MaxFileSize(fs.geo.blockSize)
    modifies fs`disk, fs`freeBlocks, fs`freeBlocksTotal, fs`live, fs`tree, fs`inodes
    ensures FilesOk(fs) && SizesFit(fs.geo, fs.inodes) && OnlyFile(fs, inode.ino)
    ensures r == Err(ENOSPC) || (r.Ok? && 0 < r.value <= |buf|)
    ensures r == Err(ENOSPC) <==> Short(fs.geo, old(fs.tree), inode.ino, offset, old(fs.freeBlocksTotal))
    ensures r.Ok? && r.value < |buf| ==> Short(fs.geo, fs.tree, inode.ino, offset + r.value, fs.freeBlocksTotal)
    ensures r.Err? ==> fs.freeBlocksTotal < 4 && fs.tree == old(fs.tree) && fs.inodes == old(fs.inodes)
    ensures r.Err? ==> fs.freeBlocksTotal == old(fs.freeBlocksTotal)
    ensures fs.freeBlocksTotal <= old(fs.freeBlocksTotal)
    ensures r.Ok? ==> Appended(fs.geo, old(fs.tree), fs.tree, inode.ino, offset, r.value,
                               old(fs.freeBlocksTotal) - fs.freeBlocksTotal)
    ensures inode.ino in fs.live
    ensures r.Ok? ==> Data(fs, inode.ino) == Writing(old(Data(fs, inode.ino)), offset, buf[..r.value])
    ensures r.Err? ==> Data(fs, inode.ino) == old(Data(fs, inode.ino))
  {
    hide Ptr, EntriesAgree, RootsAgree, Distinct, InodesShaped, Shape, Owned, Bounded, BlocksAgree, Conserved,
         BlockCountsOk, Volume.Geometry.IsMetadata, Volume.Geometry.GroupsOk, Used, Leaves, ByteAt,
         FileLimit.MaxBlocks, MetaKept, OthersKept, InsideSize, Overlaid, TailZeroed, GrownTo, Contents, Writing,
         Short, Appended;
    ghost var tree, live, ino := fs.tree, fs.live, inode.ino;
    var size := inode.size;
    var done, error, inode' := WriteBytes(fs, inode, offset, buf);
    if done > 0 {
      inode' := SetSize(fs, inode', if offset + done > size then offset + done else size);
    } else {
      WritingNothing(old(Data(fs, inode.ino)), offset);
    }
    WriteInside(fs.geo, live, tree, fs.tree, inode', offset + done);
    assert fs.live == live[ino := inode'];
    if inode' != inode {
      fs.inodes := fs.inodes[inode'.ino := inode'];
    }
    if error.Some? && done == 0 {
      return Err(error.value);
    }
    return Ok(done);
  }

  // ----- truncate -----

  /** The blocks a file of `size` bytes takes. */
  function CeilBlocks(geo: Geometry, size: nat): nat
    requires geo.Sane()
  {
    if Within(geo, size) == 0 then Lb(geo, size) else Lb(geo, size) + 1
  }

  lemma CeilIs(geo: Geometry, size: nat, lb: nat)
    requires geo.Sane()
    ensures lb < CeilBlocks(geo, size) <==> Times(lb, geo.blockSize) < size
  {
    PosIs(geo, size);
    if lb < Lb(geo, size) { TimesMono(lb + 1, Lb(geo, size), geo.blockSize); }
    if lb > Lb(geo, size) { TimesMono(Lb(geo, size) + 1, lb, geo.blockSize); }
  }

  lemma DeadLeaf(tree: map<Loc, nat>, l: Loc, first: nat, p: nat)
    requires l.Valid(p) && l in tree && l.Leaf()
    ensures Dead(tree, l, first, p) <==> l.Base(p) >= first
  {
  }

  /** After a cut the data blocks left are those below it, with their contents. */
  lemma CutLeaves(geo: Geometry, a: Space, c: Space, ino: nat, first: nat)
    requires geo.Sane() && Shape(geo.P(), a.tree) && Cut(a.tree, c.tree, ino, first, geo.P())
             && LeavesKept(a.disk, c.disk, c.tree)
    ensures OthersKept(Leaves(a.disk, a.tree), Leaves(c.disk, c.tree), ino)
    ensures forall l: Loc :: l in Leaves(c.disk, c.tree) ==>
            l in Leaves(a.disk, a.tree) && Leaves(c.disk, c.tree)[l] == Leaves(a.disk, a.tree)[l]
    ensures forall l: Loc :: l in Leaves(a.disk, a.tree) && l.Ino() == ino ==>
              l.Valid(geo.P()) && (l in Leaves(c.disk, c.tree) <==> l.Base(geo.P()) < first)
  {
    hide Dead, Loc.Base, Loc.Rest, Loc.Valid;
    forall l: Loc | l in a.tree && l.Leaf()
      ensures l in c.tree <==> !(l.Ino() == ino && l.Base(geo.P()) >= first)
    {
      DeadLeaf(a.tree, l, first, geo.P());
    }
  }

  /** A file padded to a larger size reads zeros after its old end. */
  lemma GrowResult(geo: Geometry, live: map<nat, Inode>, a: Space, z: Space, ino: nat, size: nat)
    requires geo.Sane() && InsideSize(geo, live, a.tree) && ino in live && z.tree == a.tree && size > live[ino].size
    requires TailZeroed(geo, Leaves(a.disk, a.tree), Leaves(z.disk, z.tree), ino, live[ino].size)
    ensures Contents(geo, Leaves(z.disk, z.tree), ino, size) ==
            Resizing(Contents(geo, Leaves(a.disk, a.tree), ino, live[ino].size), size)
  {
    hide ByteAt, Leaves, InsideSize, Lb, Within;
    var data := Contents(geo, Leaves(z.disk, z.tree), ino, size);
    forall i: nat | live[ino].size <= i < size
      ensures data[i] == 0
    {
      PastEnd(geo, live, a.disk, z.disk, a.tree, ino, i);
    }
  }

  /** A file cut shorter keeps the bytes before its new end. */
  lemma ShrinkResult(geo: Geometry, a: Space, z: Space, c: Space, ino: nat, old_: nat, size: nat)
    requires geo.Sane() && size <= old_ && z.tree == a.tree && Shape(geo.P(), a.tree)
    requires TailZeroed(geo, Leaves(a.disk, a.tree), Leaves(z.disk, z.tree), ino, size)
    requires Cut(z.tree, c.tree, ino, CeilBlocks(geo, size), geo.P()) && LeavesKept(z.disk, c.disk, c.tree)
    ensures Contents(geo, Leaves(c.disk, c.tree), ino, size) ==
            Resizing(Contents(geo, Leaves(a.disk, a.tree), ino, old_), size)
  {
    hide Leaves, Lb, Within, CeilBlocks, Cut, LeavesKept, LeafFor, Reach, Shape, Loc.Base, Loc.Valid;
    CutLeaves(geo, z, c, ino, CeilBlocks(geo, size));
    forall i: nat | i < size
      ensures ByteAt(geo, Leaves(c.disk, c.tree), ino, i) == ByteAt(geo, Leaves(a.disk, a.tree), ino, i)
    {
      PosIs(geo, i);
      CeilIs(geo, size, Lb(geo, i));
      assert ByteAt(geo, Leaves(z.disk, z.tree), ino, i) == ByteAt(geo, Leaves(a.disk, a.tree), ino, i);
    }
  }

  lemma ShrinkInside(geo: Geometry, live: map<nat, Inode>, tree: map<Loc, nat>, tree': map<Loc, nat>, inode: Inode)
    requires geo.Sane() && InsideSize(geo, live, tree) && inode.ino in live && Shape(geo.P(), tree)
    requires Cut(tree, tree', inode.ino, CeilBlocks(geo, inode.size), geo.P())
    ensures InsideSize(geo, live[inode.ino := inode], tree')
  {
    hide Dead, Loc.Base, Loc.Valid, CeilBlocks;
    forall l | l in tree' && l.Leaf() && l.Valid(geo.P()) && l.Ino() == inode.ino
      ensures Times(l.Base(geo.P()), geo.blockSize) < inode.size
    {
      DeadLeaf(tree, l, CeilBlocks(geo, inode.size), geo.P());
      CeilIs(geo, inode.size, l.Base(geo.P()));
    }
  }

  /** Cuts or pads the file to `size`. */
  method FileTruncate(fs: Ext2, ino: nat, size: nat) returns (r: Result<()>)
    requires FilesOk(fs) && SizesFit(fs.geo, fs.inodes)
    modifies fs`disk, fs`freeBlocks, fs`freeBlocksTotal, fs`live, fs`tree, fs`inodes
    ensures FilesOk(fs) && SizesFit(fs.geo, fs.inodes) && OnlyFile(fs, ino)
    ensures var e := old(ChangeRefusal(fs.inodes, fs.readOnly, ino));
            r == if e.Some? then Err(e.value) else if size > MaxFileSize(fs.geo.blockSize) then Err(EFBIG) else Ok(())
    ensures old(ChangeRefusal(fs.inodes, fs.readOnly, ino)).Some? ==>
              fs.disk == old(fs.disk) && fs.tree == old(fs.tree) && fs.live == old(fs.live)
                  && fs.inodes == old(fs.inodes)
    ensures r.Ok? ==> ino in fs.live && Data(fs, ino) == Resizing(old(Data(fs, ino)), size)
    ensures r.Err? && ino in fs.live ==> Data(fs, ino) == old(Data(fs, ino))
    // Space is given back: as many blocks are free as places are gone.
    ensures fs.freeBlocksTotal + |fs.tree| == old(fs.freeBlocksTotal + |fs.tree|)
    ensures fs.freeBlocksTotal >= old(fs.freeBlocksTotal)
    ensures r.Err? ==>
            fs.tree == old(fs.tree) && fs.inodes == old(fs.inodes) && fs.freeBlocksTotal == old(fs.freeBlocksTotal)
  {
    hide Ptr, EntriesAgree, RootsAgree, Distinct, InodesShaped, Shape, Owned, Bounded, BlocksAgree, Conserved,
         BlockCountsOk, Volume.Geometry.IsMetadata, Volume.Geometry.GroupsOk, Used, Leaves, ByteAt,
         FileLimit.MaxBlocks, MetaKept, OthersKept, InsideSize, TailZeroed, Contents, Resizing, Cut, LeavesKept,
         CeilBlocks;
    var geo := fs.geo;
    ghost var before, live := SpaceOf(fs), fs.live;
    WriteStart(geo, before, ino, 0, []);
    var got := GetInode(fs, ino);
    if got.Err? {
      return Err(got.error);
    }
    var inode := got.value;
    if fs.readOnly {
      return Err(EROFS);
    }
    if inode.kind != Regular {
      return Err(if inode.kind == Directory then EISDIR else EINVAL);
    }
    if size > MaxFileSize(geo.blockSize) {
      return Err(EFBIG);
    }
    InoIs(geo, fs.disk, fs.live, fs.tree, ino);
    var inode' := inode;
    if size > inode.size {
      ZeroTail(fs, inode, inode.size);
      GrowResult(geo, live, before, SpaceOf(fs), ino, size);
      inode' := SetSize(fs, inode, size);
      WriteInside(geo, live, before.tree, fs.tree, inode', size);
    } else if size < inode.size {
      inode' := Shrink(fs, inode, size);
    } else {
      ResizingSame(Data(fs, ino));
    }
    fs.inodes := fs.inodes[ino := inode'];
    return Ok(());
  }

  lemma ResizingSame(data: Bytes)
    ensures Resizing(data, |data|) == data
  {
  }

  /** The shrinking branch of `file_truncate`. */
  method Shrink(fs: Ext2, inode: Inode, size: nat) returns (inode': Inode)
    requires FilesOk(fs) && inode.ino in fs.live && fs.live[inode.ino] == inode && inode.HasTree() && size < inode.size
    modifies fs`disk, fs`freeBlocks, fs`freeBlocksTotal, fs`live, fs`tree
    ensures Mapped(fs) && InsideSize(fs.geo, fs.live, fs.tree)
    ensures fs.live == old(fs.live)[inode.ino := inode'] && SameFile(inode', inode.(size := size))
    ensures MetaKept(fs.geo, old(fs.disk), fs.disk)
            && OthersKept(old(Leaves(fs.disk, fs.tree)), Leaves(fs.disk, fs.tree), inode.ino)
    ensures Data(fs, inode.ino) == Resizing(old(Data(fs, inode.ino)), size)
    ensures fs.freeBlocksTotal + |fs.tree| == old(fs.freeBlocksTotal + |fs.tree|)
    ensures fs.freeBlocksTotal >= old(fs.freeBlocksTotal)
  {
    hide Ptr, EntriesAgree, RootsAgree, Distinct, InodesShaped, Shape, Owned, Bounded, BlocksAgree, Conserved,
         BlockCountsOk, Volume.Geometry.IsMetadata, Volume.Geometry.GroupsOk, Used, Leaves, ByteAt,
         FileLimit.MaxBlocks, MetaKept, OthersKept, InsideSize, TailZeroed, Contents, Resizing, Cut, LeavesKept,
         CeilBlocks;
    var geo := fs.geo;
    ghost var before, live, ino := SpaceOf(fs), fs.live, inode.ino;
    ZeroTail(fs, inode, size);
    ghost var zeroed := SpaceOf(fs);
    inode' := FreeFrom(fs, inode, CeilBlocks(geo, size));
    ghost var after := SpaceOf(fs);
    CutLeaves(geo, zeroed, after, ino, CeilBlocks(geo, size));
    OthersTrans(Leaves(before.disk, before.tree), Leaves(zeroed.disk, zeroed.tree), Leaves(after.disk, after.tree),
        ino);
    MetaTrans(geo, before.disk, zeroed.disk, zeroed.disk, after.disk) by { WriteStart(geo, zeroed, ino, 0, []); }
    ShrinkResult(geo, before, zeroed, after, ino, inode.size, size);
    inode' := SetSize(fs, inode', size);
    ShrinkInside(geo, live, before.tree, fs.tree, inode');
    assert fs.live == live[ino := inode'];
  }
}

/** File data (crates/ext2/src/file.rs): reading, writing and truncating files as sequences of
    bytes over the block map. */
module FileData {
  import opened Wrappers
  import opened Le
  import opened Arith
  import opened BlockPath
  import opened FileLimit
  import opened Volume
  import opened Allocator
  import opened Trees
  import opened BlockMap
  import opened Layout
  import opened Freeing

  // ----- what a file should do -----

  /** What a read of up to `n` bytes at `offset` gives. */
  function Reading(data: Bytes, offset: nat, n: nat): Bytes {
    if offset >= |data| then []
    else if offset + n <= |data| then data[offset..offset + n]
    else data[offset..]
  }

  /** `data` after `buf` was written at `offset`: a gap before it reads as zeros. */
  function Writing(data: Bytes, offset: nat, buf: Bytes): (r: Bytes) {
    if buf == [] then data
    else
      var size := if offset + |buf| > |data| then offset + |buf| else |data|;
      seq(size, i requires 0 <= i < size =>
        if offset <= i < offset + |buf| then buf[i - offset] else if i < |data| then data[i] else 0)
  }

  /** `data` cut or padded with zeros to `size`. */
  function Resizing(data: Bytes, size: nat): Bytes {
    if size <= |data| then data[..size] else data + Zeros(size - |data|)
  }

  /** What was written is read back. */
  lemma WrittenReadsBack(data: Bytes, offset: nat, buf: Bytes)
    ensures Reading(Writing(data, offset, buf), offset, |buf|) == buf
  {
  }

  /** A read elsewhere gives what it gave, and zeros in a gap the write made. */
  lemma WrittenElsewhere(data: Bytes, offset: nat, buf: Bytes, at: nat)
    requires at < |Writing(data, offset, buf)| && !(offset <= at < offset + |buf|)
    ensures Reading(Writing(data, offset, buf), at, 1) == if at < |data| then Reading(data, at, 1) else [0]
    ensures at < |data| || at < offset
  {
  }

  /** Reads of any sizes, one after the other, give the file. */
  lemma ReadInParts(data: Bytes, offset: nat, n: nat, m: nat)
    ensures Reading(data, offset, n) + Reading(data, offset + n, m) == Reading(data, offset, n + m)
  {
  }

  /** Bytes cut off do not come back, and the others stay. */
  lemma CutReadsZero(data: Bytes, size: nat, size': nat, at: nat)
    requires at < size'
    ensures Reading(Resizing(Resizing(data, size), size'), at, 1) ==
            if at < size && at < |data| then Reading(data, at, 1) else [0]
    ensures |Resizing(Resizing(data, size), size')| == size'
  {
    var cut, r := Resizing(data, size), Resizing(Resizing(data, size), size');
    assert r[at] == if at < |cut| then cut[at] else 0;
    assert r[at..at + 1] == [r[at]];
  }

  // ----- the bytes of a file -----

  /** The block a byte is in, and where. */
  function Lb(geo: Geometry, pos: nat): nat
    requires geo.Sane()
  {
    Quot(pos, geo.blockSize)
  }

  function Within(geo: Geometry, pos: nat): (at: nat)
    requires geo.Sane()
    ensures at < geo.blockSize
  {
    QuotRem(pos, geo.blockSize);
    Rem(pos, geo.blockSize)
  }

  /** The byte at `pos` of file `ino`: a hole reads as zero. */
  ghost function ByteAt(geo: Geometry, leaves: map<Loc, Bytes>, ino: nat, pos: nat): byte
    requires geo.Sane()
  {
    if Lb(geo, pos) < Reach(geo.P()) && LeafFor(ino, Lb(geo, pos), geo.P()) in leaves &&
       |leaves[LeafFor(ino, Lb(geo, pos), geo.P())]| == geo.blockSize
    then leaves[LeafFor(ino, Lb(geo, pos), geo.P())][Within(geo, pos)] else 0
  }

  /** The contents of a file. */
  ghost function Contents(geo: Geometry, leaves: map<Loc, Bytes>, ino: nat, size: nat): (data: Bytes)
    requires geo.Sane()
    ensures |data| == size
  {
    seq(size, i requires 0 <= i < size => ByteAt(geo, leaves, ino, i))
  }

  /** A zeroed block where a hole was reads the same. */
  lemma HoleFilled(geo: Geometry, leaves: map<Loc, Bytes>, leaf: Loc, ino: nat, pos: nat)
    requires geo.Sane() && leaf !in leaves
    ensures ByteAt(geo, leaves[leaf := Zeros(geo.blockSize)], ino, pos) == ByteAt(geo, leaves, ino, pos)
  {
    hide LeafFor, Reach, Lb;
  }

  /** New contents for logical block `lb` of `file` change its bytes and no others. */
  lemma BlockWritten(geo: Geometry, leaves: map<Loc, Bytes>, file: nat, lb: nat, data: Bytes, ino: nat, pos: nat)
    requires geo.Sane() && |data| == geo.blockSize && lb < Reach(geo.P())
    ensures ByteAt(geo, leaves[LeafFor(file, lb, geo.P()) := data], ino, pos) ==
            if ino == file && Lb(geo, pos) == lb then data[Within(geo, pos)] else ByteAt(geo, leaves, ino, pos)
  {
    hide Reach, Lb;
  }

  // ----- sound files -----

  /** No data block past the end of its file. */
  ghost predicate InsideSize(geo: Geometry, live: map<nat, Inode>, tree: map<Loc, nat>)
    requires geo.Sane()
  {
    forall l :: l in tree && l.Leaf() && l.Valid(geo.P()) && l.Ino() in live ==>
      Times(l.Base(geo.P()), geo.blockSize) < live[l.Ino()].size
  }

  lemma NoByteOutside(geo: Geometry, live: map<nat, Inode>, disk: map<nat, Bytes>, tree: map<Loc, nat>, ino: nat,
        pos: nat)
    requires geo.Sane() && InsideSize(geo, live, tree) && ino in live
             && Times(Lb(geo, pos), geo.blockSize) >= live[ino].size
    ensures ByteAt(geo, Leaves(disk, tree), ino, pos) == 0
  {
    hide Reach, Lb;
  }

  // ----- pieces of a transfer -----

  /** Bytes up to the end of a block are in that block. */
  lemma SameBlock(geo: Geometry, pos: nat, k: nat)
    requires geo.Sane() && k < geo.blockSize - Within(geo, pos)
    ensures Lb(geo, pos + k) == Lb(geo, pos) && Within(geo, pos + k) == Within(geo, pos) + k
  {
    QuotRem(pos, geo.blockSize);
    QuotOf(Lb(geo, pos), geo.blockSize, Within(geo, pos) + k);
  }

  lemma PosIs(geo: Geometry, pos: nat)
    requires geo.Sane()
    ensures pos == Times(Lb(geo, pos), geo.blockSize) + Within(geo, pos)
  {
    QuotRem(pos, geo.blockSize);
  }

  /** The bytes of a file from `offset` on. */
  ghost function Stretch(geo: Geometry, leaves: map<Loc, Bytes>, ino: nat, offset: nat, n: nat): (data: Bytes)
    requires geo.Sane()
    ensures |data| == n
  {
    seq<byte>(n, i requires 0 <= i < n => ByteAt(geo, leaves, ino, offset + i))
  }

  /** Reads `n` bytes of `inode`'s data from `offset`, holes as zeros. */
  method ReadData(fs: Ext2, inode: Inode, offset: nat, n: nat) returns (buf: Bytes)
    requires Mapped(fs) && inode.ino in fs.live && fs.live[inode.ino] == inode && inode.HasTree()
    ensures buf == Stretch(fs.geo, Leaves(fs.disk, fs.tree), inode.ino, offset, n)
  {
    hide Ptr, EntriesAgree, RootsAgree, Distinct, Owned, InodesShaped, Shape, Bounded, BlocksAgree, Conserved,
         BlockCountsOk, Volume.Geometry.IsMetadata, Volume.Geometry.GroupsOk, Lb, Within, LeafFor, Reach;
    var geo := fs.geo;
    ghost var leaves := Leaves(fs.disk, fs.tree);
    buf := [];
    while |buf| < n
      invariant |buf| <= n
      invariant forall i :: 0 <= i < |buf| ==> buf[i] == ByteAt(geo, leaves, inode.ino, offset + i)
      decreases n - |buf|
    {
      var pos := offset + |buf|;
      var within := Within(geo, pos);
      var len := if n - |buf| < geo.blockSize - within then n - |buf| else geo.blockSize - within;
      var r := Bmap(fs, inode, Lb(geo, pos));
      var piece;
      if r.value.Some? {
        var block := r.value.value;
        Present(geo, fs.disk, fs.live, fs.tree, LeafFor(inode.ino, Lb(geo, pos), geo.P()));
        piece := fs.disk[block][within..within + len];
      } else {
        piece := Zeros(len);
      }
      forall k | 0 <= k < len
        ensures piece[k] == ByteAt(geo, leaves, inode.ino, pos + k)
      {
        SameBlock(geo, pos, k);
      }
      PieceRead(geo, leaves, inode.ino, offset, buf, piece);
      buf := buf + piece;
    }
  }

  lemma PieceRead(geo: Geometry, leaves: map<Loc, Bytes>, ino: nat, offset: nat, buf: Bytes, piece: Bytes)
    requires geo.Sane() && forall i :: 0 <= i < |buf| ==> buf[i] == ByteAt(geo, leaves, ino, offset + i)
    requires forall k :: 0 <= k < |piece| ==> piece[k] == ByteAt(geo, leaves, ino, offset + |buf| + k)
    ensures forall i :: 0 <= i < |buf + piece| ==> (buf + piece)[i] == ByteAt(geo, leaves, ino, offset + i)
  {
    hide ByteAt;
    forall i | 0 <= i < |buf + piece|
      ensures (buf + piece)[i] == ByteAt(geo, leaves, ino, offset + i)
    {
      if i >= |buf| {
        assert piece[i - |buf|] == ByteAt(geo, leaves, ino, offset + |buf| + (i - |buf|));
      }
    }
  }

  // ----- writing -----

  /** `b` is `a` with `buf` over file `ino` from `offset` on, and no other byte of any file changed. */
  ghost predicate Overlaid(geo: Geometry, a: map<Loc, Bytes>, b: map<Loc, Bytes>, ino: nat, offset: nat, buf: Bytes)
    requires geo.Sane()
  {
    forall f: nat, pos: nat ::
      ByteAt(geo, b, f, pos) == if f == ino && offset <= pos < offset + |buf| then buf[pos - offset]
          else ByteAt(geo, a, f, pos)
  }

  /** The data blocks of every file but `ino` are as they were. */
  ghost predicate OthersKept(a: map<Loc, Bytes>, b: map<Loc, Bytes>, ino: nat) {
    forall l: Loc :: l.Ino() != ino ==> (l in a <==> l in b) && (l in a ==> b[l] == a[l])
  }

  lemma OthersTrans(a: map<Loc, Bytes>, b: map<Loc, Bytes>, c: map<Loc, Bytes>, ino: nat)
    requires OthersKept(a, b, ino) && OthersKept(b, c, ino)
    ensures OthersKept(a, c, ino)
  {
  }

  /** Bytes `within..within + len` of the block of `pos` are those from `pos` on. */
  lemma InPiece(geo: Geometry, pos: nat, len: nat, q: nat)
    requires geo.Sane() && len <= geo.blockSize - Within(geo, pos)
    ensures pos <= q < pos + len <==>
            Lb(geo, q) == Lb(geo, pos) && Within(geo, pos) <= Within(geo, q) < Within(geo, pos) + len
    ensures pos <= q < pos + len ==> Within(geo, q) == Within(geo, pos) + (q - pos)
  {
    if pos <= q < pos + len {
      SameBlock(geo, pos, q - pos);
    }
    PosIs(geo, pos);
    PosIs(geo, q);
  }

  /** One piece of a write: `old` is the block's contents unless all of it is replaced. */
  lemma PieceWritten(geo: Geometry, a: map<Loc, Bytes>, b: map<Loc, Bytes>, ino: nat, offset: nat, buf: Bytes,
        done: nat, len: nat, prior: Bytes)
    requires geo.Sane() && done + len <= |buf| && Overlaid(geo, a, b, ino, offset, buf[..done])
    requires var pos := offset + done;
             && len <= geo.blockSize - Within(geo, pos) && Lb(geo, pos) < Reach(geo.P())
             && |prior| == geo.blockSize
             && LeafFor(ino, Lb(geo, pos), geo.P()) in b && |b[LeafFor(ino, Lb(geo, pos), geo.P())]| == geo.blockSize
             && (len < geo.blockSize ==> prior == b[LeafFor(ino, Lb(geo, pos), geo.P())])
    ensures var pos := offset + done;
            Overlaid(geo, a, b[LeafFor(ino, Lb(geo, pos), geo.P()) :=
                Patch(prior, Within(geo, pos), buf[done..done + len])], ino, offset, buf[..done + len])
  {
    hide Lb, Within, Reach, LeafFor;
    var pos := offset + done;
    var leaf := LeafFor(ino, Lb(geo, pos), geo.P());
    var data := Patch(prior, Within(geo, pos), buf[done..done + len]);
    var part := buf[..done + len];
    var c := b[leaf := data];
    forall f: nat, q: nat
      ensures ByteAt(geo, c, f, q) ==
              if f == ino && offset <= q < offset + |part| then part[q - offset] else ByteAt(geo, a, f, q)
    {
      BlockWritten(geo, b, ino, Lb(geo, pos), data, f, q);
      InPiece(geo, pos, len, q);
      if f == ino && pos <= q < pos + len {
        assert data[Within(geo, q)] == buf[done..done + len][q - pos];
      } else {
        assert ByteAt(geo, c, f, q) == ByteAt(geo, b, f, q);
        if f == ino && offset <= q < offset + done {
          assert part[q - offset] == buf[..done][q - offset];
        }
      }
    }
    assert Overlaid(geo, a, c, ino, offset, part);
  }

  /** Stores new contents in a data block. */
  method StoreData(fs: Ext2, ghost leaf: Loc, block: nat, data: Bytes)
    requires Mapped(fs) && leaf in fs.tree && leaf.Leaf() && fs.tree[leaf] == block && |data| == fs.geo.blockSize
    modifies fs`disk
    ensures Mapped(fs) && MetaKept(fs.geo, old(fs.disk), fs.disk)
    ensures Leaves(fs.disk, fs.tree) == old(Leaves(fs.disk, fs.tree))[leaf := data]
  {
    hide Ptr, EntriesAgree, RootsAgree, Distinct, InodesShaped, Shape, Bounded, BlocksAgree, BlockCountsOk,
         Volume.Geometry.IsMetadata, Volume.Geometry.GroupsOk, Used, Leaves;
    DataOk(fs.geo, fs.disk, fs.live, fs.tree, leaf, data);
    DataBlock(fs.geo, fs.disk, block, data);
    fs.disk := fs.disk[block := data];
  }

  /** Every data block past the old end of the file is in what was written. */
  ghost predicate GrownTo(geo: Geometry, tree: map<Loc, nat>, tree': map<Loc, nat>, ino: nat, end: nat)
    requires geo.Sane()
  {
    forall l :: l in tree' && l !in tree && l.Leaf() && l.Valid(geo.P()) ==>
        l.Ino() == ino && Times(l.Base(geo.P()), geo.blockSize) < end
  }

  /** Byte `pos` of `ino` has no block, and with `free` blocks the path to one cannot be built. */
  ghost predicate Short(geo: Geometry, tree: map<Loc, nat>, ino: nat, pos: nat, free: nat)
    requires geo.Sane()
  {
    Lb(geo, pos) < Reach(geo.P()) && Missing(tree, LeafFor(ino, Lb(geo, pos), geo.P())) > free
  }

  lemma ShortOfFour(geo: Geometry, tree: map<Loc, nat>, ino: nat, pos: nat, free: nat)
    requires geo.Sane() && Short(geo, tree, ino, pos, free)
    ensures free < 4
  {
    hide LeafFor, Reach, Lb;
    MissingAtMost(tree, LeafFor(ino, Lb(geo, pos), geo.P()), geo.P());
  }

  /** `b` is `a` with `bytes` written to `ino` at `offset`. */
  ghost predicate Written(geo: Geometry, a: Space, b: Space, ino: nat, offset: nat, bytes: Bytes)
    requires geo.Sane()
  {
    && MetaKept(geo, a.disk, b.disk)
    && Overlaid(geo, Leaves(a.disk, a.tree), Leaves(b.disk, b.tree), ino, offset, bytes)
    && OthersKept(Leaves(a.disk, a.tree), Leaves(b.disk, b.tree), ino)
    && GrownTo(geo, a.tree, b.tree, ino, offset + |bytes|)
  }

  /** What is left, up to the end of the block of `pos`. */
  function PieceLen(geo: Geometry, pos: nat, left: nat): (len: nat)
    requires geo.Sane()
    ensures left > 0 ==> 0 < len <= left
    ensures len < left ==> len == geo.blockSize - Within(geo, pos)
  {
    PosIs(geo, pos);
    if left < geo.blockSize - Within(geo, pos) then left else geo.blockSize - Within(geo, pos)
  }

  /** The pieces of a write are its logical blocks, one after the other. */
  lemma PieceEnds(geo: Geometry, pos: nat, left: nat)
    requires geo.Sane() && left > 0
    ensures var len := PieceLen(geo, pos, left);
            Lb(geo, pos + len - 1) == Lb(geo, pos) && (len < left ==> Lb(geo, pos + len) == Lb(geo, pos) + 1)
  {
    PosIs(geo, pos);
    var lb, within, len := Lb(geo, pos), Within(geo, pos), PieceLen(geo, pos, left);
    QuotOf(lb, geo.blockSize, within + len - 1);
    if len < left { QuotOf(lb + 1, geo.blockSize, 0); }
  }

  /** A write of `done` bytes at `offset` that took `n` blocks laid what it appended in a row. */
  ghost predicate Appended(geo: Geometry, a: map<Loc, nat>, b: map<Loc, nat>, ino: nat, offset: nat, done: nat, n: nat)
    requires geo.Wf()
  {
    done > 0 ==> Continues(geo, a, b, ino, Lb(geo, offset), Lb(geo, offset + done - 1) + 1, n)
  }

  /** One round of `write_data`: the part of `buf` from `done` on that lies in one block. */
  method WritePiece(fs: Ext2, inode: Inode, offset: nat, buf: Bytes, done: nat, ghost before: Space)
    returns (r: Result<nat>, inode': Inode)
    requires Mapped(fs) && inode.ino in fs.live && fs.live[inode.ino] == inode && inode.HasTree()
    requires done < |buf| && offset + |buf| <= MaxFileSize(fs.geo.blockSize)
    requires Written(fs.geo, before, SpaceOf(fs), inode.ino, offset, buf[..done])
    modifies fs`disk, fs`freeBlocks, fs`freeBlocksTotal, fs`live, fs`tree
    ensures Mapped(fs) && fs.live == old(fs.live)[inode.ino := inode'] && SameFile(inode', inode)
    ensures r.Err? <==> Short(fs.geo, old(fs.tree), inode.ino, offset + done, old(fs.freeBlocksTotal))
    ensures r.Err? ==> r.error == ENOSPC && fs.freeBlocksTotal < 4 && inode' == inode && SpaceOf(fs) == old(SpaceOf(fs))
    ensures fs.freeBlocksTotal <= old(fs.freeBlocksTotal)
    ensures r.Ok? ==>
              && r.value == PieceLen(fs.geo, offset + done, |buf| - done)
              && Written(fs.geo, before, SpaceOf(fs), inode.ino, offset, buf[..done + r.value])
    ensures r.Ok? ==>
              var lb := Lb(fs.geo, offset + done);
              && inode.ino > 0 && lb < Reach(fs.geo.P()) && BuiltAt(fs.geo, old(fs.tree), fs.tree, inode.ino, lb)
              && fs.freeBlocksTotal == old(fs.freeBlocksTotal - Missing(fs.tree, LeafFor(inode.ino, lb, fs.geo.P())))
  {
    hide Ptr, EntriesAgree, RootsAgree, Distinct, InodesShaped, Shape, Owned, Bounded, BlocksAgree, Conserved,
         BlockCountsOk, Volume.Geometry.IsMetadata, Volume.Geometry.GroupsOk, Used, Leaves, Overlaid, GrownTo,
         MetaKept, OthersKept, LeafFor, Reach, Lb, Within, FileLimit.MaxBlocks, Missing, PlacedTo, Goal;
    var geo := fs.geo;
    var pos := offset + done;
    var within := Within(geo, pos);
    var len := PieceLen(geo, pos, |buf| - done);
    InsideLimit(geo, pos);
    ghost var mid := SpaceOf(fs);
    r, inode' := BmapAlloc(fs, inode, Lb(geo, pos));
    if r.Err? {
      return;
    }
    var block := r.value;
    ghost var leaf := LeafFor(inode.ino, Lb(geo, pos), geo.P());
    Present(geo, fs.disk, fs.live, fs.tree, leaf);
    AfterAlloc(geo, before, mid, SpaceOf(fs), inode.ino, offset, buf[..done], Lb(geo, pos), pos);
    // A whole block is overwritten without reading it first.
    var prior := if len == geo.blockSize then Zeros(geo.blockSize) else fs.disk[block];
    var data := Patch(prior, within, buf[done..done + len]);
    PieceWritten(geo, Leaves(before.disk, before.tree), Leaves(fs.disk, fs.tree), inode.ino, offset, buf, done, len,
        prior);
    ghost var disk := fs.disk;
    OthersWritten(Leaves(before.disk, before.tree), Leaves(mid.disk, mid.tree), Leaves(fs.disk, fs.tree), leaf,
        Zeros(geo.blockSize), data);
    StoreData(fs, leaf, block, data);
    MetaTrans(geo, before.disk, mid.disk, disk, fs.disk);
    GrownMore(geo, before.tree, fs.tree, inode.ino, pos + 1, pos + len);
    return Ok(len), inode';
  }

  /** Writes `buf` at `offset`, allocating blocks as needed; stops at the first error. */
  method WriteData(fs: Ext2, inode: Inode, offset: nat, buf: Bytes)
    returns (done: nat, error: Option<Errno>, inode': Inode)
    requires Mapped(fs) && inode.ino in fs.live && fs.live[inode.ino] == inode && inode.HasTree()
    requires offset + |buf| <= MaxFileSize(fs.geo.blockSize)
    modifies fs`disk, fs`freeBlocks, fs`freeBlocksTotal, fs`live, fs`tree
    ensures Mapped(fs) && MetaKept(fs.geo, old(fs.disk), fs.disk)
    ensures fs.live == old(fs.live)[inode.ino := inode'] && SameFile(inode', inode)
    ensures done <= |buf| && (error.None? <==> done == |buf|)
            && (error.Some? ==> error.value == ENOSPC && fs.freeBlocksTotal < 4)
    ensures Overlaid(fs.geo, old(Leaves(fs.disk, fs.tree)), Leaves(fs.disk, fs.tree), inode.ino, offset, buf[..done])
    ensures OthersKept(old(Leaves(fs.disk, fs.tree)), Leaves(fs.disk, fs.tree), inode.ino)
    ensures GrownTo(fs.geo, old(fs.tree), fs.tree, inode.ino, offset + done)
    ensures done == 0 ==> inode' == inode && fs.tree == old(fs.tree) && fs.freeBlocksTotal == old(fs.freeBlocksTotal)
    // It stops exactly where a block cannot be placed.
    ensures error.Some? ==> Short(fs.geo, fs.tree, inode.ino, offset + done, fs.freeBlocksTotal)
    ensures buf != [] ==> (done == 0 <==> Short(fs.geo, old(fs.tree), inode.ino, offset, old(fs.freeBlocksTotal)))
    ensures fs.freeBlocksTotal <= old(fs.freeBlocksTotal)
    // What it appends lies in a row while there is room.
    ensures Appended(fs.geo, old(fs.tree), fs.tree, inode.ino, offset, done,
                     old(fs.freeBlocksTotal) - fs.freeBlocksTotal)
  {
    hide Short, Conserved, Bounded, BlocksAgree, BlockCountsOk, Leaves, Overlaid, GrownTo, MetaKept, Lb, Distinct,
         OthersKept, FileLimit.MaxBlocks, Volume.Geometry.GroupsOk, Continues, GrewBelow, BuiltAt, Missing, Reach,
         LeafFor, PieceLen, Owned, InodesShaped, RootsAgree, EntriesAgree, Shape;
    var geo := fs.geo;
    ghost var before := SpaceOf(fs);
    WriteStart(geo, before, inode.ino, offset, buf);
    ContinuesStart(geo, fs.tree, inode.ino, Lb(geo, offset));
    done, inode' := 0, inode;
    ghost var end := Lb(geo, offset);
    while done < |buf|
      invariant done <= |buf| && Mapped(fs) && Written(geo, before, SpaceOf(fs), inode.ino, offset, buf[..done])
      invariant fs.live == old(fs.live)[inode.ino := inode'] && SameFile(inode', inode)
      invariant done == 0 ==> inode' == inode && SpaceOf(fs) == before
      invariant done > 0 ==> !Short(geo, before.tree, inode.ino, offset, before.free)
      invariant fs.freeBlocksTotal <= before.free
      invariant Lb(geo, offset) <= end
      invariant if done == 0 then end == Lb(geo, offset) else end == Lb(geo, offset + done - 1) + 1
      invariant done < |buf| ==> Lb(geo, offset + done) == end
      invariant GrewBelow(before.tree, fs.tree, inode.ino, end, geo.P())
      invariant Continues(geo, before.tree, fs.tree, inode.ino, Lb(geo, offset), end, before.free - fs.freeBlocksTotal)
      decreases |buf| - done
    {
      var r;
      ghost var tree, free := fs.tree, fs.freeBlocksTotal;
      r, inode' := WritePiece(fs, inode', offset, buf, done, before);
      if r.Err? {
        return done, Some(r.error), inode';
      }
      PieceEnds(geo, offset + done, |buf| - done);
      GrewMore(geo, before.tree, tree, fs.tree, inode.ino, end);
      ContinuesMore(geo, before.tree, tree, fs.tree, inode.ino, Lb(geo, offset), end, before.free - free);
      end := end + 1;
      done := done + r.value;
    }
    return done, None, inode';
  }

  lemma WriteStart(geo: Geometry, a: Space, ino: nat, offset: nat, buf: Bytes)
    requires geo.Sane()
    ensures MetaKept(geo, a.disk, a.disk)
            && Overlaid(geo, Leaves(a.disk, a.tree), Leaves(a.disk, a.tree), ino, offset, buf[..0])
    ensures GrownTo(geo, a.tree, a.tree, ino, offset) && OthersKept(Leaves(a.disk, a.tree), Leaves(a.disk, a.tree), ino)
  {
  }

  lemma OthersWritten(a: map<Loc, Bytes>, b: map<Loc, Bytes>, c: map<Loc, Bytes>, leaf: Loc, blank: Bytes, data: Bytes)
    requires OthersKept(a, b, leaf.Ino()) && (c == b || c == b[leaf := blank])
    ensures OthersKept(a, c[leaf := data], leaf.Ino())
  {
  }

  lemma MetaTrans(geo: Geometry, a: map<nat, Bytes>, b: map<nat, Bytes>, c: map<nat, Bytes>, d: map<nat, Bytes>)
    requires geo.Sane() && MetaKept(geo, a, b) && MetaKept(geo, b, c) && MetaKept(geo, c, d)
    ensures MetaKept(geo, a, d)
  {
  }

  lemma GrownMore(geo: Geometry, tree: map<Loc, nat>, tree': map<Loc, nat>, ino: nat, end: nat, end': nat)
    requires geo.Sane() && GrownTo(geo, tree, tree', ino, end) && end <= end'
    ensures GrownTo(geo, tree, tree', ino, end')
  {
  }

  /** A byte within the largest file is in a block within the largest file. */
  lemma InsideLimit(geo: Geometry, pos: nat)
    requires geo.Sane() && pos < MaxFileSize(geo.blockSize)
    ensures Lb(geo, pos) < MaxBlocks(geo.blockSize) <= Reach(geo.P())
  {
    LimitReached(geo.blockSize);
    PosIs(geo, pos);
    TimesIs(Lb(geo, pos), geo.blockSize);
  }

  /** Allocating the block of `pos` changes no byte of any file. */
  lemma AfterAlloc(geo: Geometry, a: Space, b: Space, c: Space, ino: nat, offset: nat, written: Bytes, lb: nat,
        pos: nat)
    requires geo.Sane() && lb == Lb(geo, pos) && lb < Reach(geo.P()) && offset + |written| == pos
    requires Overlaid(geo, Leaves(a.disk, a.tree), Leaves(b.disk, b.tree), ino, offset, written)
    requires GrownTo(geo, a.tree, b.tree, ino, pos)
    requires var leaf := LeafFor(ino, lb, geo.P());
             && leaf in c.tree && c.tree[leaf] in c.disk && |c.disk[c.tree[leaf]]| == geo.blockSize
             && (forall l :: l in c.tree && l !in b.tree ==> leaf.Under(l))
             && (leaf in b.tree ==> Leaves(c.disk, c.tree) == Leaves(b.disk, b.tree))
             && (leaf !in b.tree ==> Leaves(c.disk, c.tree) == Leaves(b.disk, b.tree)[leaf := Zeros(geo.blockSize)])
    ensures Overlaid(geo, Leaves(a.disk, a.tree), Leaves(c.disk, c.tree), ino, offset, written)
    ensures GrownTo(geo, a.tree, c.tree, ino, pos + 1)
    ensures var leaf := LeafFor(ino, lb, geo.P());
            leaf in Leaves(c.disk, c.tree) && Leaves(c.disk, c.tree)[leaf] == c.disk[c.tree[leaf]]
  {
    hide Lb, Reach, ByteAt;
    var leaf := LeafFor(ino, lb, geo.P());
    if leaf !in b.tree {
      forall f: nat, q: nat
        ensures ByteAt(geo, Leaves(c.disk, c.tree), f, q) == ByteAt(geo, Leaves(b.disk, b.tree), f, q)
      {
        HoleFilled(geo, Leaves(b.disk, b.tree), leaf, f, q);
      }
    }
    forall l | l in c.tree && l !in a.tree && l.Leaf() && l.Valid(geo.P())
      ensures l.Ino() == ino && Times(l.Base(geo.P()), geo.blockSize) < pos + 1
    {
      if l !in b.tree {
        LeafAlone(leaf, l, geo.P());
        PosIs(geo, pos);
      }
    }
  }

  /** A data place lies under no other data place. */
  lemma LeafAlone(leaf: Loc, l: Loc, p: nat)
    requires leaf.Valid(p) && leaf.Leaf() && l.Leaf() && leaf.Under(l)
    ensures leaf == l
  {
    if leaf != l {
      UnderSlot(leaf, l);
      UnderDeeper(leaf, l);
      if leaf.Level() == l.Level() { UnderDeeper(leaf.up, l); }
    }
  }
}

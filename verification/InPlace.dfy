/** The changes to a block's bytes as the driver makes them, in place in a cache buffer
    (crates/ext2/src/bitmap.rs, crates/ext2/src/dirent.rs): each is the function on byte sequences that the
    rest of the model uses. */
module InPlace {
  import opened Wrappers
  import opened Le
  import Bitmap
  import opened Dirent
  import Volume

  // ----- bytes -----

  lemma PatchJoin(b: Bytes, at: nat, x: Bytes, y: Bytes)
    requires at + |x| + |y| <= |b|
    ensures Patch(Patch(b, at, x), at + |x|, y) == Patch(b, at, x + y)
  {
  }

  /** Copies `bytes` over the buffer from `at` on. */
  method Store(block: array<byte>, at: nat, bytes: Bytes)
    requires at + |bytes| <= block.Length
    modifies block
    ensures block[..] == Patch(old(block[..]), at, bytes)
  {
    for i := 0 to |bytes|
      invariant forall j :: 0 <= j < block.Length ==>
                block[j] == if at <= j < at + i then bytes[j - at] else old(block[j])
    {
      block[at + i] := bytes[i];
    }
  }

  method FillZero(block: array<byte>)
    modifies block
    ensures block[..] == Zeros(block.Length)
  {
    for i := 0 to block.Length
      invariant forall j :: 0 <= j < i ==> block[j] == 0
    {
      block[i] := 0;
    }
  }

  // ----- bitmaps -----

  method SetBit(bits: array<byte>, i: nat)
    requires i < 8 * bits.Length
    modifies bits
    ensures bits[..] == Bitmap.Set(old(bits[..]), i)
  {
    Bitmap.OrBit(bits[i / 8], i % 8, i % 8);
    bits[i / 8] := Bitmap.Or(bits[i / 8], i % 8);
  }

  method ClearBit(bits: array<byte>, i: nat)
    requires i < 8 * bits.Length
    modifies bits
    ensures bits[..] == Bitmap.Clear(old(bits[..]), i)
  {
    Bitmap.AndNotBit(bits[i / 8], i % 8, i % 8);
    bits[i / 8] := Bitmap.AndNot(bits[i / 8], i % 8);
  }

  // ----- directory records -----

  /** `put`: the fields one after the other, then the name. */
  method WriteRecord(block: array<byte>, offset: nat, recLen: u16, name: Name, inode: u32, fileType: Option<byte>)
    requires |name| <= 255 && offset + HEADER + |name| <= block.Length
    modifies block
    ensures block[..] == Put(old(block[..]), offset, recLen, name, inode, fileType)
  {
    hide Le32, Le16, Patch;
    ghost var was := block[..];
    Store(block, offset, Le32(inode));
    Store(block, offset + 4, Le16(recLen));
    PatchJoin(was, offset, Le32(inode), Le16(recLen));
    ghost var lens := match fileType case Some(t) => [|name|, t] case None => Le16(|name|);
    match fileType {
      case Some(t) => Store(block, offset + 6, [|name|, t]);
      case None => Store(block, offset + 6, Le16(|name|));
    }
    PatchJoin(was, offset, Le32(inode) + Le16(recLen), lens);
    Store(block, offset + HEADER, name);
    PatchJoin(was, offset, Le32(inode) + Le16(recLen) + lens, name);
  }

  method WriteRecLen(block: array<byte>, offset: nat, recLen: u16)
    requires offset + 6 <= block.Length
    modifies block
    ensures block[..] == SetRecLen(old(block[..]), offset, recLen)
  {
    Store(block, offset + 4, Le16(recLen));
  }

  /** `insert` at a place `room` found. */
  method InsertRecord(block: array<byte>, at: Entry, name: Name, inode: u32, fileType: Option<byte>)
    requires CanInsert(block[..], at, name)
    modifies block
    ensures block[..] == Insert(old(block[..]), at, name, inode, fileType)
  {
    hide Put, SetRecLen;
    if at.inode == 0 {
      WriteRecord(block, at.offset, at.recLen, name, inode, fileType);
    } else {
      var keep := RecLenFor(at.nameLen);
      WriteRecLen(block, at.offset, keep);
      WriteRecord(block, at.offset + keep, at.recLen - keep, name, inode, fileType);
    }
  }

  method RemoveRecord(block: array<byte>, e: Entry, prev: Option<Entry>)
    requires e.offset + HEADER <= block.Length
    requires prev.Some? ==> prev.value.offset + HEADER <= block.Length && prev.value.recLen + e.recLen <= U16_MAX
    modifies block
    ensures block[..] == RemoveAt(old(block[..]), e, prev)
  {
    match prev {
      case Some(p) => WriteRecLen(block, p.offset, p.recLen + e.recLen);
      case None => Store(block, e.offset, Le32(0));
    }
  }

  method RetargetRecordAt(block: array<byte>, e: Entry, inode: u32, fileType: Option<byte>)
    requires e.offset + HEADER <= block.Length
    modifies block
    ensures block[..] == Retarget(old(block[..]), e, inode, fileType)
  {
    Store(block, e.offset, Le32(inode));
    if fileType.Some? {
      block[e.offset + 7] := fileType.value;
    }
  }

  method MakeEmpty(block: array<byte>)
    requires HEADER <= block.Length <= U16_MAX
    modifies block
    ensures block[..] == InitEmpty(block.Length)
  {
    FillZero(block);
    WriteRecLen(block, 0, block.Length);
  }

  method MakeDir(block: array<byte>, inode: u32, parent: u32, filetype: bool)
    requires 24 <= block.Length <= U16_MAX
    modifies block
    ensures block[..] == InitDir(block.Length, inode, parent, filetype)
  {
    hide Put;
    var t := if filetype then Some(TypeByte(Volume.Directory)) else None;
    FillZero(block);
    WriteRecord(block, 0, 12, DOT, inode, t);
    WriteRecord(block, 12, block.Length - 12, DOTDOT, parent, t);
  }
}

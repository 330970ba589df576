/** Bytes and the little-endian fields of on-disk structures (crates/ext2/src/le.rs). */
module Le {

  type byte = x: int | 0 <= x < 0x100
  type u16 = x: int | 0 <= x < 0x1_0000
  type u32 = x: int | 0 <= x < 0x1_0000_0000
  type u64 = x: int | 0 <= x < 0x1_0000_0000_0000_0000

  type Bytes = seq<byte>

  const U16_MAX: nat := 0xFFFF
  const U32_MAX: nat := 0xFFFF_FFFF
  const U64_MAX: nat := 0xFFFF_FFFF_FFFF_FFFF

  function Zeros(n: nat): (z: Bytes)
    ensures |z| == n && forall i :: 0 <= i < n ==> z[i] == 0
  {
    seq(n, _ => 0)
  }

  function U16At(b: Bytes, at: nat): (v: u16)
    requires at + 2 <= |b|
  {
    b[at] as int + 0x100 * b[at + 1] as int
  }

  function U32At(b: Bytes, at: nat): (v: u32)
    requires at + 4 <= |b|
  {
    b[at] as int + 0x100 * b[at + 1] as int + 0x1_0000 * b[at + 2] as int + 0x100_0000 * b[at + 3] as int
  }

  function U64At(b: Bytes, at: nat): (v: u64)
    requires at + 8 <= |b|
  {
    U32At(b, at) + 0x1_0000_0000 * U32At(b, at + 4)
  }

  /** `bytes` copied over `b` from `at` on. */
  function Patch(b: Bytes, at: nat, bytes: Bytes): (r: Bytes)
    requires at + |bytes| <= |b|
    ensures |r| == |b|
    ensures forall i :: 0 <= i < |b| ==> r[i] == if at <= i < at + |bytes| then bytes[i - at] else b[i]
  {
    b[..at] + bytes + b[at + |bytes|..]
  }

  function Le16(v: u16): (r: Bytes)
    ensures |r| == 2 && U16At(r, 0) == v
  {
    [v % 0x100, v / 0x100]
  }

  function Le32(v: u32): (r: Bytes)
    ensures |r| == 4 && U32At(r, 0) == v
  {
    [v % 0x100, v / 0x100 % 0x100, v / 0x1_0000 % 0x100, v / 0x100_0000]
  }

  function Le64(v: u64): (r: Bytes)
    ensures |r| == 8 && U64At(r, 0) == v
  {
    Le32(v % 0x1_0000_0000) + Le32(v / 0x1_0000_0000)
  }

  /** A field stored in the middle of bytes reads back. */
  lemma StoredU16(b: Bytes, at: nat, v: u16)
    requires at + 2 <= |b| && b[at..at + 2] == Le16(v)
    ensures U16At(b, at) == v
  {
    var c := b[at..at + 2];
    assert b[at] == c[0] && b[at + 1] == c[1];
  }

  lemma StoredU32(b: Bytes, at: nat, v: u32)
    requires at + 4 <= |b| && b[at..at + 4] == Le32(v)
    ensures U32At(b, at) == v
  {
    hide Le32;
    var c := b[at..at + 4];
    assert b[at] == c[0] && b[at + 1] == c[1] && b[at + 2] == c[2] && b[at + 3] == c[3];
  }

  lemma StoredU64(b: Bytes, at: nat, v: u64)
    requires at + 8 <= |b| && b[at..at + 8] == Le64(v)
    ensures U64At(b, at) == v
  {
    hide Le32;
    assert Le64(v)[..4] == Le32(v % 0x1_0000_0000) && Le64(v)[4..] == Le32(v / 0x1_0000_0000);
    assert b[at..at + 4] == b[at..at + 8][..4] && b[at + 4..at + 8] == b[at..at + 8][4..];
    StoredU32(b, at, v % 0x1_0000_0000);
    StoredU32(b, at + 4, v / 0x1_0000_0000);
  }

  function SetU16(b: Bytes, at: nat, v: u16): (r: Bytes)
    requires at + 2 <= |b|
    ensures |r| == |b| && U16At(r, at) == v
    ensures forall i :: 0 <= i < |b| && !(at <= i < at + 2) ==> r[i] == b[i]
  {
    Patch(b, at, Le16(v))
  }

  function SetU32(b: Bytes, at: nat, v: u32): (r: Bytes)
    requires at + 4 <= |b|
    ensures |r| == |b| && U32At(r, at) == v
    ensures forall i :: 0 <= i < |b| && !(at <= i < at + 4) ==> r[i] == b[i]
  {
    Patch(b, at, Le32(v))
  }

  /** A field inside what was copied reads as it does there. */
  lemma PatchU16(b: Bytes, at: nat, bytes: Bytes, off: nat)
    requires at + |bytes| <= |b| && off + 2 <= |bytes|
    ensures U16At(Patch(b, at, bytes), at + off) == U16At(bytes, off)
  {
  }

  lemma PatchU32(b: Bytes, at: nat, bytes: Bytes, off: nat)
    requires at + |bytes| <= |b| && off + 4 <= |bytes|
    ensures U32At(Patch(b, at, bytes), at + off) == U32At(bytes, off)
  {
  }

  /** A field past the first of two pieces. */
  lemma ConcatU16(a: Bytes, b: Bytes, off: nat)
    requires off + 2 <= |b|
    ensures U16At(a + b, |a| + off) == U16At(b, off)
  {
  }
}

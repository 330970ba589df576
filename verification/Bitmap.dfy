/** Allocation bitmaps (crates/ext2/src/bitmap.rs): bit `i` is bit `i % 8` of byte `i / 8`,
    set while block or inode `i` of the group is in use. */
module Bitmap {
  import opened Le
  import opened Wrappers
  import Sets

  // ----- one byte -----

  /** `1 << k` */
  function Weight(k: nat): (w: nat)
    ensures w > 0
  {
    if k == 0 then 1 else 2 * Weight(k - 1)
  }

  predicate Bit(b: nat, k: nat) {
    if k == 0 then b % 2 == 1 else Bit(b / 2, k - 1)
  }

  /** `b | 1 << k` */
  function Or(b: nat, k: nat): (r: nat) {
    if Bit(b, k) then b else b + Weight(k)
  }

  /** `b & !(1 << k)` */
  function AndNot(b: nat, k: nat): (r: int) {
    if Bit(b, k) then b - Weight(k) else b
  }

  lemma {:induction false} BitWeighs(b: nat, k: nat)
    requires Bit(b, k)
    ensures Weight(k) <= b
  {
    if k > 0 { BitWeighs(b / 2, k - 1); }
  }

  /** Adding a clear bit's weight sets that bit, changes no other and does not carry. */
  lemma {:induction false} AddWeight(b: nat, k: nat, j: nat)
    requires !Bit(b, k)
    ensures Bit(b + Weight(k), j) <==> j == k || Bit(b, j)
    ensures b < Weight(j) && k < j ==> b + Weight(k) < Weight(j)
  {
    if k > 0 {
      assert (b + Weight(k)) / 2 == b / 2 + Weight(k - 1);
      if j > 0 { AddWeight(b / 2, k - 1, j - 1); }
    }
  }

  lemma OrBit(b: byte, k: nat, j: nat)
    requires k < 8
    ensures Or(b, k) < 0x100
    ensures Bit(Or(b, k), j) <==> j == k || Bit(b, j)
  {
    assert Weight(8) == 0x100;
    if !Bit(b, k) {
      AddWeight(b, k, 8);
      AddWeight(b, k, j);
    }
  }

  lemma AndNotBit(b: byte, k: nat, j: nat)
    requires k < 8
    ensures 0 <= AndNot(b, k) < 0x100
    ensures Bit(AndNot(b, k), j) <==> j != k && Bit(b, j)
  {
    if Bit(b, k) {
      BitWeighs(b, k);
      SubWeight(b, k);
      AddWeight(b - Weight(k), k, j);
    }
  }

  lemma {:induction false} SubWeight(b: nat, k: nat)
    requires Bit(b, k) && Weight(k) <= b
    ensures !Bit(b - Weight(k), k)
  {
    if k > 0 {
      assert (b - Weight(k)) / 2 == b / 2 - Weight(k - 1);
      BitWeighs(b / 2, k - 1);
      SubWeight(b / 2, k - 1);
    }
  }

  lemma {:induction false} AllOnes(b: byte, k: nat)
    requires b == 0xFF && k < 8
    ensures Bit(b, k)
  {
    assert Bit(b, 0) && Bit(b, 1) && Bit(b, 2) && Bit(b, 3);
    assert Bit(b, 4) && Bit(b, 5) && Bit(b, 6) && Bit(b, 7);
  }

  // ----- a bitmap -----

  predicate Test(bits: Bytes, i: nat)
    requires i < 8 * |bits|
  {
    Bit(bits[i / 8], i % 8)
  }

  /** Setting bit `i` sets it and leaves every other bit. */
  function Set(bits: Bytes, i: nat): (r: Bytes)
    requires i < 8 * |bits|
    ensures |r| == |bits|
    ensures forall j :: 0 <= j < 8 * |bits| ==> (Test(r, j) <==> j == i || Test(bits, j))
  {
    OrBit(bits[i / 8], i % 8, i % 8);
    var r := bits[i / 8 := Or(bits[i / 8], i % 8)];
    assert forall j :: 0 <= j < 8 * |bits| ==> (Test(r, j) <==> j == i || Test(bits, j)) by {
      forall j | 0 <= j < 8 * |bits|
        ensures Test(r, j) <==> j == i || Test(bits, j)
      {
        OrBit(bits[i / 8], i % 8, j % 8);
      }
    }
    r
  }

  /** Clearing bit `i` clears it and leaves every other bit. */
  function Clear(bits: Bytes, i: nat): (r: Bytes)
    requires i < 8 * |bits|
    ensures |r| == |bits|
    ensures forall j :: 0 <= j < 8 * |bits| ==> (Test(r, j) <==> j != i && Test(bits, j))
  {
    AndNotBit(bits[i / 8], i % 8, i % 8);
    var r := bits[i / 8 := AndNot(bits[i / 8], i % 8)];
    assert forall j :: 0 <= j < 8 * |bits| ==> (Test(r, j) <==> j != i && Test(bits, j)) by {
      forall j | 0 <= j < 8 * |bits|
        ensures Test(r, j) <==> j != i && Test(bits, j)
      {
        AndNotBit(bits[i / 8], i % 8, j % 8);
      }
    }
    r
  }

  /** The first clear bit in `from..to`, whole used bytes skipped at once. */
  method FirstZero(bits: Bytes, from: nat, to: nat) returns (r: Option<nat>)
    requires to <= 8 * |bits|
    ensures r.None? ==> forall j :: from <= j < to ==> Test(bits, j)
    ensures r.Some? ==> from <= r.value < to && !Test(bits, r.value)
    ensures r.Some? ==> forall j :: from <= j < r.value ==> Test(bits, j)
  {
    var i := from;
    while i < to
      invariant from <= i && (i <= to || i == from)
      invariant forall j :: from <= j < i && j < to ==> Test(bits, j)
    {
      if i % 8 == 0 && i + 8 <= to && bits[i / 8] == 0xFF {
        forall j | i <= j < i + 8
          ensures Test(bits, j)
        {
          AllOnes(bits[i / 8], j % 8);
        }
        i := i + 8;
        continue;
      }
      if !Test(bits, i) {
        return Some(i);
      }
      i := i + 1;
    }
    return None;
  }

  /** Bit `i` is the first clear one from `goal` on among the first `len`, going round to the start. */
  ghost predicate FirstFrom(bits: Bytes, len: nat, goal: nat, i: nat)
    requires len <= 8 * |bits|
  {
    && i < len && !Test(bits, i)
    && (if goal <= i then forall j :: goal <= j < i ==> Test(bits, j)
        else forall j :: goal <= j < len || 0 <= j < i ==> Test(bits, j))
  }

  /** The first clear bit at or after `goal` among the first `len`, wrapping around to the start. */
  method FindZero(bits: Bytes, len: nat, goal: nat) returns (r: Option<nat>)
    requires len <= 8 * |bits|
    ensures r.None? <==> forall j :: 0 <= j < len ==> Test(bits, j)
    ensures r.Some? ==> FirstFrom(bits, len, goal, r.value)
  {
    var start := if goal < len then goal else len;
    r := FirstZero(bits, start, len);
    if r.None? {
      r := FirstZero(bits, 0, start);
    }
  }

  // ----- counting -----

  /** The clear bits among the first `len`. */
  function ClearBits(bits: Bytes, len: nat): (s: set<nat>)
    requires len <= 8 * |bits|
  {
    set i: nat | i < len && !Test(bits, i)
  }

  function ClearCount(bits: Bytes, len: nat): nat
    requires len <= 8 * |bits|
  {
    |ClearBits(bits, len)|
  }

  lemma SetCount(bits: Bytes, len: nat, i: nat)
    requires len <= 8 * |bits| && i < len && !Test(bits, i)
    ensures ClearCount(Set(bits, i), len) == ClearCount(bits, len) - 1
  {
    assert ClearBits(Set(bits, i), len) == ClearBits(bits, len) - {i};
  }

  lemma ClearCountUp(bits: Bytes, len: nat, i: nat)
    requires len <= 8 * |bits| && i < len && Test(bits, i)
    ensures ClearCount(Clear(bits, i), len) == ClearCount(bits, len) + 1
  {
    assert ClearBits(Clear(bits, i), len) == ClearBits(bits, len) + {i};
  }

  lemma CountZero(bits: Bytes, len: nat)
    requires len <= 8 * |bits|
    ensures ClearCount(bits, len) == 0 <==> forall i :: 0 <= i < len ==> Test(bits, i)
  {
    if i :| 0 <= i < len && !Test(bits, i) {
      assert i in ClearBits(bits, len);
    }
  }

  lemma CountAtMost(bits: Bytes, len: nat)
    requires len <= 8 * |bits|
    ensures ClearCount(bits, len) <= len
  {
    Sets.SubsetSize(ClearBits(bits, len), Sets.Below(len));
  }

  lemma CountSame(a: Bytes, b: Bytes, len: nat)
    requires len <= 8 * |a| && len <= 8 * |b| && forall i :: 0 <= i < len ==> Test(a, i) == Test(b, i)
    ensures ClearCount(a, len) == ClearCount(b, len)
  {
    assert ClearBits(a, len) == ClearBits(b, len);
  }
}

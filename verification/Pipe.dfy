/** Pipes (kernel/src/pipe.rs): a ring of 16 KiB as a queue of bytes. */
module Pipe {
  import opened Wrappers
  import opened Le

  const SIZE: nat := 16384

  datatype Side = Read | Write

  class Pipe {
    const ring: array<byte>
    /** Where the oldest byte is, and how many there are. */
    var start: nat
    var len: nat
    var readers: nat
    var writers: nat
    /** Every byte written and every byte read so far. */
    ghost var written: Bytes
    ghost var taken: Bytes

    /** What waits, oldest first. */
    ghost function Waiting(): Bytes
      requires ring.Length == SIZE && start < SIZE && len <= SIZE
      reads this, ring
    {
      Ring(ring[..], start, len)
    }

    /** The bytes written are the bytes read, then what waits. */
    ghost predicate Valid()
      reads this, ring
    {
      && ring.Length == SIZE && start < SIZE && len <= SIZE
      && written == taken + Waiting()
    }

    /** A new pipe: one read end and one write end. */
    constructor ()
      ensures Valid() && fresh(ring) && Waiting() == [] && written == [] && readers == 1 && writers == 1
    {
      ring := new byte[SIZE];
      start, len, readers, writers := 0, 0, 1, 1;
      written, taken := [], [];
    }

    /** Takes up to `n` bytes: none at the end of the data, `None` when the ring is empty and a write end
        is open. */
    method Read(n: nat) returns (r: Option<Bytes>)
      requires Valid()
      modifies this`start, this`len, this`taken
      ensures Valid() && written == old(written)
      ensures r.None? <==> old(len) == 0 && writers > 0
      ensures r.None? ==> taken == old(taken) && Waiting() == old(Waiting())
      ensures r.Some? ==>
              |r.value| == (if n < old(len) then n else old(len)) && taken == old(taken) + r.value
              && old(Waiting()) == r.value + Waiting()
      // Into a non-empty buffer, 0 bytes mean the end of the data.
      ensures n > 0 ==> (r == Some([]) <==> old(len) == 0 && writers == 0)
    {
      if len == 0 {
        return if writers == 0 then Some([]) else None;
      }
      hide Ring, Taken, Wrap;
      var k := if n < len then n else len;
      var out := Taken(ring[..], start, k);
      RingHead(ring[..], start, len, k);
      RingTail(ring[..], start, len, k);
      Split(taken, Waiting(), k);
      start := (start + k) % SIZE;
      len := len - k;
      taken := taken + out;
      return Some(out);
    }

    /** Puts as much of `bytes` as fits; `None` when the ring is full, `EPIPE` once every read end has
        closed. */
    method Write(bytes: Bytes) returns (r: Result<Option<nat>>)
      requires Valid()
      modifies this`len, this`written, ring
      ensures Valid() && taken == old(taken)
      ensures r == Err(EPIPE) <==> readers == 0
      ensures r.Err? ==> r.error == EPIPE
      ensures r == Ok(None) <==> readers > 0 && bytes != [] && old(len) == SIZE
      ensures r.Ok? && r.value.Some? ==>
                && r.value.value == (if |bytes| < SIZE - old(len) then |bytes| else SIZE - old(len))
                && Waiting() == old(Waiting()) + bytes[..r.value.value]
                && written == old(written) + bytes[..r.value.value]
      ensures !(r.Ok? && r.value.Some?) ==> Waiting() == old(Waiting()) && written == old(written)
    {
      if readers == 0 {
        return Err(EPIPE);
      }
      var n := if |bytes| < SIZE - len then |bytes| else SIZE - len;
      if n == 0 && bytes != [] {
        return Ok(None);
      }
      hide Ring, Behind, Wrap;
      var at := Wrap(start + len);
      Copy(bytes, at, n);
      RingPut(old(ring[..]), ring[..], start, len, bytes, n);
      len := len + n;
      Longer(taken, old(Waiting()), bytes[..n]);
      written := written + bytes[..n];
      return Ok(Some(n));
    }

    /** Copies the first `n` of `bytes` into the ring from `at` on: one piece up to its end, the other at its
        start. */
    method Copy(bytes: Bytes, at: nat, n: nat)
      requires ring.Length == SIZE && at < SIZE && n <= |bytes| && n <= SIZE
      modifies ring
      ensures forall j :: 0 <= j < SIZE ==> ring[j] == if Behind(at, j) < n then bytes[Behind(at, j)] else old(ring[j])
    {
      var first := if n < SIZE - at then n else SIZE - at;
      CopyPiece(at, bytes[..first]);
      CopyPiece(0, bytes[first..n]);
    }

    method CopyPiece(at: nat, piece: Bytes)
      requires at + |piece| <= ring.Length
      modifies ring
      ensures forall j :: 0 <= j < ring.Length ==>
              ring[j] == if at <= j < at + |piece| then piece[j - at] else old(ring[j])
    {
      for i := 0 to |piece|
        invariant forall j :: 0 <= j < ring.Length ==>
                  ring[j] == if at <= j < at + i then piece[j - at] else old(ring[j])
      {
        ring[at + i] := piece[i];
      }
    }

    /** The last descriptor of an end closed. */
    method Close(side: Side)
      requires Valid() && (if side == Side.Read then readers > 0 else writers > 0)
      modifies this`readers, this`writers
      ensures Valid() && Waiting() == old(Waiting())
      ensures readers == (if side == Side.Read then old(readers) - 1 else old(readers))
              && writers == (if side == Side.Write then old(writers) - 1 else old(writers))
    {
      match side
      case Read => readers := readers - 1;
      case Write => writers := writers - 1;
    }
  }

  /** A place in the ring, going round at its end. */
  function Wrap(x: nat): (y: nat)
    requires x < 2 * SIZE
    ensures y < SIZE && y == x % SIZE
  {
    if x < SIZE then x else x - SIZE
  }

  /** The `len` bytes from `start` on, going round at the end. */
  ghost function Ring(data: Bytes, start: nat, len: nat): (r: Bytes)
    requires |data| == SIZE && start < SIZE && len <= SIZE
    ensures |r| == len
  {
    seq(len, i requires 0 <= i < len => data[Wrap(start + i)])
  }

  /** The bytes a read takes, in at most two pieces. */
  function Taken(data: Bytes, start: nat, k: nat): (out: Bytes)
    requires |data| == SIZE && start < SIZE && k <= SIZE
    ensures |out| == k
  {
    var first := if k < SIZE - start then k else SIZE - start;
    data[start..start + first] + data[..k - first]
  }

  lemma RingHead(data: Bytes, start: nat, len: nat, k: nat)
    requires |data| == SIZE && start < SIZE && k <= len <= SIZE
    ensures Taken(data, start, k) == Ring(data, start, len)[..k]
  {
    var out, was := Taken(data, start, k), Ring(data, start, len);
    forall i: nat | i < k
      ensures out[i] == was[i]
    {
      assert was[i] == data[Wrap(start + i)];
    }
  }

  lemma RingTail(data: Bytes, start: nat, len: nat, k: nat)
    requires |data| == SIZE && start < SIZE && k <= len <= SIZE
    ensures Ring(data, Wrap(start + k), len - k) == Ring(data, start, len)[k..]
  {
    var rest, was := Ring(data, Wrap(start + k), len - k), Ring(data, start, len);
    forall i: nat | i < len - k
      ensures rest[i] == was[k + i]
    {
      assert rest[i] == data[Wrap(Wrap(start + k) + i)] && was[k + i] == data[Wrap(start + (k + i))];
      assert Wrap(Wrap(start + k) + i) == Wrap(start + (k + i));
    }
  }

  lemma RingPut(data: Bytes, data': Bytes, start: nat, len: nat, bytes: Bytes, n: nat)
    requires |data| == SIZE && |data'| == SIZE && start < SIZE && len + n <= SIZE && n <= |bytes|
    requires var at := Wrap(start + len);
             forall j :: 0 <= j < SIZE ==> data'[j] == if Behind(at, j) < n then bytes[Behind(at, j)] else data[j]
    ensures Ring(data', start, len + n) == Ring(data, start, len) + bytes[..n]
  {
    hide Behind;
    var now, want := Ring(data', start, len + n), Ring(data, start, len) + bytes[..n];
    forall i | 0 <= i < len + n
      ensures now[i] == want[i]
    {
      Around(start, len, i);
    }
  }

  lemma Split(taken: Bytes, was: Bytes, k: nat)
    requires k <= |was|
    ensures taken + was == (taken + was[..k]) + was[k..] && was == was[..k] + was[k..]
  {
  }

  lemma Longer(a: Bytes, b: Bytes, c: Bytes)
    ensures (a + b) + c == a + (b + c)
  {
  }

  /** How far `j` is after `at`, going round. */
  function Behind(at: nat, j: nat): nat
    requires at < SIZE && j < SIZE
  {
    if j >= at then j - at else j + SIZE - at
  }

  lemma Around(start: nat, len: nat, i: nat)
    requires start < SIZE && len <= SIZE && i < SIZE
    ensures var at, j := Wrap(start + len), Wrap(start + i);
            Behind(at, j) == if i >= len then i - len else i + SIZE - len
  {
  }
}

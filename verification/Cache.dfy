/** The write-back block cache (crates/ext2/src/cache.rs) between the filesystem and the device: a
    plain map from block numbers to contents, whatever is cached, evicted or fails. */
module Cache {
  import opened Wrappers
  import opened Le
  import opened Arith
  import opened Sets

  /** The largest single device write. */
  const MAX_WRITE: nat := 65536
  /** The fewest blocks a cache holds. */
  const MIN_BLOCKS: nat := 4

  // ----- the device -----

  datatype Request = ReadAt(lba: nat, len: nat, ok: bool) | WriteAt(lba: nat, len: nat, ok: bool) | FlushAll(ok: bool)

  /** A device of `blockCount` blocks of `blockSize` bytes. Any request may fail; a failed write may
      leave anything in the blocks it addressed, and nothing else changed. */
  class Device {
    const blockSize: nat
    const blockCount: nat
    var data: Bytes
    /** Every request so far. */
    ghost var log: seq<Request>

    ghost predicate Valid()
      reads this
    {
      |data| == Times(blockCount, blockSize)
    }

    /** `check_request`: whole blocks inside the device. */
    predicate InRange(lba: nat, len: nat) {
      blockSize > 0 && len % blockSize == 0 && lba + len / blockSize <= blockCount
    }

    lemma RangeInside(lba: nat, len: nat)
      requires Valid() && InRange(lba, len)
      ensures Times(lba, blockSize) + len <= |data|
    {
      var n := len / blockSize;
      TimesIs(n, blockSize);
      TimesAdd(lba, n, blockSize);
      TimesMono(lba + n, blockCount, blockSize);
    }

    method Read(lba: nat, len: nat) returns (r: Result<Bytes>)
      requires Valid()
      modifies this`log
      ensures log == old(log) + [ReadAt(lba, len, r.Ok?)]
      ensures r.Ok? ==>
              InRange(lba, len) && Times(lba, blockSize) + len <= |data|
              && r.value == data[Times(lba, blockSize)..Times(lba, blockSize) + len]
      ensures r.Err? ==> r.error == EIO
    {
      if !InRange(lba, len) {
        log := log + [ReadAt(lba, len, false)];
        return Err(EIO);
      }
      RangeInside(lba, len);
      if * {
        log := log + [ReadAt(lba, len, false)];
        return Err(EIO);
      }
      log := log + [ReadAt(lba, len, true)];
      return Ok(data[Times(lba, blockSize)..Times(lba, blockSize) + len]);
    }

    method Write(lba: nat, buf: Bytes) returns (r: Result<()>)
      requires Valid()
      modifies this
      ensures Valid() && log == old(log) + [WriteAt(lba, |buf|, r.Ok?)]
      ensures r.Err? ==> r.error == EIO
      ensures InRange(lba, |buf|) ==> Times(lba, blockSize) + |buf| <= |old(data)|
      ensures r.Ok? ==> InRange(lba, |buf|) && data == Patch(old(data), Times(lba, blockSize), buf)
      ensures r.Err? && !InRange(lba, |buf|) ==> data == old(data)
      ensures r.Err? && InRange(lba, |buf|) ==>
              exists junk: Bytes :: |junk| == |buf| && data == Patch(old(data), Times(lba, blockSize), junk)
    {
      if !InRange(lba, |buf|) {
        log := log + [WriteAt(lba, |buf|, false)];
        return Err(EIO);
      }
      RangeInside(lba, |buf|);
      if * {
        var junk: Bytes :| |junk| == |buf|;
        data := Patch(data, Times(lba, blockSize), junk);
        log := log + [WriteAt(lba, |buf|, false)];
        return Err(EIO);
      }
      data := Patch(data, Times(lba, blockSize), buf);
      log := log + [WriteAt(lba, |buf|, true)];
      return Ok(());
    }

    method Flush() returns (r: Result<()>)
      modifies this`log
      ensures log == old(log) + [FlushAll(r.Ok?)]
      ensures r.Err? ==> r.error == EIO
    {
      if * {
        log := log + [FlushAll(false)];
        return Err(EIO);
      }
      log := log + [FlushAll(true)];
      return Ok(());
    }
  }

  // ----- blocks of flat bytes -----

  lemma {:induction false} TimesAdd(a: nat, c: nat, b: nat)
    ensures Times(a + c, b) == Times(a, b) + Times(c, b)
  {
    if a > 0 { TimesAdd(a - 1, c, b); }
  }

  lemma {:induction false} TimesAssoc(a: nat, b: nat, c: nat)
    ensures Times(Times(a, b), c) == Times(a, Times(b, c))
  {
    if a > 0 {
      TimesAssoc(a - 1, b, c);
      TimesAdd(Times(a - 1, b), b, c);
    }
  }

  ghost predicate Inside(data: Bytes, bs: nat, b: nat) {
    Times(b + 1, bs) <= |data|
  }

  /** Block `b` of `data`. */
  ghost function Slice(data: Bytes, bs: nat, b: nat): Bytes {
    if Inside(data, bs, b) then data[Times(b, bs)..Times(b, bs) + bs] else []
  }

  ghost predicate AllBlocks(blocks: seq<Bytes>, bs: nat) {
    forall i :: 0 <= i < |blocks| ==> |blocks[i]| == bs
  }

  function Joined(blocks: seq<Bytes>): Bytes {
    if blocks == [] then [] else Joined(blocks[..|blocks| - 1]) + blocks[|blocks| - 1]
  }

  lemma {:induction false} JoinedAt(blocks: seq<Bytes>, bs: nat, i: nat)
    requires AllBlocks(blocks, bs)
    ensures |Joined(blocks)| == Times(|blocks|, bs)
    ensures i < |blocks| ==>
            Times(i, bs) + bs <= |Joined(blocks)| && Joined(blocks)[Times(i, bs)..Times(i, bs) + bs] == blocks[i]
  {
    if blocks != [] {
      var n := |blocks| - 1;
      JoinedAt(blocks[..n], bs, i);
      if i < n {
        var all, front := Joined(blocks), Joined(blocks[..n]);
        assert all[..|front|] == front;
        assert all[Times(i, bs)..Times(i, bs) + bs] == front[Times(i, bs)..Times(i, bs) + bs];
      }
    }
  }

  /** Writing joined blocks at block `first` stores each of them in its place and changes no other. */
  lemma PatchBlocks(data: Bytes, bs: nat, first: nat, buf: Bytes, n: nat, x: nat)
    requires bs > 0 && |buf| == Times(n, bs) && Times(first, bs) + |buf| <= |data|
    ensures var data' := Patch(data, Times(first, bs), buf);
            && (Inside(data', bs, x) <==> Inside(data, bs, x))
            && (first <= x < first + n ==>
               Inside(data, bs, x) && Times(x - first, bs) + bs <= |buf|
               && Slice(data', bs, x) == buf[Times(x - first, bs)..Times(x - first, bs) + bs])
            && (!(first <= x < first + n) ==> Slice(data', bs, x) == Slice(data, bs, x))
  {
    hide Times, Patch;
    TimesAdd(first, n, bs);
    TimesNext(x, bs);
    if first <= x < first + n {
      TimesNext(x - first, bs);
      TimesAdd(first, x - first, bs);
      TimesMono(x - first + 1, n, bs);
      TimesMono(x + 1, first + n, bs);
      PatchedIn(data, Times(first, bs), buf, Times(x - first, bs), bs);
    } else if x < first {
      TimesMono(x + 1, first, bs);
      PatchedOut(data, Times(first, bs), buf, Times(x, bs), bs);
    } else {
      TimesMono(first + n, x, bs);
      if Inside(data, bs, x) { PatchedOut(data, Times(first, bs), buf, Times(x, bs), bs); }
    }
  }

  lemma TimesNext(a: nat, b: nat)
    ensures Times(a + 1, b) == Times(a, b) + b
  {
  }

  lemma PatchedIn(data: Bytes, off: nat, buf: Bytes, at: nat, len: nat)
    requires off + |buf| <= |data| && at + len <= |buf|
    ensures Patch(data, off, buf)[off + at..off + at + len] == buf[at..at + len]
  {
  }

  lemma PatchedOut(data: Bytes, off: nat, buf: Bytes, at: nat, len: nat)
    requires off + |buf| <= |data| && at + len <= |data| && (at + len <= off || off + |buf| <= at)
    ensures Patch(data, off, buf)[at..at + len] == data[at..at + len]
  {
  }

  // ----- what the cache holds -----

  /** `tick` says when it was last used; a clean block's is its key in `lru`. */
  datatype Entry = Entry(data: Bytes, dirty: bool, tick: nat)

  /** A device write tried for the `n` blocks from `first` on. */
  datatype Attempt = Attempt(first: nat, n: nat, ok: bool)

  ghost function Dirties(entries: map<nat, Entry>): set<nat> {
    set b | b in entries && entries[b].dirty
  }

  /** `lru` is exactly the clean blocks by their last use, no two used at once. */
  ghost predicate LruOk(entries: map<nat, Entry>, lru: map<nat, nat>, tick: nat) {
    && (forall t :: t in lru ==> lru[t] in entries && !entries[lru[t]].dirty && entries[lru[t]].tick == t)
    && (forall b :: b in entries && !entries[b].dirty ==> entries[b].tick in lru && lru[entries[b].tick] == b)
    && (forall b :: b in entries ==> entries[b].tick <= tick)
    && (forall a, b :: a in entries && b in entries && entries[a].tick == entries[b].tick ==> a == b)
  }

  /** Every block is whole, and a clean one is the device's; one about to be marked dirty, `loose`,
      need not be. */
  ghost predicate CleanOk(entries: map<nat, Entry>, data: Bytes, bs: nat, loose: Option<nat>) {
    forall b :: b in entries ==>
      && |entries[b].data| == bs
      && (!entries[b].dirty && Some(b) != loose ==> Inside(data, bs, b) && entries[b].data == Slice(data, bs, b))
  }

  /** `b` is `a` with the blocks from `first` on, `n` of them, clean. */
  ghost predicate CleanedRun(a: map<nat, Entry>, b: map<nat, Entry>, first: nat, n: nat) {
    && b.Keys == a.Keys
    && forall x :: x in a ==> b[x] == a[x].(dirty := a[x].dirty && !(first <= x < first + n))
  }

  ghost predicate AllDirty(entries: map<nat, Entry>, first: nat, n: nat) {
    forall x: nat :: first <= x < first + n ==> x in entries && entries[x].dirty
  }

  /** What `write_back` may ask of the device: a run of at most `MAX_WRITE` bytes, or one block. */
  ghost predicate AttemptOk(a: Attempt, bs: nat) {
    a.n == 1 || (a.n > 1 && Times(a.n, bs) <= MAX_WRITE)
  }

  /** The device requests of the writes tried: a block past 64 bits is not asked for. */
  ghost function Asked(tried: seq<Attempt>, scale: nat, bs: nat): seq<Request> {
    if tried == [] then []
    else
      var n := |tried| - 1;
      var lba := Times(tried[n].first, scale);
      Asked(tried[..n], scale, bs) + (if lba > U64_MAX then [] else [WriteAt(lba, Times(tried[n].n, bs), tried[n].ok)])
  }

  lemma {:induction false} AskedJoin(a: seq<Attempt>, b: seq<Attempt>, scale: nat, bs: nat)
    ensures Asked(a + b, scale, bs) == Asked(a, scale, bs) + Asked(b, scale, bs)
  {
    if b == [] {
      assert a + b == a;
    } else {
      var n := |b| - 1;
      assert (a + b)[..|a| + n] == a + b[..n];
      AskedJoin(a, b[..n], scale, bs);
    }
  }

  /** More writes after some. */
  lemma LogMore(log: seq<Request>, was: seq<Attempt>, now: seq<Attempt>, start: nat, a: seq<Attempt>, scale: nat,
        bs: nat)
    requires start <= |was| && now == was + a
    ensures log + Asked(was[start..], scale, bs) + Asked(a, scale, bs) == log + Asked(now[start..], scale, bs)
  {
    assert now[start..] == was[start..] + a;
    AskedJoin(was[start..], a, scale, bs);
  }

  ghost predicate NoFailure(attempts: seq<Attempt>) {
    forall i :: 0 <= i < |attempts| ==> attempts[i].ok
  }

  lemma MarkClean(entries: map<nat, Entry>, lru: map<nat, nat>, tick: nat, b: nat)
    requires LruOk(entries, lru, tick) && b in entries && entries[b].dirty
    ensures var entries' := entries[b := entries[b].(dirty := false)];
            && LruOk(entries', lru[entries[b].tick := b], tick)
            && Dirties(entries') == Dirties(entries) - {b} && b in Dirties(entries)
  {
  }

  /** A use of block `b`, new or cached. */
  lemma Used(entries: map<nat, Entry>, lru: map<nat, nat>, tick: nat, b: nat, e: Entry)
    requires LruOk(entries, lru, tick) && e.tick == tick + 1 && !e.dirty && (b in entries ==> !entries[b].dirty)
    ensures var lru' := if b in entries then (lru - {entries[b].tick})[tick + 1 := b] else lru[tick + 1 := b];
            LruOk(entries[b := e], lru', tick + 1) && Dirties(entries[b := e]) == Dirties(entries)
  {
  }

  /** A use of a dirty block leaves `lru`. */
  lemma UsedDirty(entries: map<nat, Entry>, lru: map<nat, nat>, tick: nat, b: nat)
    requires LruOk(entries, lru, tick) && b in entries && entries[b].dirty
    ensures LruOk(entries[b := entries[b].(tick := tick + 1)], lru, tick + 1)
    ensures Dirties(entries[b := entries[b].(tick := tick + 1)]) == Dirties(entries)
  {
  }

  lemma MarkedDirty(entries: map<nat, Entry>, lru: map<nat, nat>, tick: nat, b: nat)
    requires LruOk(entries, lru, tick) && b in entries && !entries[b].dirty
    ensures LruOk(entries[b := entries[b].(dirty := true)], lru - {entries[b].tick}, tick)
    ensures Dirties(entries[b := entries[b].(dirty := true)]) == Dirties(entries) + {b} && b !in Dirties(entries)
  {
  }

  lemma Evicted(entries: map<nat, Entry>, lru: map<nat, nat>, tick: nat, t: nat)
    requires LruOk(entries, lru, tick) && t in lru
    ensures LruOk(entries - {lru[t]}, lru - {t}, tick) && Dirties(entries - {lru[t]}) == Dirties(entries)
  {
  }

  /** With fewer dirty blocks than blocks, some block is clean. */
  lemma SomeClean(entries: map<nat, Entry>, lru: map<nat, nat>, tick: nat)
    requires LruOk(entries, lru, tick) && |Dirties(entries)| < |entries|
    ensures lru != map[]
  {
    if entries.Keys <= Dirties(entries) {
      SubsetSize(entries.Keys, Dirties(entries));
    }
  }

  // ----- least keys and ascending order -----

  method MinKey(s: set<nat>) returns (k: nat)
    requires s != {}
    ensures k in s && forall j :: j in s ==> k <= j
  {
    k :| k in s;
    var rest := s - {k};
    while rest != {}
      invariant rest <= s && k in s && forall j :: j in s && j !in rest ==> k <= j
      decreases |rest|
    {
      var x :| x in rest;
      rest := rest - {x};
      if x < k {
        k := x;
      }
    }
  }

  /** The numbers of `s` from the least up. */
  method Ascending(s: set<nat>) returns (q: seq<nat>)
    ensures forall i, j :: 0 <= i < j < |q| ==> q[i] < q[j]
    ensures forall x :: x in q <==> x in s
  {
    q := [];
    var rest := s;
    while rest != {}
      invariant rest <= s && (forall x :: x in q <==> x in s && x !in rest)
      invariant forall i, j :: 0 <= i < j < |q| ==> q[i] < q[j]
      invariant forall i, x :: 0 <= i < |q| && x in rest ==> q[i] < x
      decreases |rest|
    {
      var k := MinKey(rest);
      rest := rest - {k};
      q := q + [k];
    }
  }

  // ----- the cache -----

  /** How many blocks a cache of so many bytes holds: as many as fit, at least four. */
  function CapacityFor(bytes: nat, blockSize: nat): (n: nat)
    requires blockSize > 0
    ensures n >= MIN_BLOCKS && (n > MIN_BLOCKS ==> n * blockSize <= bytes) && bytes < (n + 1) * blockSize
  {
    if bytes / blockSize < MIN_BLOCKS then
      MulLe(bytes / blockSize + 1, MIN_BLOCKS + 1, blockSize);
      MIN_BLOCKS
    else bytes / blockSize
  }

  /** Filesystem block `b` is device blocks `b * scale` onwards. */
  class BlockCache {
    const dev: Device
    const blockSize: nat
    const scale: nat
    const capacity: nat
    var entries: map<nat, Entry>
    var lru: map<nat, nat>
    var tick: nat
    var dirty: nat
    /** Every device write tried so far. */
    ghost var attempts: seq<Attempt>
    /** A clean block being changed. */
    ghost var loose: Option<nat>

    ghost predicate Sized() {
      0 < dev.blockSize && blockSize == Times(scale, dev.blockSize) && blockSize > 0 && capacity >= MIN_BLOCKS
    }

    ghost predicate Valid()
      reads this, dev
    {
      Sound() && loose == None
    }

    ghost predicate Sound()
      reads this, dev
    {
      && Sized() && dev.Valid() && |entries| <= capacity
      && LruOk(entries, lru, tick) && CleanOk(entries, dev.data, blockSize, loose)
      && dirty == |Dirties(entries)|
      && (NoFailure(attempts) ==> dirty <= capacity / 2)
    }

    /** The device was asked for the writes tried since and nothing else. */
    twostate predicate Wrote()
      reads this, dev
    {
      old(attempts) <= attempts && dev.log == old(dev.log) + Asked(attempts[|old(attempts)|..], scale, blockSize)
    }

    twostate lemma WroteNothing()
      requires attempts == old(attempts) && dev.log == old(dev.log)
      ensures Wrote()
    {
    }

    /** What block `b` holds: the cached copy, else the device's; `None` past the end. */
    ghost function Content(b: nat): Option<Bytes>
      reads this, dev
    {
      if b in entries then Some(entries[b].data)
      else if Inside(dev.data, blockSize, b) then Some(Slice(dev.data, blockSize, b))
      else None
    }

    /** A cache of `capacityBytes`, at least four blocks, over `dev`. */
    constructor (dev: Device, blockSize: nat, capacityBytes: nat)
      requires dev.Valid() && 0 < dev.blockSize && 0 < blockSize && blockSize % dev.blockSize == 0
      ensures Valid() && this.dev == dev && this.blockSize == blockSize && dirty == 0 && entries == map[]
      ensures capacity == CapacityFor(capacityBytes, blockSize) && attempts == [] && tick == 0
      ensures forall b ::
                Content(b) == if Inside(dev.data, blockSize, b) then Some(Slice(dev.data, blockSize, b)) else None
    {
      TimesIs(blockSize / dev.blockSize, dev.blockSize);
      this.dev := dev;
      this.blockSize := blockSize;
      scale := blockSize / dev.blockSize;
      capacity := CapacityFor(capacityBytes, blockSize);
      entries, lru, tick, dirty := map[], map[], 0, 0;
      attempts := [];
      loose := None;
    }

    /** `EINVAL` unless the device's block size divides `blockSize`. */
    static method Open(dev: Device, blockSize: nat, capacityBytes: nat) returns (r: Result<BlockCache>)
      requires dev.Valid()
      ensures r.Err? <==> dev.blockSize == 0 || blockSize == 0 || blockSize % dev.blockSize != 0
      ensures r.Err? ==> r.error == EINVAL
      ensures r.Ok? ==>
              fresh(r.value) && r.value.Valid() && r.value.dev == dev && r.value.blockSize == blockSize
              && r.value.entries == map[] && r.value.capacity == CapacityFor(capacityBytes, blockSize)
    {
      if dev.blockSize == 0 || blockSize == 0 || blockSize % dev.blockSize != 0 {
        return Err(EINVAL);
      }
      var cache := new BlockCache(dev, blockSize, capacityBytes);
      return Ok(cache);
    }

    /** The device block where `block` starts. */
    function Lba(block: nat): nat {
      Times(block, scale)
    }

    /** A whole run of blocks as a device request. */
    lemma RunRequest(first: nat, n: nat)
      requires Sized() && dev.Valid()
      ensures dev.InRange(Lba(first), Times(n, blockSize)) ==>
              Times(first, blockSize) + Times(n, blockSize) <= |dev.data|
      ensures Times(Lba(first), dev.blockSize) == Times(first, blockSize)
    {
      hide Device.InRange;
      TimesAssoc(first, scale, dev.blockSize);
      if dev.InRange(Lba(first), Times(n, blockSize)) {
        dev.RangeInside(Lba(first), Times(n, blockSize));
      }
    }

    /** Marks the blocks of a run, now on the device, clean. */
    method MarkRunClean(first: nat, n: nat)
      requires LruOk(entries, lru, tick) && dirty == |Dirties(entries)| && AllDirty(entries, first, n)
      modifies this`entries, this`lru, this`dirty
      ensures LruOk(entries, lru, tick) && dirty == |Dirties(entries)| && CleanedRun(old(entries), entries, first, n)
    {
      hide LruOk, Dirties;
      ghost var before := entries;
      for i := 0 to n
        invariant LruOk(entries, lru, tick) && dirty == |Dirties(entries)| && CleanedRun(before, entries, first, i)
      {
        var block := first + i;
        assert entries[block].dirty;
        MarkClean(entries, lru, tick, block);
        var t := entries[block].tick;
        entries := entries[block := entries[block].(dirty := false)];
        lru := lru[t := block];
        dirty := dirty - 1;
      }
    }

    /** Writes consecutive dirty blocks with one device write and marks them clean. */
    method WriteRun(first: nat, n: nat) returns (r: Result<()>)
      requires Sound() && n > 0 && AllDirty(entries, first, n)
      modifies this`entries, this`lru, this`dirty, this`attempts, dev
      ensures Sound() && CleanedRun(old(entries), entries, first, if r.Ok? then n else 0)
      ensures SameOutside(old(dev.data), dev.data, blockSize, first, n)
      ensures attempts == old(attempts) + [Attempt(first, n, r.Ok?)]
      ensures dev.log == old(dev.log) + Asked([Attempt(first, n, r.Ok?)], scale, blockSize)
    {
      hide LruOk, CleanOk, CleanedRun, SameOutside, Joined, NoFailure, Dirties;
      ghost var data := dev.data;
      CleanedNone(entries, first);
      SameSelf(dev.data, blockSize, first, n);
      if Lba(first) > U64_MAX {
        Failed(attempts, Attempt(first, n, false));
        attempts := attempts + [Attempt(first, n, false)];
        return Err(EIO);
      }
      var blocks := RunData(entries, first, n);
      var buf := Joined(blocks);
      BlocksWhole(entries, dev.data, blockSize, loose, first, n);
      JoinedAt(blocks, blockSize, 0);
      RunRequest(first, n);
      r := dev.Write(Lba(first), buf);
      if r.Ok? {
        RunStored(data, blockSize, first, entries, n);
        MarkRunClean(first, n);
        CleanAfter(old(entries), entries, data, dev.data, blockSize, loose, first, n);
        FewerDirty(old(entries), entries, first, n);
        Succeeded(attempts, Attempt(first, n, true));
      } else {
        if dev.InRange(Lba(first), |buf|) {
          ghost var junk: Bytes :| |junk| == |buf| && dev.data == Patch(data, Times(Lba(first), dev.blockSize), junk);
          JunkStored(data, blockSize, first, n, junk);
          CleanJunk(entries, data, dev.data, blockSize, loose, first, n);
        }
        Failed(attempts, Attempt(first, n, false));
      }
      attempts := attempts + [Attempt(first, n, r.Ok?)];
    }

    /** One round of `write_back`: the next run, then, if it fails, its blocks one by one. */
    method WriteNext(list: seq<nat>, i: nat, len: nat, ghost before: map<nat, Entry>, ghost data: Bytes,
          ghost start: nat) returns (ok: bool)
      requires Sound() && DirtyList(before, list) && i < |list| && 1 <= len <= |list| - i && start <= |attempts|
      requires forall k :: i <= k < i + len ==> list[k] == list[i] + (k - i)
      requires forall first, ok :: AttemptOk(Attempt(first, len, ok), blockSize)
      requires Progress(before, entries, attempts[start..], Upto(list, i)) && AttemptsOk(attempts[start..], blockSize)
      requires SameBut(data, dev.data, blockSize, Dirties(before))
      modifies this`entries, this`lru, this`dirty, this`attempts, dev
      ensures Sound() && old(attempts) <= attempts
      ensures Progress(before, entries, attempts[start..], Upto(list, i + len))
              && AttemptsOk(attempts[start..], blockSize)
      ensures SameBut(data, dev.data, blockSize, Dirties(before))
      ensures CleanFrom(entries, 0, Upto(list, i + len)) <==> CleanFrom(old(entries), 0, Upto(list, i)) && ok
      ensures Wrote() && TriedRun(list, i, len, attempts[|old(attempts)|..])
    {
      hide LruOk, CleanOk, CleanedRun, SameOutside, NoFailure, Dirties, Progress, SameBut, CleanFrom, AttemptsOk,
           SameBelow, AllDirty, AttemptOk, DirtyList, Asked;
      var first := list[i];
      RunFacts(before, entries, list, i, len, attempts[start..]);
      ghost var was, mid, tried := entries, dev.data, attempts[start..];
      var w := WriteRun(first, len);
      ok := w.Ok?;
      ghost var a := Attempt(first, len, ok);
      assert attempts[|old(attempts)|..] == [a];
      ghost var log, done := dev.log, attempts;
      assert attempts[start..] == tried + [a];
      MoreAttempts(tried, a, blockSize);
      StillBut(data, mid, dev.data, blockSize, Dirties(before), first, len) by { RunInDirties(before, first, len); }
      if !ok && len > 1 {
        // Retry one by one, so only the failing blocks stay dirty.
        ProgressMore(before, was, entries, list, i, tried, a);
        ok := WriteSingly(first, len, before, data, start);
        CleanJoin(was, entries, Upto(list, i), first, len);
        LogMore(old(dev.log), done, attempts, |old(attempts)|, attempts[|done|..], scale, blockSize);
        assert attempts[|old(attempts)|..] == [a] + attempts[|done|..];
      } else {
        ProgressStep(before, was, entries, tried, Upto(list, i), a);
        CleanRunStep(was, entries, Upto(list, i), a);
      }
    }

    /** How many blocks one device write takes at most. */
    function MaxRun(): nat
      requires blockSize > 0
    {
      if MAX_WRITE / blockSize < 1 then 1 else MAX_WRITE / blockSize
    }

    /** Writes every dirty block in ascending order, merging runs of consecutive blocks into single
        device writes. */
    method WriteBack() returns (r: Result<()>)
      requires Sound()
      modifies this`entries, this`lru, this`dirty, this`attempts, dev
      ensures Sound() && old(attempts) <= attempts && AttemptsOk(attempts[|old(attempts)|..], blockSize)
      ensures WrittenBack(old(entries), entries, attempts[|old(attempts)|..])
      ensures SameBut(old(dev.data), dev.data, blockSize, Dirties(old(entries)))
      ensures (r.Ok? <==> Dirties(entries) == {}) && (r.Err? ==> r.error == EIO)
      ensures Wrote()
      // Requests ascend, each for the longest run of dirty neighbours that one may hold.
      ensures exists list :: DirtyList(old(entries), list) && Schedule(list, 0, MaxRun(), attempts[|old(attempts)|..])
    {
      hide LruOk, CleanOk, CleanedRun, SameOutside, NoFailure, Dirties, Progress, SameBut, CleanFrom, AttemptsOk,
           WrittenBack, SameBelow, AllDirty, Asked, TriedRun, ScheduledTo, Schedule, DirtyList;
      ghost var before, data, start := entries, dev.data, |attempts|;
      var list := Ascending(set b | b in entries && entries[b].dirty);
      ListIs(entries, list);
      var maxRun := MaxRun();
      ScheduleStart(list, maxRun);
      r := Ok(());
      var i := 0;
      assert attempts[start..] == [];
      ProgressStart(entries, data, blockSize);
      WroteNothing();
      while i < |list|
        invariant i <= |list| && Sound() && start <= |attempts| && attempts[..start] == old(attempts)
                  && (r.Err? ==> r.error == EIO)
        invariant Progress(before, entries, attempts[start..], Upto(list, i))
                  && AttemptsOk(attempts[start..], blockSize)
        invariant SameBut(data, dev.data, blockSize, Dirties(before))
        invariant r.Ok? <==> CleanFrom(entries, 0, Upto(list, i))
        invariant Wrote() && ScheduledTo(list, i, maxRun, attempts[start..])
        decreases |list| - i
      {
        var len := RunLength(list, i, maxRun);
        RunFits(len, maxRun, blockSize);
        ghost var tried, done := attempts[..start], attempts;
        var ok := WriteNext(list, i, len, before, data, start);
        assert attempts[..start] == tried;
        LogMore(old(dev.log), done, attempts, start, attempts[|done|..], scale, blockSize);
        ScheduleMore(list, i, maxRun, len, done[start..], attempts[|done|..]);
        assert attempts[start..] == done[start..] + attempts[|done|..];
        if !ok {
          r := Err(EIO);
        }
        i := i + len;
      }
      ProgressDone(before, entries, list, attempts[start..]);
      ScheduleDone(list, maxRun, attempts[start..]);
    }

    /** Writing back changes the content of no block. */
    twostate lemma BackKeeps(start: nat)
      requires old(Sound()) && start <= |attempts| && WrittenBack(old(entries), entries, attempts[start..])
      requires SameBut(old(dev.data), dev.data, blockSize, Dirties(old(entries)))
      ensures forall b :: Content(b) == old(Content(b))
      ensures |entries| == |old(entries)| && Dirties(entries) <= Dirties(old(entries))
      ensures forall b :: b in entries <==> b in old(entries)
    {
      hide LruOk, CleanOk, Slice;
      assert |entries.Keys| == |entries| && |old(entries).Keys| == |old(entries)|;
    }

    /** Writes every dirty block, then flushes the device. `Ok` means nothing is dirty and the device
        holds every block's content. */
    method Sync() returns (r: Result<()>)
      requires Valid()
      modifies this`entries, this`lru, this`dirty, this`attempts, dev
      ensures Valid() && old(attempts) <= attempts && AttemptsOk(attempts[|old(attempts)|..], blockSize)
      ensures WrittenBack(old(entries), entries, attempts[|old(attempts)|..])
      ensures forall b :: Content(b) == old(Content(b))
      ensures r.Ok? ==>
              dirty == 0 && forall b ::
                Content(b) == if Inside(dev.data, blockSize, b) then Some(Slice(dev.data, blockSize, b)) else None
      ensures r.Err? ==> r.error == EIO
      // The device is flushed once, after the writes; a failure is a block still dirty or a failed flush.
      ensures exists flushed ::
                && dev.log == old(dev.log) + Asked(attempts[|old(attempts)|..], scale, blockSize) + [FlushAll(flushed)]
                && (r.Ok? <==> Dirties(entries) == {} && flushed)
    {
      hide LruOk, AttemptsOk, WrittenBack, SameBut, NoFailure, Asked;
      var written := WriteBack();
      BackKeeps(|old(attempts)|);
      var flushed := dev.Flush();
      r := if written.Err? then written else flushed;
      if r.Ok? {
        AllOnDevice();
      }
    }

    lemma AllOnDevice()
      requires Valid() && Dirties(entries) == {}
      ensures forall b ::
                Content(b) == if Inside(dev.data, blockSize, b) then Some(Slice(dev.data, blockSize, b)) else None
    {
      hide LruOk, Slice, Inside;
      forall b | b in entries
        ensures !entries[b].dirty
      {
        assert b !in Dirties(entries);
      }
    }

    /** Records a use of a cached block. */
    method Touch(block: nat)
      requires Sound() && block in entries
      modifies this`entries, this`lru, this`tick
      ensures Sound() && tick == old(tick) + 1 && entries == old(entries)[block := old(entries)[block].(tick := tick)]
      ensures forall b :: Content(b) == old(Content(b))
    {
      hide LruOk, NoFailure, Slice, Inside, Dirties;
      var e := entries[block];
      if e.dirty {
        UsedDirty(entries, lru, tick, block);
      } else {
        Used(entries, lru, tick, block, e.(tick := tick + 1));
      }
      tick := tick + 1;
      entries := entries[block := e.(tick := tick)];
      if !e.dirty {
        lru := (lru - {e.tick})[tick := block];
      }
      SameSize(old(entries), block, e.(tick := tick));
    }

    /** Adds a block as clean and just used. */
    method Insert(block: nat, data: Bytes)
      requires Sound() && block !in entries && |entries| < capacity && |data| == blockSize
      requires loose == Some(block) || (Inside(dev.data, blockSize, block) && data == Slice(dev.data, blockSize, block))
      modifies this`entries, this`lru, this`tick
      ensures Sound() && tick == old(tick) + 1 && entries == old(entries)[block := Entry(data, false, tick)]
      ensures Content(block) == Some(data) && forall b :: b != block ==> Content(b) == old(Content(b))
    {
      hide LruOk, NoFailure, Dirties;
      Used(entries, lru, tick, block, Entry(data, false, tick + 1));
      tick := tick + 1;
      entries := entries[block := Entry(data, false, tick)];
      lru := lru[tick := block];
    }

    /** Drops the clean block used longest ago. */
    method Evict() returns (ghost v: nat)
      requires Valid() && lru != map[]
      modifies this`entries, this`lru
      ensures Valid() && IsOldest(old(entries), v) && entries == old(entries) - {v} && |entries| == |old(entries)| - 1
      ensures forall b :: Content(b) == old(Content(b))
    {
      hide NoFailure, Slice, Inside, LruOk, Dirties, IsOldest;
      var t := MinKey(lru.Keys);
      v := lru[t];
      Evicted(entries, lru, tick, t);
      Oldest(entries, lru, tick, t);
      entries := entries - {lru[t]};
      lru := lru - {t};
    }

    /** Evicts the least recently used clean block if the cache is full, writing dirty blocks out first
        if there is no clean one. While no write has failed there always is one. */
    method MakeRoom() returns (r: Result<()>, ghost v: nat)
      requires Valid()
      modifies this`entries, this`lru, this`dirty, this`attempts, dev
      ensures Valid() && old(attempts) <= attempts && AttemptsOk(attempts[|old(attempts)|..], blockSize)
      ensures forall b :: Content(b) == old(Content(b))
      ensures r.Ok? ==> |entries| < capacity
      ensures r.Err? ==> r.error == EIO && !NoFailure(attempts) && |Dirties(entries)| == capacity
      ensures forall b :: b in entries ==> b in old(entries)
      ensures |old(entries)| < capacity ==> r.Ok? && entries == old(entries) && attempts == old(attempts)
      ensures NoFailure(old(attempts)) ==> r.Ok? && attempts == old(attempts) && dirty == old(dirty)
      ensures NoFailure(old(attempts)) && |old(entries)| == capacity ==>
              IsOldest(old(entries), v) && entries == old(entries) - {v}
      ensures Wrote() && (Dirties(old(entries)) != old(entries).Keys ==> attempts == old(attempts))
    {
      hide NoFailure, WrittenBack, SameBut, AttemptsOk, AttemptOk, LruOk, CleanOk, Dirties, Slice, Inside, IsOldest,
           Asked;
      v := 0;
      NoAttempts(attempts, blockSize);
      WroteNothing();
      if |entries| < capacity {
        return Ok(()), v;
      }
      if NoFailure(attempts) { SomeClean(entries, lru, tick); }
      if lru == map[] {
        NoneClean(entries, lru, tick);
        var ignored := WriteBack();
        BackKeeps(|old(attempts)|);
      }
      if lru == map[] {
        AllStillDirty(entries, lru, tick);
        return Err(EIO), v;
      }
      v := Evict();
      r := Ok(());
    }

    /** Making `block` present: a cached one is, without the device. Another is read, once, after room was made;
        it is past 64 bits, or there is no room because every block is dirty after failed writes, or the
        device fails to read it. */
    twostate predicate Fetched(block: nat, ok: bool)
      reads this, dev
    {
      if block in old(entries) then ok && attempts == old(attempts) && dev.log == old(dev.log)
      else if Lba(block) > U64_MAX then !ok && attempts == old(attempts) && dev.log == old(dev.log)
      else
        || (!ok && Wrote() && !NoFailure(attempts) && |Dirties(entries)| == capacity)
        || (&& old(attempts) <= attempts
            && dev.log == old(dev.log) + Asked(attempts[|old(attempts)|..], scale, blockSize) +
                          [ReadAt(Lba(block), blockSize, ok)])
    }

    /** Makes `block` present, reading it if needed. */
    method Load(block: nat) returns (r: Result<()>)
      requires Valid()
      modifies this, dev
      ensures Valid() && old(attempts) <= attempts && AttemptsOk(attempts[|old(attempts)|..], blockSize)
      ensures forall b :: Content(b) == old(Content(b))
      ensures r.Ok? ==> block in entries && entries[block].tick == tick
      ensures r.Err? ==> r.error == EIO
      ensures NoFailure(old(attempts)) ==> attempts == old(attempts) && dirty == old(dirty)
      ensures Fetched(block, r.Ok?)
    {
      hide NoFailure, AttemptsOk, LruOk, CleanOk, Dirties, IsOldest, Asked;
      NoAttempts(attempts, blockSize);
      WroteNothing();
      if block in entries {
        Touch(block);
        return Ok(());
      }
      if Lba(block) > U64_MAX {
        return Err(EIO);
      }
      var room, v := MakeRoom();
      if room.Err? {
        return Err(EIO);
      }
      RunRequest(block, 1);
      var got := dev.Read(Lba(block), blockSize);
      if got.Err? {
        return Err(EIO);
      }
      Insert(block, got.value);
      return Ok(());
    }

    /** Block `block`, from the device unless cached. */
    method Read(block: nat) returns (r: Result<Bytes>)
      requires Valid()
      modifies this, dev
      ensures Valid() && old(attempts) <= attempts && AttemptsOk(attempts[|old(attempts)|..], blockSize)
      ensures forall b :: Content(b) == old(Content(b))
      ensures r.Ok? ==> old(Content(block)) == Some(r.value)
      ensures r.Err? ==> r.error == EIO
      ensures NoFailure(old(attempts)) ==> attempts == old(attempts) && dirty == old(dirty)
      ensures Fetched(block, r.Ok?)
    {
      hide NoFailure, AttemptsOk, LruOk, CleanOk, Dirties, Slice, Inside, Fetched;
      var loaded := Load(block);
      if loaded.Err? {
        return Err(EIO);
      }
      return Ok(entries[block].data);
    }

    /** Writes dirty blocks out when one more would pass half the cache. */
    method Spill(ghost block: nat)
      requires Sound() && block in entries && !entries[block].dirty
      modifies this`entries, this`lru, this`dirty, this`attempts, dev
      ensures Sound() && old(attempts) <= attempts && AttemptsOk(attempts[|old(attempts)|..], blockSize)
      ensures forall b :: Content(b) == old(Content(b))
      ensures block in entries && entries[block] == old(entries)[block]
      ensures NoFailure(attempts) ==> dirty + 1 <= capacity / 2
      ensures Wrote() && (old(dirty) + 1 <= capacity / 2 ==> attempts == old(attempts) && entries == old(entries))
    {
      hide NoFailure, AttemptsOk, LruOk, CleanOk, Dirties, Slice, Inside, WrittenBack, SameBut, Asked;
      NoAttempts(attempts, blockSize);
      WroteNothing();
      if dirty + 1 > capacity / 2 {
        var ignored := WriteBack();
        BackKeeps(|old(attempts)|);
        StillClean(old(entries), entries, attempts[|old(attempts)|..], block);
        if NoFailure(attempts) { NothingFailed(old(entries), entries, attempts, |old(attempts)|); }
      }
    }

    /** Marks a cached block dirty, writing dirty blocks out first when they would pass half the
        cache. */
    method MarkDirty(block: nat)
      requires Sound() && block in entries && (loose.Some? ==> loose.value == block && !entries[block].dirty)
      modifies this`entries, this`lru, this`dirty, this`attempts, this`loose, dev
      ensures Valid() && old(attempts) <= attempts && AttemptsOk(attempts[|old(attempts)|..], blockSize)
      ensures forall b :: Content(b) == old(Content(b))
      ensures block in entries && entries[block].dirty
      // Blocks are written out early only when one more dirty one would pass half the cache.
      ensures Wrote() && (old(entries)[block].dirty || old(dirty) + 1 <= capacity / 2 ==> attempts == old(attempts))
    {
      hide NoFailure, AttemptsOk, LruOk, CleanOk, Dirties, Slice, Inside, Asked;
      NoAttempts(attempts, blockSize);
      WroteNothing();
      if entries[block].dirty {
        return;
      }
      Spill(block);
      MarkedDirty(entries, lru, tick, block);
      CleanStill(entries, dev.data, blockSize, loose, block);
      SameSize(entries, block, entries[block].(dirty := true));
      var t := entries[block].tick;
      entries := entries[block := entries[block].(dirty := true)];
      lru := lru - {t};
      dirty := dirty + 1;
      loose := None;
    }

    /** The device was asked for the writes up to attempt `mid`, then for `block`, then for the other writes. */
    twostate predicate ReadBetween(block: nat, mid: nat)
      requires |old(attempts)| <= mid <= |attempts|
      reads this, dev
    {
      dev.log == old(dev.log) + Asked(attempts[|old(attempts)|..mid], scale, blockSize) +
                 [ReadAt(Lba(block), blockSize, true)] + Asked(attempts[mid..], scale, blockSize)
    }

    /** Block `block` for changing: loaded, marked dirty, then changed by `update`. */
    method Write(block: nat, update: Bytes -> Bytes) returns (r: Result<()>)
      requires Valid() && forall d: Bytes :: |update(d)| == |d|
      modifies this, dev
      ensures Valid() && old(attempts) <= attempts
      ensures r.Ok? ==> old(Content(block)).Some? && Content(block) == Some(update(old(Content(block)).value))
      ensures r.Err? ==> r.error == EIO && Content(block) == old(Content(block)) && Fetched(block, false)
      ensures forall b :: b != block ==> Content(b) == old(Content(b))
      // A cached block is changed without reading; another is read once.
      ensures block in old(entries) ==> r.Ok? && Wrote()
      ensures r.Ok? && block !in old(entries) ==>
                exists mid :: |old(attempts)| <= mid <= |attempts| && ReadBetween(block, mid)
    {
      hide NoFailure, AttemptsOk, LruOk, Dirties, Slice, Inside, Asked;
      var loaded := Load(block);
      if loaded.Err? {
        return Err(EIO);
      }
      ghost var log, mid := dev.log, |attempts|;
      ghost var tried := attempts[|old(attempts)|..];
      MarkDirty(block);
      assert attempts[|old(attempts)|..mid] == tried;
      SetData(block, update(entries[block].data));
      assert block !in old(entries) ==> ReadBetween(block, mid);
      return Ok(());
    }

    /** Block `block` filled with zeros and marked dirty, without reading it. */
    method Zeroed(block: nat) returns (r: Result<()>)
      requires Valid()
      modifies this, dev
      ensures Valid() && old(attempts) <= attempts
      ensures r.Ok? ==> Content(block) == Some(Zeros(blockSize))
      ensures r.Err? ==>
                && r.error == EIO && Content(block) == old(Content(block)) && block !in old(entries)
                && !NoFailure(attempts) && |Dirties(entries)| == capacity
      ensures forall b :: b != block ==> Content(b) == old(Content(b))
      ensures Wrote()
    {
      hide NoFailure, AttemptsOk, LruOk, CleanOk, Dirties, Slice, Inside, Asked;
      WroteNothing();
      ghost var done, log := attempts, dev.log;
      if block in entries {
        Fill(block);
        Touch(block);
      } else {
        var room, v := MakeRoom();
        if room.Err? {
          return Err(EIO);
        }
        NothingLoose(entries, dev.data, blockSize, block);
        loose := Some(block);
        Insert(block, Zeros(blockSize));
        done, log := attempts, dev.log;
      }
      MarkDirty(block);
      LogMore(old(dev.log), done, attempts, |old(attempts)|, attempts[|done|..], scale, blockSize);
      return Ok(());
    }

    /** Zeroes a cached block in place. */
    method Fill(block: nat)
      requires Valid() && block in entries
      modifies this`entries, this`loose
      ensures Sound() && entries == old(entries)[block := old(entries)[block].(data := Zeros(blockSize))]
      ensures loose == if entries[block].dirty then None else Some(block)
      ensures Content(block) == Some(Zeros(blockSize)) && forall b :: b != block ==> Content(b) == old(Content(b))
    {
      hide NoFailure, LruOk, CleanOk, Dirties, Slice, Inside;
      FilledOk(entries, lru, tick, dev.data, blockSize, block);
      SameSize(entries, block, entries[block].(data := Zeros(blockSize)));
      if !entries[block].dirty {
        loose := Some(block);
      }
      entries := entries[block := entries[block].(data := Zeros(blockSize))];
    }

    /** The caller's change to a dirty block it was given. */
    method SetData(block: nat, data: Bytes)
      requires Valid() && block in entries && entries[block].dirty && |data| == blockSize
      modifies this`entries
      ensures Valid() && entries == old(entries)[block := old(entries)[block].(data := data)]
      ensures Content(block) == Some(data) && forall b :: b != block ==> Content(b) == old(Content(b))
    {
      hide NoFailure, LruOk, CleanOk, Dirties, Slice, Inside;
      NewData(entries, lru, tick, dev.data, blockSize, block, data);
      SameSize(entries, block, entries[block].(data := data));
      entries := entries[block := entries[block].(data := data)];
    }

    /** Writes the dirty blocks of a run one by one, after it failed as a whole. */
    method WriteSingly(first: nat, n: nat, ghost before: map<nat, Entry>, ghost data: Bytes, ghost start: nat)
      returns (ok: bool)
      requires Sound() && start <= |attempts| && AllDirty(entries, first, n) && AllDirty(before, first, n)
               && Progress(before, entries, attempts[start..], first)
      requires SameBut(data, dev.data, blockSize, Dirties(before))
      modifies this`entries, this`lru, this`dirty, this`attempts, dev
      ensures Sound() && start <= |attempts| && old(attempts) <= attempts
              && Progress(before, entries, attempts[start..], first + n)
      ensures SameBut(data, dev.data, blockSize, Dirties(before))
      ensures (ok <==> CleanFrom(entries, first, first + n)) && SameBelow(old(entries), entries, first)
      ensures old(AttemptsOk(attempts[start..], blockSize)) ==> AttemptsOk(attempts[start..], blockSize)
      ensures Wrote() && |attempts| == |old(attempts)| + n
      ensures Singles(attempts[|old(attempts)|..], first)
    {
      hide LruOk, CleanOk, CleanedRun, SameOutside, NoFailure, Dirties, Progress, SameBut, CleanFrom, AttemptsOk,
           SameBelow, AllDirty, AttemptOk, Asked;
      WroteNothing();
      ok := true;
      BelowSelf(entries, first);
      CleanFromNone(entries, first);
      for k := 0 to n
        invariant Sound() && start <= |attempts| && old(attempts) <= attempts
                  && Progress(before, entries, attempts[start..], first + k)
        invariant SameBut(data, dev.data, blockSize, Dirties(before)) && AllDirty(entries, first + k, n - k)
        invariant (ok <==> CleanFrom(entries, first, first + k)) && SameBelow(old(entries), entries, first)
        invariant old(AttemptsOk(attempts[start..], blockSize)) ==> AttemptsOk(attempts[start..], blockSize)
        invariant Wrote() && |attempts| == |old(attempts)| + k
        invariant Singles(attempts[|old(attempts)|..], first)
      {
        ghost var was, mid, tried, done := entries, dev.data, attempts[start..], attempts;
        DirtyHead(entries, first + k, n - k);
        var r := WriteRun(first + k, 1);
        ghost var a := Attempt(first + k, 1, r.Ok?);
        SingleOk(a, blockSize);
        LogMore(old(dev.log), done, attempts, |old(attempts)|, [a], scale, blockSize);
        assert attempts[|old(attempts)|..] == done[|old(attempts)|..] + [a];
        assert attempts[start..] == tried + [a];
        MoreAttempts(tried, a, blockSize);
        ProgressStep(before, was, entries, tried, first + k, a);
        StillBut(data, mid, dev.data, blockSize, Dirties(before), first + k, 1) by { RunInDirties(before, first, n); }
        CleanFromStep(was, entries, first, a);
        StillDirty(was, entries, first + k, n - k, a);
        BelowStep(old(entries), was, entries, first, a);
        if r.Err? {
          ok := false;
        }
      }
    }
  }

  // ----- progress of a write-back -----

  /** Of the blocks below `upto` exactly those whose own write failed are still dirty; the others are
      as they were. */
  ghost predicate Progress(before: map<nat, Entry>, now: map<nat, Entry>, tried: seq<Attempt>, upto: nat) {
    && now.Keys == before.Keys
    && (forall x :: x in before && x < upto ==>
       now[x] == before[x].(dirty := before[x].dirty && Attempt(x, 1, false) in tried))
    && (forall x :: x in before && x >= upto ==> now[x] == before[x])
    && (forall x: nat :: x >= upto ==> Attempt(x, 1, false) !in tried)
  }

  /** No block from `first` below `upto` is dirty. */
  ghost predicate CleanFrom(entries: map<nat, Entry>, first: nat, upto: nat) {
    forall x :: x in entries && first <= x < upto ==> !entries[x].dirty
  }

  ghost predicate AttemptsOk(tried: seq<Attempt>, bs: nat) {
    forall i :: 0 <= i < |tried| ==> AttemptOk(tried[i], bs)
  }

  /** `data'` is `data` but for blocks of `s`. */
  ghost predicate SameBut(data: Bytes, data': Bytes, bs: nat, s: set<nat>) {
    |data'| == |data| && forall x: nat :: x !in s ==> Slice(data', bs, x) == Slice(data, bs, x)
  }

  ghost predicate SameBelow(a: map<nat, Entry>, b: map<nat, Entry>, n: nat) {
    b.Keys == a.Keys && forall x :: x in a && x < n ==> b[x] == a[x]
  }

  lemma BelowSelf(a: map<nat, Entry>, n: nat)
    ensures SameBelow(a, a, n)
  {
  }

  lemma BelowStep(a: map<nat, Entry>, was: map<nat, Entry>, now: map<nat, Entry>, n: nat, t: Attempt)
    requires SameBelow(a, was, n) && n <= t.first && CleanedRun(was, now, t.first, if t.ok then t.n else 0)
    ensures SameBelow(a, now, n)
  {
  }

  /** Clean up to a run and clean in the run. */
  lemma CleanJoin(was: map<nat, Entry>, now: map<nat, Entry>, upto: nat, first: nat, n: nat)
    requires SameBelow(was, now, first) && upto <= first && forall x :: x in was && upto <= x < first ==> !was[x].dirty
    ensures CleanFrom(now, 0, first + n) <==> CleanFrom(was, 0, upto) && CleanFrom(now, first, first + n)
  {
    if CleanFrom(now, 0, first + n) {
      forall x | x in was && x < upto
        ensures !was[x].dirty
      {
        assert now[x] == was[x];
      }
    }
  }

  lemma DirtyHead(entries: map<nat, Entry>, first: nat, n: nat)
    requires AllDirty(entries, first, n) && n > 0
    ensures AllDirty(entries, first, 1)
  {
  }

  lemma SingleOk(a: Attempt, bs: nat)
    requires a.n == 1
    ensures AttemptOk(a, bs)
  {
  }

  lemma CleanFromNone(entries: map<nat, Entry>, first: nat)
    ensures CleanFrom(entries, first, first)
  {
  }

  lemma MoreAttempts(tried: seq<Attempt>, a: Attempt, bs: nat)
    requires AttemptOk(a, bs)
    ensures AttemptsOk(tried, bs) ==> AttemptsOk(tried + [a], bs)
  {
  }

  lemma ProgressStep(before: map<nat, Entry>, was: map<nat, Entry>, now: map<nat, Entry>, tried: seq<Attempt>,
        upto: nat, a: Attempt)
    requires Progress(before, was, tried, upto) && upto <= a.first && (a.ok || a.n == 1) && a.n > 0
             && AllDirty(was, a.first, a.n)
    requires forall x :: x in before && upto <= x < a.first ==> !before[x].dirty
    requires CleanedRun(was, now, a.first, if a.ok then a.n else 0)
    ensures Progress(before, now, tried + [a], a.first + a.n)
  {
    var tried' := tried + [a];
    forall x: nat
      ensures Attempt(x, 1, false) in tried' <==> Attempt(x, 1, false) in tried || a == Attempt(x, 1, false)
    {
    }
  }

  lemma StillBut(data: Bytes, mid: Bytes, data': Bytes, bs: nat, s: set<nat>, first: nat, n: nat)
    requires SameBut(data, mid, bs, s) && SameOutside(mid, data', bs, first, n)
             && forall x: nat :: first <= x < first + n ==> x in s
    ensures SameBut(data, data', bs, s)
  {
    hide Slice;
  }

  lemma RunInDirties(entries: map<nat, Entry>, first: nat, n: nat)
    requires AllDirty(entries, first, n)
    ensures forall x: nat :: first <= x < first + n ==> x in Dirties(entries)
  {
  }

  lemma CleanFromStep(was: map<nat, Entry>, now: map<nat, Entry>, first: nat, a: Attempt)
    requires first <= a.first && a.n == 1 && AllDirty(was, a.first, a.n)
             && CleanedRun(was, now, a.first, if a.ok then a.n else 0)
    ensures CleanFrom(now, first, a.first + 1) <==> CleanFrom(was, first, a.first) && a.ok
  {
    assert a.first in was && a.first in now;
  }

  lemma StillDirty(was: map<nat, Entry>, now: map<nat, Entry>, first: nat, n: nat, a: Attempt)
    requires n > 0 && AllDirty(was, first, n) && a.first == first && a.n == 1
             && CleanedRun(was, now, a.first, if a.ok then a.n else 0)
    ensures AllDirty(now, first + 1, n - 1)
  {
  }

  /** The contents of a run of cached blocks. */
  function RunData(entries: map<nat, Entry>, first: nat, n: nat): (blocks: seq<Bytes>)
    ensures |blocks| == n
  {
    seq(n, i requires 0 <= i < n => if first + i in entries then entries[first + i].data else [])
  }

  lemma Failed(attempts: seq<Attempt>, a: Attempt)
    requires !a.ok
    ensures !NoFailure(attempts + [a])
  {
    assert (attempts + [a])[|attempts|] == a;
  }

  lemma Succeeded(attempts: seq<Attempt>, a: Attempt)
    requires a.ok
    ensures NoFailure(attempts + [a]) <==> NoFailure(attempts)
  {
    assert attempts == (attempts + [a])[..|attempts|];
  }

  lemma SameSelf(data: Bytes, bs: nat, first: nat, n: nat)
    ensures SameOutside(data, data, bs, first, n)
  {
  }

  lemma JunkStored(data: Bytes, bs: nat, first: nat, n: nat, junk: Bytes)
    requires bs > 0 && |junk| == Times(n, bs) && Times(first, bs) + |junk| <= |data|
    ensures SameOutside(data, Patch(data, Times(first, bs), junk), bs, first, n)
  {
    hide Patch, Slice, Inside;
    forall x: nat | !(first <= x < first + n)
      ensures Slice(Patch(data, Times(first, bs), junk), bs, x) == Slice(data, bs, x)
    {
      PatchBlocks(data, bs, first, junk, n, x);
    }
  }

  /** Each block of a run is stored in its place, as if written alone. */
  lemma RunStored(data: Bytes, bs: nat, first: nat, entries: map<nat, Entry>, n: nat)
    requires bs > 0 && AllBlocks(RunData(entries, first, n), bs) && Times(first, bs) + Times(n, bs) <= |data|
    ensures |Joined(RunData(entries, first, n))| == Times(n, bs)
    ensures var data' := Patch(data, Times(first, bs), Joined(RunData(entries, first, n)));
            && SameOutside(data, data', bs, first, n)
            && forall x: nat :: first <= x < first + n ==>
               Inside(data', bs, x) && Slice(data', bs, x) == RunData(entries, first, n)[x - first]
  {
    hide Patch, Slice, Inside, Joined, RunData;
    var blocks := RunData(entries, first, n);
    JoinedAt(blocks, bs, 0);
    var data' := Patch(data, Times(first, bs), Joined(blocks));
    JunkStored(data, bs, first, n, Joined(blocks));
    forall x: nat | first <= x < first + n
      ensures Inside(data', bs, x) && Slice(data', bs, x) == blocks[x - first]
    {
      PatchBlocks(data, bs, first, Joined(blocks), n, x);
      JoinedAt(blocks, bs, x - first);
    }
  }

  lemma InsideSame(data: Bytes, data': Bytes, bs: nat, x: nat)
    requires |data'| == |data|
    ensures Inside(data', bs, x) <==> Inside(data, bs, x)
  {
  }

  lemma CleanAfter(a: map<nat, Entry>, b: map<nat, Entry>, data: Bytes, data': Bytes, bs: nat, loose: Option<nat>,
        first: nat, n: nat)
    requires CleanOk(a, data, bs, loose) && CleanedRun(a, b, first, n) && SameOutside(data, data', bs, first, n)
             && AllDirty(a, first, n)
    requires forall x: nat :: first <= x < first + n ==>
             Inside(data', bs, x) && Slice(data', bs, x) == RunData(a, first, n)[x - first]
    ensures CleanOk(b, data', bs, loose)
  {
    hide Slice;
  }

  lemma CleanJunk(entries: map<nat, Entry>, data: Bytes, data': Bytes, bs: nat, loose: Option<nat>, first: nat, n: nat)
    requires CleanOk(entries, data, bs, loose) && SameOutside(data, data', bs, first, n) && AllDirty(entries, first, n)
    ensures CleanOk(entries, data', bs, loose)
  {
    hide Slice;
  }

  lemma FewerDirty(a: map<nat, Entry>, b: map<nat, Entry>, first: nat, n: nat)
    requires CleanedRun(a, b, first, n)
    ensures |Dirties(b)| <= |Dirties(a)| && |b| == |a|
  {
    SubsetSize(Dirties(b), Dirties(a));
    assert |b.Keys| == |b| && |a.Keys| == |a|;
  }

  lemma CleanedNone(entries: map<nat, Entry>, first: nat)
    ensures CleanedRun(entries, entries, first, 0)
  {
  }

  /** `data'` is `data` but for the `n` blocks from `first` on. */
  ghost predicate SameOutside(data: Bytes, data': Bytes, bs: nat, first: nat, n: nat) {
    && |data'| == |data|
    && forall x: nat :: !(first <= x < first + n) ==> Slice(data', bs, x) == Slice(data, bs, x)
  }

  lemma BlocksWhole(entries: map<nat, Entry>, data: Bytes, bs: nat, loose: Option<nat>, first: nat, n: nat)
    requires CleanOk(entries, data, bs, loose) && AllDirty(entries, first, n)
    ensures AllBlocks(RunData(entries, first, n), bs)
  {
  }

  /** One past the last of the first `i` numbers. */
  function Upto(list: seq<nat>, i: nat): nat
    requires i <= |list|
  {
    if i == 0 then 0 else list[i - 1] + 1
  }

  /** The `n` numbers from the `i`-th on are consecutive, `maxRun` at most, and no more are. */
  ghost predicate LongestRun(list: seq<nat>, i: nat, maxRun: nat, n: nat) {
    && i < |list| && 1 <= n <= |list| - i && (n == 1 || n <= maxRun)
    && (forall k :: i <= k < i + n ==> list[k] == list[i] + (k - i))
    && (i + n == |list| || n >= maxRun || list[i + n] != list[i] + n)
  }

  method RunLength(list: seq<nat>, i: nat, maxRun: nat) returns (len: nat)
    requires i < |list|
    ensures LongestRun(list, i, maxRun, len)
  {
    len := 1;
    while len < |list| - i && len < maxRun && list[i + len] == list[i] + len
      invariant 1 <= len <= |list| - i && (len == 1 || len <= maxRun)
      invariant forall k :: i <= k < i + len ==> list[k] == list[i] + (k - i)
    {
      len := len + 1;
    }
  }

  /** Writes of one block each, from `first` on. */
  ghost predicate Singles(tried: seq<Attempt>, first: nat) {
    forall k :: 0 <= k < |tried| ==> tried[k].first == first + k && tried[k].n == 1
  }

  /** The writes tried for the `n` blocks from the `i`-th on: one for all, then, if that fails, one for each. */
  ghost predicate TriedRun(list: seq<nat>, i: nat, n: nat, tried: seq<Attempt>)
    requires i + n <= |list|
  {
    && i < |list| && tried != [] && tried[0].first == list[i] && tried[0].n == n
    && |tried| == (if tried[0].ok || n == 1 then 1 else 1 + n)
    && Singles(tried[1..], list[i])
  }

  /** The blocks of `list` were tried in order, each longest run at once. */
  ghost predicate Schedule(list: seq<nat>, i: nat, maxRun: nat, tried: seq<Attempt>)
    requires i <= |list|
    decreases |list| - i
  {
    if i == |list| then tried == []
    else exists n: nat, k: nat ::
      && LongestRun(list, i, maxRun, n) && k <= |tried| && TriedRun(list, i, n, tried[..k])
      && Schedule(list, i + n, maxRun, tried[k..])
  }

  /** What was tried is the beginning of a schedule that goes on at `i`. */
  ghost predicate ScheduledTo(list: seq<nat>, i: nat, maxRun: nat, tried: seq<Attempt>)
    requires i <= |list|
  {
    forall rest :: Schedule(list, i, maxRun, rest) ==> Schedule(list, 0, maxRun, tried + rest)
  }

  lemma ScheduleStart(list: seq<nat>, maxRun: nat)
    ensures ScheduledTo(list, 0, maxRun, [])
  {
    hide Schedule;
    forall rest: seq<Attempt> ensures [] + rest == rest {}
  }

  lemma ScheduleMore(list: seq<nat>, i: nat, maxRun: nat, n: nat, tried: seq<Attempt>, run: seq<Attempt>)
    requires i < |list| && ScheduledTo(list, i, maxRun, tried)
    requires LongestRun(list, i, maxRun, n) && TriedRun(list, i, n, run)
    ensures ScheduledTo(list, i + n, maxRun, tried + run)
  {
    hide LongestRun, TriedRun;
    assert i + n <= |list| by { InList(list, i, maxRun, n); }
    forall rest | Schedule(list, i + n, maxRun, rest)
      ensures Schedule(list, 0, maxRun, tried + run + rest)
    {
      var all := run + rest;
      assert all[..|run|] == run && all[|run|..] == rest;
      assert Schedule(list, i, maxRun, all);
      assert tried + run + rest == tried + all;
    }
  }

  lemma InList(list: seq<nat>, i: nat, maxRun: nat, n: nat)
    requires LongestRun(list, i, maxRun, n)
    ensures i + n <= |list|
  {
  }

  lemma ScheduleDone(list: seq<nat>, maxRun: nat, tried: seq<Attempt>)
    requires ScheduledTo(list, |list|, maxRun, tried)
    ensures Schedule(list, 0, maxRun, tried)
  {
    assert Schedule(list, |list|, maxRun, []);
    assert tried + [] == tried;
  }

  /** `list` is the dirty blocks in ascending order. */
  ghost predicate DirtyList(entries: map<nat, Entry>, list: seq<nat>) {
    && (forall i, j :: 0 <= i < j < |list| ==> list[i] < list[j])
    && (forall x :: x in list <==> x in entries && entries[x].dirty)
  }

  lemma ListIs(entries: map<nat, Entry>, list: seq<nat>)
    requires forall i, j :: 0 <= i < j < |list| ==> list[i] < list[j]
    requires forall x :: x in list <==> x in (set b | b in entries && entries[b].dirty)
    ensures DirtyList(entries, list)
  {
  }

  lemma ProgressStart(entries: map<nat, Entry>, data: Bytes, bs: nat)
    ensures Progress(entries, entries, [], 0) && AttemptsOk([], bs) && SameBut(data, data, bs, Dirties(entries))
            && CleanFrom(entries, 0, 0)
  {
  }

  /** The next run: still dirty, after a gap without dirty blocks. */
  lemma RunFacts(before: map<nat, Entry>, now: map<nat, Entry>, list: seq<nat>, i: nat, len: nat, tried: seq<Attempt>)
    requires DirtyList(before, list) && i < |list| && 1 <= len <= |list| - i
             && Progress(before, now, tried, Upto(list, i))
    requires forall k :: i <= k < i + len ==> list[k] == list[i] + (k - i)
    ensures Upto(list, i) <= list[i] && AllDirty(before, list[i], len) && AllDirty(now, list[i], len)
    ensures forall x :: x in before && Upto(list, i) <= x < list[i] ==> !before[x].dirty
    ensures forall x :: x in now && Upto(list, i) <= x < list[i] ==> !now[x].dirty
    ensures Upto(list, i + len) == list[i] + len
  {
    forall x: nat | list[i] <= x < list[i] + len
      ensures x in before && before[x].dirty
    {
      assert list[i + (x - list[i])] == x;
    }
    forall x | x in before && before[x].dirty && x < list[i]
      ensures x < Upto(list, i)
    {
      assert x in list;
      var j :| 0 <= j < |list| && list[j] == x;
      assert j < i;
      if j < i - 1 { assert list[j] < list[i - 1]; }
    }
  }

  lemma RunFits(len: nat, maxRun: nat, bs: nat)
    requires bs > 0 && (len == 1 || (len > 1 && len <= maxRun))
             && maxRun == if MAX_WRITE / bs < 1 then 1 else MAX_WRITE / bs
    ensures forall first, ok :: AttemptOk(Attempt(first, len, ok), bs)
  {
    TimesIs(len, bs);
    if len > 1 { MulLe(len, MAX_WRITE / bs, bs); }
  }

  /** A failed run of several blocks is nobody's own write. */
  lemma ProgressMore(before: map<nat, Entry>, was: map<nat, Entry>, now: map<nat, Entry>, list: seq<nat>, i: nat,
        tried: seq<Attempt>, a: Attempt)
    requires i < |list| && Progress(before, was, tried, Upto(list, i)) && Upto(list, i) <= list[i]
             && a.first == list[i] && !a.ok && a.n > 1
    requires forall x :: x in before && Upto(list, i) <= x < list[i] ==> !before[x].dirty
    requires CleanedRun(was, now, a.first, 0) && AllDirty(was, a.first, a.n)
    ensures now == was && Progress(before, now, tried + [a], list[i]) && AllDirty(now, a.first, a.n)
    ensures forall x :: x in was && Upto(list, i) <= x < list[i] ==> !was[x].dirty
  {
    var tried' := tried + [a];
    forall x: nat
      ensures Attempt(x, 1, false) in tried' <==> Attempt(x, 1, false) in tried
    {
    }
    assert now == was;
  }

  lemma CleanRunStep(was: map<nat, Entry>, now: map<nat, Entry>, upto: nat, a: Attempt)
    requires upto <= a.first && (a.ok || a.n == 1) && a.n > 0 && AllDirty(was, a.first, a.n)
             && CleanedRun(was, now, a.first, if a.ok then a.n else 0)
    requires forall x :: x in was && upto <= x < a.first ==> !was[x].dirty
    ensures CleanFrom(now, 0, a.first + a.n) <==> CleanFrom(was, 0, upto) && a.ok
  {
    assert a.first in was && a.first in now;
  }

  /** Exactly the blocks whose own write failed are still dirty; nothing else changed. */
  ghost predicate WrittenBack(before: map<nat, Entry>, now: map<nat, Entry>, tried: seq<Attempt>) {
    && now.Keys == before.Keys
    && forall x :: x in before ==> now[x] == before[x].(dirty := before[x].dirty && Attempt(x, 1, false) in tried)
  }

  lemma ProgressDone(before: map<nat, Entry>, now: map<nat, Entry>, list: seq<nat>, tried: seq<Attempt>)
    requires DirtyList(before, list) && Progress(before, now, tried, Upto(list, |list|))
    ensures WrittenBack(before, now, tried)
    ensures CleanFrom(now, 0, Upto(list, |list|)) <==> Dirties(now) == {}
  {
    forall x | x in before && before[x].dirty
      ensures x < Upto(list, |list|)
    {
      assert x in list;
      var j :| 0 <= j < |list| && list[j] == x;
      if j < |list| - 1 { assert list[j] < list[|list| - 1]; }
    }
    if CleanFrom(now, 0, Upto(list, |list|)) {
      forall x | x in now
        ensures !now[x].dirty
      {
      }
    }
    if Dirties(now) == {} {
      forall x | x in now
        ensures !now[x].dirty
      {
        assert x !in Dirties(now);
      }
    }
  }

  lemma SameSize(entries: map<nat, Entry>, b: nat, e: Entry)
    requires b in entries
    ensures |entries[b := e]| == |entries|
  {
    assert entries[b := e].Keys == entries.Keys;
    assert |entries[b := e].Keys| == |entries[b := e]| && |entries.Keys| == |entries|;
  }

  lemma NoAttempts(attempts: seq<Attempt>, bs: nat)
    ensures AttemptsOk(attempts[|attempts|..], bs)
  {
  }

  lemma NoneClean(entries: map<nat, Entry>, lru: map<nat, nat>, tick: nat)
    requires LruOk(entries, lru, tick) && lru == map[]
    ensures Dirties(entries) == entries.Keys
  {
  }

  lemma AllStillDirty(entries: map<nat, Entry>, lru: map<nat, nat>, tick: nat)
    requires LruOk(entries, lru, tick) && lru == map[]
    ensures |Dirties(entries)| == |entries|
  {
    assert Dirties(entries) == entries.Keys;
    assert |entries.Keys| == |entries|;
  }

  /** `v` is clean, and no clean block was used longer ago. */
  ghost predicate IsOldest(entries: map<nat, Entry>, v: nat) {
    v in entries && !entries[v].dirty
        && forall b :: b in entries && !entries[b].dirty ==> entries[v].tick <= entries[b].tick
  }

  lemma Oldest(entries: map<nat, Entry>, lru: map<nat, nat>, tick: nat, t: nat)
    requires LruOk(entries, lru, tick) && t in lru && forall u :: u in lru ==> t <= u
    ensures IsOldest(entries, lru[t]) && lru[t] in entries && !entries[lru[t]].dirty
            && |entries - {lru[t]}| == |entries| - 1
  {
    assert (entries - {lru[t]}).Keys == entries.Keys - {lru[t]};
    assert |(entries - {lru[t]}).Keys| == |entries - {lru[t]}| && |entries.Keys| == |entries|;
  }

  lemma StillClean(before: map<nat, Entry>, now: map<nat, Entry>, tried: seq<Attempt>, b: nat)
    requires WrittenBack(before, now, tried) && b in before && !before[b].dirty
    ensures b in now && now[b] == before[b]
  {
  }

  /** With no failure nothing is left dirty. */
  lemma NothingFailed(before: map<nat, Entry>, now: map<nat, Entry>, attempts: seq<Attempt>, start: nat)
    requires NoFailure(attempts) && start <= |attempts| && WrittenBack(before, now, attempts[start..])
    ensures |Dirties(now)| == 0
  {
    forall x | x in now
      ensures !now[x].dirty
    {
      assert forall i :: 0 <= i < |attempts[start..]| ==> attempts[start..][i] == attempts[start + i];
    }
    assert Dirties(now) == {};
  }

  lemma CleanStill(entries: map<nat, Entry>, data: Bytes, bs: nat, loose: Option<nat>, b: nat)
    requires CleanOk(entries, data, bs, loose) && b in entries && (loose.Some? ==> loose.value == b)
    ensures CleanOk(entries[b := entries[b].(dirty := true)], data, bs, None)
  {
    hide Slice, Inside;
  }

  lemma NewData(entries: map<nat, Entry>, lru: map<nat, nat>, tick: nat, dev: Bytes, bs: nat, b: nat, data: Bytes)
    requires LruOk(entries, lru, tick) && CleanOk(entries, dev, bs, None) && b in entries && entries[b].dirty
             && |data| == bs
    ensures var entries' := entries[b := entries[b].(data := data)];
            LruOk(entries', lru, tick) && CleanOk(entries', dev, bs, None) && Dirties(entries') == Dirties(entries)
  {
    hide Slice, Inside;
  }

  lemma NothingLoose(entries: map<nat, Entry>, data: Bytes, bs: nat, b: nat)
    requires CleanOk(entries, data, bs, None)
    ensures CleanOk(entries, data, bs, Some(b))
  {
    hide Slice, Inside;
  }

  lemma FilledOk(entries: map<nat, Entry>, lru: map<nat, nat>, tick: nat, data: Bytes, bs: nat, b: nat)
    requires LruOk(entries, lru, tick) && CleanOk(entries, data, bs, None) && b in entries
    ensures var entries' := entries[b := entries[b].(data := Zeros(bs))];
            && LruOk(entries', lru, tick) && Dirties(entries') == Dirties(entries)
            && CleanOk(entries', data, bs, if entries[b].dirty then None else Some(b))
  {
    hide Slice, Inside;
  }
}

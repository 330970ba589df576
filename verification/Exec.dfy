/** Loading a checked program (kernel/src/exec.rs) into an address space (kernel/src/mm/space.rs). */
module Exec {
  import opened Wrappers
  import opened Le
  import opened Sets
  import opened Elf

  const LOWER_HALF_END: nat := 0x8000_0000_0000
  const STACK_TOP: nat := 0x7FFF_FFFF_F000
  const STACK_PAGES: nat := 255
  const STACK_BOTTOM: nat := STACK_TOP - STACK_PAGES * PAGE
  const ARGS_MAX: nat := 65536
  const ENV_MAX: nat := 65536

  predicate InGuardPage(a: nat) {
    STACK_BOTTOM - PAGE <= a < STACK_BOTTOM
  }

  // ----- the address space -----

  /** A page of the program's: what it may do with it, and its bytes. */
  datatype Page = Page(perm: Access, bytes: Bytes)

  datatype MapError = OutOfMemory | Conflict | Unaligned | NotUser

  datatype Mapping = Mapped | Failed(error: MapError)

  /** `ENOMEM` when the frames ran out, `ENOEXEC` for anything else. */
  function ErrnoOf(m: Mapping): Errno {
    if m == Failed(OutOfMemory) then ENOMEM else ENOEXEC
  }

  /** The byte at address `a`, if its page is mapped. */
  function MemAt(pages: map<nat, Page>, a: nat): Option<byte> {
    if a / PAGE in pages && |pages[a / PAGE].bytes| == PAGE then Some(pages[a / PAGE].bytes[a % PAGE]) else None
  }

  ghost predicate PagesOk(pages: map<nat, Page>) {
    forall p :: p in pages ==> |pages[p].bytes| == PAGE
  }

  /** None of the `n` pages from `first` on is mapped. */
  ghost predicate Free(pages: map<nat, Page>, first: nat, n: nat) {
    forall p: nat :: first <= p < first + n ==> p !in pages
  }

  /** `now` is `was` with `n` zeroed pages from `first` on. */
  ghost predicate Zeroed(was: map<nat, Page>, now: map<nat, Page>, first: nat, n: nat, perm: Access) {
    && (forall p: nat :: p in now <==> p in was || first <= p < first + n)
    && (forall p: nat :: first <= p < first + n ==> p in now && now[p] == Page(perm, Zeros(PAGE)))
    && (forall p: nat :: p in was && !(first <= p < first + n) ==> p in now && now[p] == was[p])
  }

  /** `now` is `was` with `bytes` at `virt`. */
  ghost predicate Filled(was: map<nat, Page>, now: map<nat, Page>, virt: nat, bytes: Bytes) {
    && (forall p: nat :: p in now <==> p in was) && (forall p: nat :: p in was ==> now[p].perm == was[p].perm)
    && (forall a: nat :: MemAt(now, a) == if virt <= a < virt + |bytes| then Some(bytes[a - virt]) else MemAt(was, a))
  }

  lemma FilledMore(was: map<nat, Page>, mid: map<nat, Page>, now: map<nat, Page>, virt: nat, bytes: Bytes, done: nat,
        n: nat)
    requires done + n <= |bytes| && Filled(was, mid, virt, bytes[..done])
             && Filled(mid, now, virt + done, bytes[done..done + n])
    ensures Filled(was, now, virt, bytes[..done + n])
  {
  }

  /** A page nothing was copied to is as it was. */
  lemma FilledOther(was: map<nat, Page>, now: map<nat, Page>, virt: nat, bytes: Bytes, p: nat)
    requires PagesOk(was) && PagesOk(now) && Filled(was, now, virt, bytes) && p in was
    requires forall a: nat :: virt <= a < virt + |bytes| ==> a / PAGE != p
    ensures p in now && now[p] == was[p]
  {
    forall i: nat | i < PAGE ensures now[p].bytes[i] == was[p].bytes[i] {
      var a := p * PAGE + i;
      assert a / PAGE == p && a % PAGE == i;
      assert MemAt(now, a) == MemAt(was, a);
    }
    assert now[p].bytes == was[p].bytes;
  }

  lemma PatchPage(was: map<nat, Page>, v: nat, bytes: Bytes)
    requires PagesOk(was) && v / PAGE in was && v % PAGE + |bytes| <= PAGE
    ensures var p := v / PAGE;
            var now := was[p := Page(was[p].perm, Patch(was[p].bytes, v % PAGE, bytes))];
            Filled(was, now, v, bytes) && PagesOk(now)
  {
    hide Patch;
    var p := v / PAGE;
    var now := was[p := Page(was[p].perm, Patch(was[p].bytes, v % PAGE, bytes))];
    forall a: nat
      ensures MemAt(now, a) == if v <= a < v + |bytes| then Some(bytes[a - v]) else MemAt(was, a)
    {
    }
  }

  // ----- frames and page tables -----

  /** The table of a level that page `p` is found through: 512 pages to one of level 1, 512 of those to one of
      level 2, and so on. */
  function TableFor(p: nat, level: nat): (nat, nat) {
    (level, if level == 1 then p / 512 else if level == 2 then p / 0x4_0000 else p / 0x800_0000)
  }

  /** The tables page `p` needs below the root. */
  function TablesFor(p: nat): set<(nat, nat)> {
    {TableFor(p, 3), TableFor(p, 2), TableFor(p, 1)}
  }

  function TablesOf(first: nat, n: nat): set<(nat, nat)> {
    if n == 0 then {} else TablesOf(first, n - 1) + TablesFor(first + n - 1)
  }

  function Missing(t: (nat, nat), tables: set<(nat, nat)>): nat {
    if t in tables then 0 else 1
  }

  /** The frames `n` pages take, with the tables there are not yet. */
  ghost function Price(n: nat, needs: set<(nat, nat)>, tables: set<(nat, nat)>): nat {
    n + |needs - tables|
  }

  lemma PriceMore(n: nat, m: nat, a: set<(nat, nat)>, b: set<(nat, nat)>, tables: set<(nat, nat)>)
    ensures Price(n + m, a + b, tables) == Price(n, a, tables) + Price(m, b, tables + a)
  {
    assert (a + b) - tables == (a - tables) + (b - (tables + a));
  }

  lemma PriceStep(n: nat, a: set<(nat, nat)>, first: nat, tables: set<(nat, nat)>)
    requires a == TablesOf(first, n)
    ensures Price(n + 1, TablesOf(first, n + 1), tables) ==
            Price(n, a, tables) + 1 + |TablesFor(first + n) - (tables + a)|
    ensures TablesOf(first, n + 1) == a + TablesFor(first + n)
  {
    PriceMore(n, 1, a, TablesFor(first + n), tables);
  }

  lemma {:induction false} PriceGrows(first: nat, n: nat, m: nat, tables: set<(nat, nat)>)
    requires n <= m
    ensures Price(n, TablesOf(first, n), tables) <= Price(m, TablesOf(first, m), tables)
    decreases m
  {
    if n < m {
      PriceGrows(first, n, m - 1, tables);
      PriceStep(m - 1, TablesOf(first, m - 1), first, tables);
    }
  }

  datatype Mem = Mem(pages: map<nat, Page>, tables: set<(nat, nat)>, frames: nat)

  /** `now` is `was` with `n` zeroed pages from `first` on, none mapped before, and paid for. */
  ghost predicate MapsTo(was: Mem, now: Mem, first: nat, n: nat, perm: Access) {
    && PagesOk(now.pages) && Zeroed(was.pages, now.pages, first, n, perm) && Free(was.pages, first, n)
    && now.tables == was.tables + TablesOf(first, n)
    && now.frames == was.frames - Price(n, TablesOf(first, n), was.tables)
  }

  lemma MapsNothing(was: Mem, first: nat, perm: Access)
    requires PagesOk(was.pages)
    ensures MapsTo(was, was, first, 0, perm)
  {
  }

  lemma MapsToIs(was: Mem, now: Mem, first: nat, n: nat, perm: Access)
    requires MapsTo(was, now, first, n, perm)
    ensures PagesOk(now.pages) && Zeroed(was.pages, now.pages, first, n, perm) && Free(was.pages, first, n)
  {
  }

  lemma MapsPaid(was: Mem, now: Mem, first: nat, n: nat, perm: Access)
    requires MapsTo(was, now, first, n, perm)
    ensures now.tables == was.tables + TablesOf(first, n)
    ensures now.frames == was.frames - Price(n, TablesOf(first, n), was.tables)
  {
  }

  lemma MapsMore(was: Mem, mid: Mem, now: Mem, first: nat, n: nat, perm: Access)
    requires MapsTo(was, mid, first, n, perm) && first + n !in mid.pages
    requires now.pages == mid.pages[first + n := Page(perm, Zeros(PAGE))]
    requires now.tables == mid.tables + TablesFor(first + n)
    requires now.frames == mid.frames - 1 - |TablesFor(first + n) - mid.tables|
    ensures MapsTo(was, now, first, n + 1, perm) && PagesOk(now.pages)
  {
    hide TablesFor, Zeros, Zeroed, Free, PagesOk, TablesOf, Price;
    ZeroedMore(was.pages, mid.pages, first, n, perm);
    PagesMore(mid.pages, first + n, perm);
    PriceStep(n, TablesOf(first, n), first, was.tables);
  }

  /** Why the next page could not be mapped. */
  lemma MapsStuck(was: Mem, mid: Mem, first: nat, i: nat, n: nat, perm: Access)
    requires MapsTo(was, mid, first, i, perm) && i < n
    ensures first + i in mid.pages ==> !Free(was.pages, first, n)
    ensures mid.frames < 1 + |TablesFor(first + i) - mid.tables| ==>
              was.frames < Price(n, TablesOf(first, n), was.tables)
  {
    hide TablesFor, Zeros, Zeroed, Free, PagesOk, TablesOf, Price;
    if first + i in mid.pages { NotFree(was.pages, mid.pages, first, i, n, perm); }
    PriceStep(i, TablesOf(first, i), first, was.tables);
    PriceGrows(first, i + 1, n, was.tables);
  }

  class AddressSpace {
    /** The program's pages, by page number. */
    var pages: map<nat, Page>
    /** The page tables below the root, by level and place. */
    var tables: set<(nat, nat)>
    /** The frames of memory left. */
    var frames: nat

    ghost function Memory(): Mem
      reads this
    {
      Mem(pages, tables, frames)
    }

    /** Every frame is free, a table or a page. */
    ghost function Frames(): nat
      reads this
    {
      frames + |tables| + |pages|
    }

    /** The table `t`, made if missing. */
    method Child(t: (nat, nat)) returns (ok: bool)
      modifies this`tables, this`frames
      ensures ok <==> t in old(tables) || old(frames) > 0
      ensures ok ==> tables == old(tables) + {t} && frames == old(frames) - Missing(t, old(tables))
      ensures !ok ==> tables == old(tables) && frames == old(frames)
      ensures Frames() == old(Frames())
    {
      if t !in tables {
        if frames == 0 {
          return false;
        }
        frames := frames - 1;
        tables := tables + {t};
      }
      return true;
    }

    /** Makes the tables missing on the way to page `p`, from the top. */
    method MakeTables(p: nat) returns (ok: bool)
      modifies this`tables, this`frames
      ensures ok <==> old(frames) >= |TablesFor(p) - old(tables)|
      ensures ok ==> tables == old(tables) + TablesFor(p) && frames == old(frames) - |TablesFor(p) - old(tables)|
      ensures Frames() == old(Frames())
    {
      hide TableFor, Frames;
      ThreeTables(p, tables);
      ok := Child(TableFor(p, 3));
      if ok {
        ok := Child(TableFor(p, 2));
      }
      if ok {
        ok := Child(TableFor(p, 1));
      }
    }

    /** A fresh zeroed frame mapped at `virt`, or given back. */
    method MapPage(virt: nat, perm: Access) returns (r: Mapping)
      modifies this
      ensures r.Mapped? ==>
                && virt % PAGE == 0 && virt / PAGE !in old(pages)
                && pages == old(pages)[virt / PAGE := Page(perm, Zeros(PAGE))]
                && tables == old(tables) + TablesFor(virt / PAGE)
                && frames == old(frames) - 1 - |TablesFor(virt / PAGE) - old(tables)|
      ensures r.Failed? ==> pages == old(pages)
      ensures virt % PAGE == 0 && virt / PAGE !in old(pages) ==>
                if old(frames) >= 1 + |TablesFor(virt / PAGE) - old(tables)| then r.Mapped?
                else r == Failed(OutOfMemory)
      ensures Frames() == old(Frames())
    {
      hide TablesFor, Zeros;
      if frames == 0 {
        return Failed(OutOfMemory);
      }
      frames := frames - 1;
      if virt % PAGE != 0 {
        frames := frames + 1;
        return Failed(Unaligned);
      }
      var p := virt / PAGE;
      var made := MakeTables(p);
      if !made {
        frames := frames + 1;
        return Failed(OutOfMemory);
      }
      if p in pages {
        frames := frames + 1;
        return Failed(Conflict);
      }
      NewKey(pages, p, Page(perm, Zeros(PAGE)));
      pages := pages[p := Page(perm, Zeros(PAGE))];
      return Mapped;
    }

    /** Maps `n` fresh zeroed pages from `virt`. */
    method MapZeroed(virt: nat, n: nat, perm: Access) returns (r: Mapping)
      requires PagesOk(pages)
      modifies this
      ensures PagesOk(pages)
      // Success is all of them, none mapped before; a failure leaves the first few.
      ensures r.Mapped? ==> (n > 0 ==> virt % PAGE == 0) && Zeroed(old(pages), pages, virt / PAGE, n, perm)
      ensures exists k: nat ::
                k <= n && Zeroed(old(pages), pages, virt / PAGE, k, perm) && Free(old(pages), virt / PAGE, k)
      ensures r.Mapped? ==> Free(old(pages), virt / PAGE, n)
      // Where the pages are the program's to map, it succeeds exactly when there are frames for them and their
      // tables.
      ensures virt % PAGE == 0 && virt + n * PAGE <= LOWER_HALF_END && Free(old(pages), virt / PAGE, n) ==>
                if old(frames) >= Price(n, TablesOf(virt / PAGE, n), old(tables)) then r.Mapped?
                else r == Failed(OutOfMemory)
      ensures r.Mapped? ==>
                && tables == old(tables) + TablesOf(virt / PAGE, n)
                && frames == old(frames) - Price(n, TablesOf(virt / PAGE, n), old(tables))
      ensures Frames() == old(Frames())
    {
      hide TablesFor, Zeros, Frames, Zeroed, Free, PagesOk, TablesOf, Price, MapsTo;
      ghost var first, was := virt / PAGE, Memory();
      MapsNothing(was, first, perm);
      MapsToIs(was, was, first, 0, perm);
      if virt + n * PAGE > LOWER_HALF_END {
        return Failed(NotUser);
      }
      for i := 0 to n
        invariant MapsTo(was, Memory(), first, i, perm) && PagesOk(pages) && (i > 0 ==> virt % PAGE == 0)
        invariant Frames() == old(Frames())
      {
        ghost var mid := Memory();
        MapsToIs(was, mid, first, i, perm);
        MapsStuck(was, mid, first, i, n, perm);
        PageAfter(virt, i);
        r := MapPage(virt + i * PAGE, perm);
        if r.Failed? {
          return;
        }
        MapsMore(was, mid, Memory(), first, i, perm);
      }
      MapsToIs(was, Memory(), first, n, perm);
      MapsPaid(was, Memory(), first, n, perm);
      return Mapped;
    }

    /** Copies `bytes` to `virt`, whatever the pages' permissions. */
    method Fill(virt: nat, bytes: Bytes) returns (r: Mapping)
      requires PagesOk(pages)
      modifies this`pages
      ensures PagesOk(pages)
      ensures r.Mapped? ==> Filled(old(pages), pages, virt, bytes)
      ensures (forall a: nat :: virt <= a < virt + |bytes| ==> MemAt(old(pages), a).Some?) ==> r.Mapped?
      ensures tables == old(tables) && frames == old(frames)
    {
      hide Zeroed;
      var done := 0;
      while done < |bytes|
        invariant done <= |bytes| && PagesOk(pages) && Filled(old(pages), pages, virt, bytes[..done])
        decreases |bytes| - done
      {
        var v := virt + done;
        if v / PAGE !in pages {
          assert MemAt(old(pages), v).None?;
          return Failed(NotUser);
        }
        var n := if PAGE - v % PAGE < |bytes| - done then PAGE - v % PAGE else |bytes| - done;
        var page := pages[v / PAGE];
        PatchPage(pages, v, bytes[done..done + n]);
        ghost var mid := pages;
        pages := pages[v / PAGE := Page(page.perm, Patch(page.bytes, v % PAGE, bytes[done..done + n]))];
        FilledMore(old(pages), mid, pages, virt, bytes, done, n);
        done := done + n;
      }
      assert bytes[..|bytes|] == bytes;
      return Mapped;
    }
  }

  lemma ZeroedMore(was: map<nat, Page>, now: map<nat, Page>, first: nat, n: nat, perm: Access)
    requires Zeroed(was, now, first, n, perm) && Free(was, first, n) && first + n !in now
    ensures Zeroed(was, now[first + n := Page(perm, Zeros(PAGE))], first, n + 1, perm) && Free(was, first, n + 1)
  {
    hide Zeros;
  }

  lemma NotFree(was: map<nat, Page>, now: map<nat, Page>, first: nat, n: nat, m: nat, perm: Access)
    requires Zeroed(was, now, first, n, perm) && first + n in now && n < m
    ensures !Free(was, first, m)
  {
  }

  lemma PagesMore(pages: map<nat, Page>, p: nat, perm: Access)
    requires PagesOk(pages)
    ensures PagesOk(pages[p := Page(perm, Zeros(PAGE))])
  {
  }

  lemma ThreeTables(p: nat, t: set<(nat, nat)>)
    ensures var a, b, c := TableFor(p, 3), TableFor(p, 2), TableFor(p, 1);
            && a != b && a != c && b != c
            && |TablesFor(p) - t| == Missing(a, t) + Missing(b, t) + Missing(c, t)
  {
    var a, b, c := TableFor(p, 3), TableFor(p, 2), TableFor(p, 1);
    OneMore({}, a, t);
    OneMore({a}, b, t);
    OneMore({a, b}, c, t);
    assert {} + {a} == {a} && {a} + {b} == {a, b} && {a, b} + {c} == TablesFor(p);
  }

  lemma OneMore(a: set<(nat, nat)>, x: (nat, nat), t: set<(nat, nat)>)
    requires x !in a
    ensures |(a + {x}) - t| == |a - t| + Missing(x, t)
  {
    if x in t { assert (a + {x}) - t == a - t; } else { assert (a + {x}) - t == (a - t) + {x}; }
  }

  lemma PageAfter(virt: nat, i: nat)
    ensures (virt + i * PAGE) / PAGE == virt / PAGE + i && (virt + i * PAGE) % PAGE == virt % PAGE
  {
  }

  lemma NewKey(m: map<nat, Page>, p: nat, page: Page)
    requires p !in m
    ensures |m[p := page]| == |m| + 1
  {
    assert m[p := page].Keys == m.Keys + {p};
    assert |m.Keys| == |m| && |m[p := page].Keys| == |m[p := page]|;
  }

  // ----- segments -----

  function FirstPage(s: Segment): nat {
    s.vaddr / PAGE
  }

  /** One past its last page. */
  function EndPage(s: Segment): nat {
    (s.End() + PAGE - 1) / PAGE
  }

  ghost predicate Covers(s: Segment, p: nat) {
    FirstPage(s) <= p < EndPage(s)
  }

  lemma {:induction false} EndsBefore(file: Bytes, segs: seq<Segment>, i: nat, j: nat)
    requires SegmentsOk(file, segs) && i < j < |segs|
    ensures segs[i].End() <= PageDown(segs[j].vaddr) && EndPage(segs[i]) <= FirstPage(segs[j])
  {
    if i < j - 1 { EndsBefore(file, segs, i, j - 1); }
    assert segs[j - 1].End() <= PageDown(segs[j].vaddr);
  }

  /** No page belongs to two segments of an accepted program, and all lie in the program area. */
  lemma PagesApart(file: Bytes, segs: seq<Segment>, i: nat, j: nat, p: nat)
    requires SegmentsOk(file, segs) && i < |segs| && j < |segs| && Covers(segs[i], p) && Covers(segs[j], p)
    ensures i == j && PROGRAM_BASE / PAGE <= p < PROGRAM_END / PAGE
  {
    if i < j { EndsBefore(file, segs, i, j); }
    if j < i { EndsBefore(file, segs, j, i); }
    assert SegmentOk(file, segs[i]);
  }

  /** What a page of segment `s` should hold: bytes of the file, then zeros. */
  function SegByte(file: Bytes, s: Segment, a: nat): byte {
    if s.vaddr <= a < s.vaddr + s.filesz && s.offset + (a - s.vaddr) < |file| then file[s.offset + (a - s.vaddr)] else 0
  }

  /** Segment `s` is mapped with its permission and holds its bytes. */
  ghost predicate SegLoaded(pages: map<nat, Page>, file: Bytes, s: Segment) {
    && (forall p: nat :: Covers(s, p) ==> p in pages && pages[p].perm == s.access)
    && (forall a: nat :: Covers(s, a / PAGE) ==> MemAt(pages, a) == Some(SegByte(file, s, a)))
  }

  /** The pages there were, as they were, and those of the segments. */
  ghost predicate OnlySegments(base: map<nat, Page>, pages: map<nat, Page>, segs: seq<Segment>) {
    && (forall p :: p in base ==> p in pages && pages[p] == base[p])
    && (forall p :: p in pages ==> p in base || exists j :: 0 <= j < |segs| && Covers(segs[j], p))
  }

  /** A page there was is one the program needs. */
  ghost predicate Clash(base: map<nat, Page>, segs: seq<Segment>) {
    exists p :: p in base && (InStackPage(p) || exists j :: 0 <= j < |segs| && Covers(segs[j], p))
  }

  predicate InStackPage(p: nat) {
    STACK_BOTTOM / PAGE <= p < STACK_TOP / PAGE
  }

  lemma SegStep(was: map<nat, Page>, mid: map<nat, Page>, now: map<nat, Page>, file: Bytes, s: Segment)
    requires SegmentOk(file, s) && Zeroed(was, mid, FirstPage(s), EndPage(s) - FirstPage(s), s.access)
    requires Filled(mid, now, s.vaddr, file[s.offset..s.offset + s.filesz])
    ensures SegLoaded(now, file, s)
  {
    forall a: nat | Covers(s, a / PAGE)
      ensures MemAt(now, a) == Some(SegByte(file, s, a))
    {
      assert mid[a / PAGE] == Page(s.access, Zeros(PAGE));
    }
  }

  lemma SegKept(was: map<nat, Page>, mid: map<nat, Page>, now: map<nat, Page>, file: Bytes, s: Segment, other: Segment)
    requires SegmentOk(file, s) && Zeroed(was, mid, FirstPage(s), EndPage(s) - FirstPage(s), s.access)
    requires Filled(mid, now, s.vaddr, file[s.offset..s.offset + s.filesz])
    requires SegLoaded(was, file, other) && EndPage(other) <= FirstPage(s)
    ensures SegLoaded(now, file, other)
  {
    forall a: nat | Covers(other, a / PAGE)
      ensures MemAt(now, a) == Some(SegByte(file, other, a))
    {
      assert MemAt(mid, a) == MemAt(was, a);
    }
  }

  /** The pages of the stack and all above it but the stack are left alone. */
  lemma SegmentBelowStack(file: Bytes, s: Segment, p: nat)
    requires SegmentOk(file, s) && Covers(s, p)
    ensures p < STACK_BOTTOM / PAGE - 1
  {
  }

  function SegPages(s: Segment): nat {
    if FirstPage(s) <= EndPage(s) then EndPage(s) - FirstPage(s) else 0
  }

  function SegTables(s: Segment): set<(nat, nat)> {
    TablesOf(FirstPage(s), SegPages(s))
  }

  /** The pages and the tables of segments. */
  function AllPages(segs: seq<Segment>): nat {
    if segs == [] then 0 else AllPages(segs[..|segs| - 1]) + SegPages(segs[|segs| - 1])
  }

  function AllTables(segs: seq<Segment>): set<(nat, nat)> {
    if segs == [] then {} else AllTables(segs[..|segs| - 1]) + SegTables(segs[|segs| - 1])
  }

  /** Maps and fills one segment. */
  method LoadSegment(space: AddressSpace, file: Bytes, segs: seq<Segment>, k: nat, ghost base: map<nat, Page>)
    returns (r: Result<()>)
    requires PagesOk(space.pages) && PagesOk(base) && SegmentsOk(file, segs) && k < |segs|
    requires OnlySegments(base, space.pages, segs[..k])
             && forall j :: 0 <= j < k ==> SegLoaded(space.pages, file, segs[j])
    modifies space
    ensures PagesOk(space.pages)
    ensures r.Err? ==> r.error == ENOMEM || (r.error == ENOEXEC && Clash(base, segs))
    ensures r.Ok? ==>
              OnlySegments(base, space.pages, segs[..k + 1])
                  && forall j :: 0 <= j <= k ==> SegLoaded(space.pages, file, segs[j])
    ensures !Clash(base, segs) ==>
              (r.Ok? <==> old(space.frames) >= Price(SegPages(segs[k]), SegTables(segs[k]), old(space.tables)))
    ensures r.Ok? ==>
              && space.tables == old(space.tables) + SegTables(segs[k])
              && space.frames == old(space.frames) - Price(SegPages(segs[k]), SegTables(segs[k]), old(space.tables))
  {
    hide SegLoaded, OnlySegments, Filled, Zeroed, SegmentsOk, MemAt, Free, Clash, Covers, TablesOf, Price, EndPage,
         PagesOk, PageDown, AddressSpace.Frames;
    var s := segs[k];
    ghost var was := space.pages;
    SegmentFits(file, segs, k);
    FreshPages(base, was, file, segs, k);
    var mapped := space.MapZeroed(PageDown(s.vaddr), EndPage(s) - FirstPage(s), s.access);
    if mapped.Failed? {
      return Err(ErrnoOf(mapped));
    }
    ghost var mid := space.pages;
    if s.offset + s.filesz > |file| {
      return Err(ENOEXEC);
    }
    SegmentMapped(was, mid, s);
    var filled := space.Fill(s.vaddr, file[s.offset..s.offset + s.filesz]);
    if filled.Failed? {
      return Err(ErrnoOf(filled));
    }
    SegStep(was, mid, space.pages, file, s);
    forall j | 0 <= j < k
      ensures SegLoaded(space.pages, file, segs[j])
    {
      EndsBefore(file, segs, j, k);
      SegKept(was, mid, space.pages, file, s, segs[j]);
    }
    MoreSegments(base, was, mid, space.pages, file, segs, k);
    return Ok(());
  }

  lemma SegmentFits(file: Bytes, segs: seq<Segment>, k: nat)
    requires SegmentsOk(file, segs) && k < |segs|
    ensures SegmentOk(file, segs[k]) && FirstPage(segs[k]) <= EndPage(segs[k])
    ensures PageDown(segs[k].vaddr) % PAGE == 0 && PageDown(segs[k].vaddr) / PAGE == FirstPage(segs[k])
    ensures PageDown(segs[k].vaddr) + (EndPage(segs[k]) - FirstPage(segs[k])) * PAGE <= LOWER_HALF_END
  {
  }

  lemma FreshPages(base: map<nat, Page>, pages: map<nat, Page>, file: Bytes, segs: seq<Segment>, k: nat)
    requires SegmentsOk(file, segs) && k < |segs| && OnlySegments(base, pages, segs[..k])
    ensures Free(pages, FirstPage(segs[k]), EndPage(segs[k]) - FirstPage(segs[k])) || Clash(base, segs)
  {
    forall p: nat | Covers(segs[k], p) && p in pages
      ensures p in base && Covers(segs[k], p)
    {
      if p !in base {
        var j :| 0 <= j < k && Covers(segs[..k][j], p);
        EndsBefore(file, segs, j, k);
      }
    }
  }

  lemma SegmentMapped(was: map<nat, Page>, mid: map<nat, Page>, s: Segment)
    requires Zeroed(was, mid, FirstPage(s), EndPage(s) - FirstPage(s), s.access) && s.filesz <= s.memsz
             && FirstPage(s) <= EndPage(s)
    ensures forall a: nat :: s.vaddr <= a < s.vaddr + s.filesz ==> MemAt(mid, a).Some?
  {
    forall a: nat | s.vaddr <= a < s.vaddr + s.filesz
      ensures MemAt(mid, a).Some?
    {
      assert Covers(s, a / PAGE);
    }
  }

  lemma MoreSegments(base: map<nat, Page>, was: map<nat, Page>, mid: map<nat, Page>, now: map<nat, Page>,
        file: Bytes, segs: seq<Segment>, k: nat)
    requires k < |segs| && OnlySegments(base, was, segs[..k]) && FirstPage(segs[k]) <= EndPage(segs[k])
             && SegmentOk(file, segs[k])
    requires Free(was, FirstPage(segs[k]), EndPage(segs[k]) - FirstPage(segs[k])) && PagesOk(mid) && PagesOk(now)
    requires Zeroed(was, mid, FirstPage(segs[k]), EndPage(segs[k]) - FirstPage(segs[k]), segs[k].access)
    requires Filled(mid, now, segs[k].vaddr, file[segs[k].offset..segs[k].offset + segs[k].filesz])
    ensures OnlySegments(base, now, segs[..k + 1])
  {
    var some, s := segs[..k + 1], segs[k];
    forall p | p in now && p !in base
      ensures exists j :: 0 <= j < |some| && Covers(some[j], p)
    {
      if p in was {
        var j :| 0 <= j < k && Covers(segs[..k][j], p);
        assert Covers(some[j], p);
      } else {
        assert Covers(some[k], p);
      }
    }
    forall p | p in base ensures p in now && now[p] == base[p] {
      assert p in was && p in mid && mid[p] == was[p];
      forall a: nat | s.vaddr <= a < s.vaddr + s.filesz ensures a / PAGE != p {
        assert Covers(s, a / PAGE);
      }
      FilledOther(mid, now, s.vaddr, file[s.offset..s.offset + s.filesz], p);
    }
  }

  // ----- the stack -----

  /** Strings for the new stack: `count` of them in `bytes`, each followed by a NUL. */
  datatype Strings = Strings(bytes: Bytes, count: nat)

  /** Where a program starts. */
  datatype Entry = Entry(ip: nat, sp: nat, args: nat, argsLen: nat, argc: nat, env: nat, envLen: nat, envc: nat)

  predicate InStack(a: nat) {
    STACK_BOTTOM <= a < STACK_TOP
  }

  /** What the stack should hold: the arguments at its top, the environment below them, then zeros. */
  function StackByte(args: Bytes, env: Bytes, a: nat): byte {
    var argsAt := STACK_TOP - |args|;
    var envAt := argsAt - |env|;
    if argsAt <= a < STACK_TOP then args[a - argsAt]
    else if envAt <= a < argsAt then env[a - envAt]
    else 0
  }

  ghost predicate StackLoaded(pages: map<nat, Page>, args: Bytes, env: Bytes) {
    && (forall p: nat :: STACK_BOTTOM / PAGE <= p < STACK_TOP / PAGE ==> p in pages && pages[p].perm == ReadWrite)
    && (forall a: nat :: InStack(a) ==> MemAt(pages, a) == Some(StackByte(args, env, a)))
  }

  /** The pages there were, as they were, and those of the segments and the stack: the guard page and the
      page above the stack are none of them. */
  ghost predicate OnlyProgram(base: map<nat, Page>, pages: map<nat, Page>, segs: seq<Segment>) {
    && (forall p :: p in base ==> p in pages && pages[p] == base[p])
    && (forall p :: p in pages ==> p in base || InStackPage(p) || exists j :: 0 <= j < |segs| && Covers(segs[j], p))
  }

  /** A loaded program: every segment, the stack, and nothing else new. */
  ghost predicate Loaded(base: map<nat, Page>, pages: map<nat, Page>, file: Bytes, segs: seq<Segment>, args: Bytes,
        env: Bytes) {
    && (forall j :: 0 <= j < |segs| ==> SegLoaded(pages, file, segs[j]))
    && StackLoaded(pages, args, env) && OnlyProgram(base, pages, segs)
  }

  lemma StackFresh(base: map<nat, Page>, pages: map<nat, Page>, file: Bytes, segs: seq<Segment>)
    requires SegmentsOk(file, segs) && OnlySegments(base, pages, segs)
    ensures Free(pages, STACK_BOTTOM / PAGE, STACK_PAGES) || Clash(base, segs)
  {
    forall p: nat, j | 0 <= j < |segs| && Covers(segs[j], p)
      ensures p < STACK_BOTTOM / PAGE
    {
      SegmentBelowStack(file, segs[j], p);
    }
    if p: nat :| STACK_BOTTOM / PAGE <= p < STACK_BOTTOM / PAGE + STACK_PAGES && p in pages {
      assert p in base && InStackPage(p);
    }
  }

  /** The stack keeps the pages there were. */
  lemma StackKeeps(base: map<nat, Page>, was: map<nat, Page>, stacked: map<nat, Page>, mid: map<nat, Page>,
        now: map<nat, Page>, segs: seq<Segment>, args: Bytes, env: Bytes)
    requires OnlySegments(base, was, segs) && PagesOk(stacked) && PagesOk(mid) && PagesOk(now)
    requires |args| <= ARGS_MAX && |env| <= ENV_MAX && Zeroed(was, stacked, STACK_BOTTOM / PAGE, STACK_PAGES, ReadWrite)
    requires Free(was, STACK_BOTTOM / PAGE, STACK_PAGES)
    requires Filled(stacked, mid, STACK_TOP - |args|, args) && Filled(mid, now, STACK_TOP - |args| - |env|, env)
    ensures OnlyProgram(base, now, segs)
  {
    hide MemAt, Covers;
    forall p | p in base ensures p in now && now[p] == base[p] {
      assert p in was && p in stacked && stacked[p] == was[p];
      assert p < STACK_BOTTOM / PAGE || p >= STACK_TOP / PAGE;
      FilledOther(stacked, mid, STACK_TOP - |args|, args, p);
      FilledOther(mid, now, STACK_TOP - |args| - |env|, env, p);
    }
  }

  lemma StackStep(base: map<nat, Page>, was: map<nat, Page>, stacked: map<nat, Page>, mid: map<nat, Page>,
        now: map<nat, Page>, file: Bytes, segs: seq<Segment>, args: Bytes, env: Bytes)
    requires SegmentsOk(file, segs) && OnlyProgram(base, now, segs)
             && (forall j :: 0 <= j < |segs| ==> SegLoaded(was, file, segs[j]))
    requires |args| <= ARGS_MAX && |env| <= ENV_MAX && Zeroed(was, stacked, STACK_BOTTOM / PAGE, STACK_PAGES, ReadWrite)
    requires Filled(stacked, mid, STACK_TOP - |args|, args) && Filled(mid, now, STACK_TOP - |args| - |env|, env)
    ensures Loaded(base, now, file, segs, args, env)
  {
    hide SegLoaded, OnlyProgram;
    forall a: nat | InStack(a)
      ensures MemAt(now, a) == Some(StackByte(args, env, a))
    {
      assert stacked[a / PAGE] == Page(ReadWrite, Zeros(PAGE));
      assert MemAt(stacked, a) == Some(0);
    }
    forall j | 0 <= j < |segs|
      ensures SegLoaded(now, file, segs[j])
    {
      SegUnderStack(was, stacked, mid, now, file, segs[j], args, env);
    }
  }

  lemma SegUnderStack(was: map<nat, Page>, stacked: map<nat, Page>, mid: map<nat, Page>, now: map<nat, Page>,
        file: Bytes, s: Segment, args: Bytes, env: Bytes)
    requires SegmentOk(file, s) && SegLoaded(was, file, s) && |args| <= ARGS_MAX && |env| <= ENV_MAX
    requires Zeroed(was, stacked, STACK_BOTTOM / PAGE, STACK_PAGES, ReadWrite)
    requires Filled(stacked, mid, STACK_TOP - |args|, args) && Filled(mid, now, STACK_TOP - |args| - |env|, env)
    ensures SegLoaded(now, file, s)
  {
    forall a: nat | Covers(s, a / PAGE)
      ensures MemAt(now, a) == Some(SegByte(file, s, a))
    {
      SegmentBelowStack(file, s, a / PAGE);
      assert MemAt(stacked, a) == MemAt(was, a);
    }
    forall p: nat | Covers(s, p)
      ensures p in now && now[p].perm == s.access
    {
      SegmentBelowStack(file, s, p);
    }
  }

  lemma StringsMapped(was: map<nat, Page>, stacked: map<nat, Page>, at: nat, bytes: Bytes)
    requires Zeroed(was, stacked, STACK_BOTTOM / PAGE, STACK_PAGES, ReadWrite) && STACK_BOTTOM <= at
             && at + |bytes| <= STACK_TOP
    ensures forall a: nat :: at <= a < at + |bytes| ==> MemAt(stacked, a).Some?
  {
    forall a: nat | at <= a < at + |bytes|
      ensures MemAt(stacked, a).Some?
    {
      assert stacked[a / PAGE] == Page(ReadWrite, Zeros(PAGE));
    }
  }

  lemma StillMapped(was: map<nat, Page>, now: map<nat, Page>, virt: nat, bytes: Bytes, at: nat, n: nat)
    requires Filled(was, now, virt, bytes) && forall a: nat :: at <= a < at + n ==> MemAt(was, a).Some?
    ensures forall a: nat :: at <= a < at + n ==> MemAt(now, a).Some?
  {
  }

  /** Maps an accepted program and its stack into a space. Only memory can run out, the strings be too long,
      or a page it needs be there already. */
  method Load(space: AddressSpace, file: Bytes, program: Program, args: Strings, env: Strings)
    returns (r: Result<Entry>)
    requires PagesOk(space.pages) && SegmentsOk(file, program.segments)
    modifies space
    ensures r.Err? ==>
              || r.error == ENOMEM || (r.error == E2BIG && (|args.bytes| > ARGS_MAX || |env.bytes| > ENV_MAX))
              || (r.error == ENOEXEC && Clash(old(space.pages), program.segments))
    // It succeeds exactly when there are frames for the pages, the stack and their tables, and the strings fit.
    ensures !Clash(old(space.pages), program.segments) ==>
              if old(space.frames) < ProgramPrice(program.segments, old(space.tables)) then r == Err(ENOMEM)
              else if |args.bytes| > ARGS_MAX || |env.bytes| > ENV_MAX then r == Err(E2BIG)
              else r.Ok?
    ensures r.Ok? ==> Loaded(old(space.pages), space.pages, file, program.segments, args.bytes, env.bytes)
    ensures r.Ok? ==>
              var e := r.value;
              && e.ip == program.entry && e.argc == args.count && e.envc == env.count
              && e.argsLen == |args.bytes| && e.args == STACK_TOP - e.argsLen
              && e.envLen == |env.bytes| && e.env == (if env.bytes == [] then 0 else e.args - e.envLen)
              && e.sp % 16 == 0 && STACK_BOTTOM < e.sp <= e.args - e.envLen < e.sp + 16
  {
    hide SegLoaded, OnlySegments, Filled, Zeroed, SegmentsOk, MemAt, Loaded, Free, Clash, OnlyProgram, Price,
         SegTables, AllTables, TablesOf, PagesOk, AddressSpace.Frames, StackLoaded;
    var segs := program.segments;
    ghost var base, tables := space.pages, space.tables;
    NothingMapped(base, segs);
    NothingPaid(segs, tables);
    for k := 0 to |segs|
      invariant PagesOk(space.pages) && OnlySegments(base, space.pages, segs[..k])
      invariant forall j :: 0 <= j < k ==> SegLoaded(space.pages, file, segs[j])
      invariant space.tables == tables + AllTables(segs[..k])
      invariant space.frames == old(space.frames) - Price(AllPages(segs[..k]), AllTables(segs[..k]), tables)
    {
      PaidMore(segs, k, tables);
      var one := LoadSegment(space, file, segs, k, base);
      if one.Err? {
        return Err(one.error);
      }
    }
    assert segs[..|segs|] == segs;
    ghost var was := space.pages;
    StackFresh(base, was, file, segs);
    PriceMore(AllPages(segs), STACK_PAGES, AllTables(segs), StackTables(), tables);
    var mapped := space.MapZeroed(STACK_BOTTOM, STACK_PAGES, ReadWrite);
    if mapped.Failed? {
      return Err(ErrnoOf(mapped));
    }
    if |args.bytes| > ARGS_MAX || |env.bytes| > ENV_MAX {
      return Err(E2BIG);
    }
    ghost var stacked := space.pages;
    var at := STACK_TOP - |args.bytes|;
    var envAt := at - |env.bytes|;
    StringsMapped(was, stacked, at, args.bytes);
    StringsMapped(was, stacked, envAt, env.bytes);
    var filled := space.Fill(at, args.bytes);
    if filled.Failed? {
      return Err(ErrnoOf(filled));
    }
    ghost var mid := space.pages;
    StillMapped(stacked, mid, at, args.bytes, envAt, |env.bytes|);
    filled := space.Fill(envAt, env.bytes);
    if filled.Failed? {
      return Err(ErrnoOf(filled));
    }
    StackKeeps(base, was, stacked, mid, space.pages, segs, args.bytes, env.bytes);
    StackStep(base, was, stacked, mid, space.pages, file, segs, args.bytes, env.bytes);
    return Ok(Entry.Entry(program.entry, envAt - envAt % 16, at, |args.bytes|, args.count,
        if env.bytes == [] then 0 else envAt, |env.bytes|, env.count));
  }

  function StackTables(): set<(nat, nat)> {
    TablesOf(STACK_BOTTOM / PAGE, STACK_PAGES)
  }

  /** The frames a program takes: its pages, its stack and the tables there are not yet. */
  ghost function ProgramPrice(segs: seq<Segment>, tables: set<(nat, nat)>): nat {
    Price(AllPages(segs) + STACK_PAGES, AllTables(segs) + StackTables(), tables)
  }

  lemma NothingPaid(segs: seq<Segment>, tables: set<(nat, nat)>)
    ensures AllTables(segs[..0]) == {} && Price(AllPages(segs[..0]), AllTables(segs[..0]), tables) == 0
  {
  }

  /** One segment more, and never more than the whole program. */
  lemma PaidMore(segs: seq<Segment>, k: nat, tables: set<(nat, nat)>)
    requires k < |segs|
    ensures var a := AllTables(segs[..k]);
            && AllTables(segs[..k + 1]) == a + SegTables(segs[k])
            && Price(AllPages(segs[..k + 1]), AllTables(segs[..k + 1]), tables) ==
               Price(AllPages(segs[..k]), a, tables) + Price(SegPages(segs[k]), SegTables(segs[k]), tables + a)
    ensures Price(AllPages(segs[..k + 1]), AllTables(segs[..k + 1]), tables) <= ProgramPrice(segs, tables)
  {
    hide SegTables;
    assert segs[..k + 1][..k] == segs[..k];
    PriceMore(AllPages(segs[..k]), SegPages(segs[k]), AllTables(segs[..k]), SegTables(segs[k]), tables);
    PaidWithin(segs, k + 1);
    Fewer(AllTables(segs[..k + 1]) - tables, AllTables(segs) + StackTables() - tables);
  }

  lemma {:induction false} PaidWithin(segs: seq<Segment>, k: nat)
    requires k <= |segs|
    ensures AllTables(segs[..k]) <= AllTables(segs) && AllPages(segs[..k]) <= AllPages(segs)
    decreases |segs|
  {
    hide SegTables;
    if k < |segs| {
      var n := |segs| - 1;
      PaidWithin(segs[..n], k);
      assert segs[..n][..k] == segs[..k];
    } else {
      assert segs[..k] == segs;
    }
  }

  lemma Fewer(a: set<(nat, nat)>, b: set<(nat, nat)>)
    requires a <= b
    ensures |a| <= |b|
  {
    SubsetSize(a, b);
  }

  lemma NothingMapped(base: map<nat, Page>, segs: seq<Segment>)
    ensures OnlySegments(base, base, segs[..0])
  {
  }

  /** Into an empty space an accepted file loads into pages of which none is shared, and none is both writable and
      executable; the guard page stays unmapped. */
  lemma LoadedApart(pages: map<nat, Page>, file: Bytes, machine: nat, abi: nat, args: Bytes, env: Bytes, p: nat)
    requires Acceptable(file, machine, abi) && p in pages
    requires Loaded(map[], pages, file, Sorted(Loads(Phdrs(file))), args, env)
    ensures !InGuardPage(p * PAGE)
    ensures var segs := Sorted(Loads(Phdrs(file)));
            if STACK_BOTTOM / PAGE <= p < STACK_TOP / PAGE
            then pages[p].perm == ReadWrite && forall j :: 0 <= j < |segs| ==> !Covers(segs[j], p)
            else PROGRAM_BASE / PAGE <= p < PROGRAM_END / PAGE &&
                 exists j :: 0 <= j < |segs| && Covers(segs[j], p) && pages[p].perm == segs[j].access
                     && forall i :: 0 <= i < |segs| && Covers(segs[i], p) ==> i == j
  {
    hide EntryOk, VersionIs, Notes, Sorted, Loads, Phdrs, MemAt, StackByte, SegByte;
    var segs := Sorted(Loads(Phdrs(file)));
    forall j | 0 <= j < |segs| && Covers(segs[j], p)
      ensures p < STACK_BOTTOM / PAGE - 1
    {
      SegmentBelowStack(file, segs[j], p);
    }
    if !(STACK_BOTTOM / PAGE <= p < STACK_TOP / PAGE) {
      var j :| 0 <= j < |segs| && Covers(segs[j], p);
      assert SegLoaded(pages, file, segs[j]);
      forall i | 0 <= i < |segs| && Covers(segs[i], p)
        ensures i == j
      {
        PagesApart(file, segs, i, j, p);
      }
      PagesApart(file, segs, j, j, p);
    }
  }
}

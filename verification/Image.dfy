/** Program files laid out field by field as chapters 4 and 5 of the System V gABI have it, and what the check
    (crates/elf/src/check.rs) and the loader (kernel/src/exec.rs) make of them. */
module Image {
  import opened Wrappers
  import opened Le
  import opened Elf
  import opened Exec

  // ----- headers -----

  /** The file header, in the order of its fields. */
  datatype Ehdr = Ehdr(ident: Bytes, kind: u16, machine: u16, version: u32, entry: u64, phoff: u64, shoff: u64,
                       flags: u32, ehsize: u16, phentsize: u16, phnum: u16, shentsize: u16, shnum: u16, shstrndx: u16)

  /** A program header, in the order of its fields. */
  datatype Ph = Ph(kind: u32, flags: u32, offset: u64, vaddr: u64, paddr: u64, filesz: u64, memsz: u64, align: u64)

  function EhdrBytes(h: Ehdr): (b: Bytes)
    requires |h.ident| == 16
    ensures |b| == 64
  {
    (h.ident + Le16(h.kind) + Le16(h.machine) + Le32(h.version)) + (Le64(h.entry) + Le64(h.phoff) + Le64(h.shoff)) +
    (Le32(h.flags) + Le16(h.ehsize) + Le16(h.phentsize) + Le16(h.phnum) +
     Le16(h.shentsize) + Le16(h.shnum) + Le16(h.shstrndx))
  }

  function PhBytes(h: Ph): (b: Bytes)
    ensures |b| == 56
  {
    (Le32(h.kind) + Le32(h.flags) + Le64(h.offset) + Le64(h.vaddr)) +
    (Le64(h.paddr) + Le64(h.filesz) + Le64(h.memsz) + Le64(h.align))
  }

  /** `file` starts with header `h` and has the program headers `phs` where it says. */
  ghost predicate Encodes(file: Bytes, h: Ehdr, phs: seq<Ph>) {
    && |h.ident| == 16 && 64 <= |file| && file[..64] == EhdrBytes(h)
    && h.phnum == |phs| && h.phoff + 56 * |phs| <= |file|
    && forall i :: 0 <= i < |phs| ==> file[h.phoff + 56 * i..h.phoff + 56 * i + 56] == PhBytes(phs[i])
  }

  lemma EhdrFields(h: Ehdr)
    requires |h.ident| == 16
    ensures var b := EhdrBytes(h);
            && b[..16] == h.ident && U16At(b, 16) == h.kind && U16At(b, 18) == h.machine
            && U64At(b, 24) == h.entry && U64At(b, 32) == h.phoff && U16At(b, 54) == h.phentsize
            && U16At(b, 56) == h.phnum
  {
    hide Le16, Le32, Le64, U16At, U64At;
    var b := EhdrBytes(h);
    var x := h.ident + Le16(h.kind) + Le16(h.machine) + Le32(h.version);
    var y := Le64(h.entry) + Le64(h.phoff) + Le64(h.shoff);
    var z := Le32(h.flags) + Le16(h.ehsize) + Le16(h.phentsize) + Le16(h.phnum) +
             Le16(h.shentsize) + Le16(h.shnum) + Le16(h.shstrndx);
    assert b[..24] == x && b[24..48] == y && b[48..] == z;
    assert x[16..18] == Le16(h.kind) && x[18..20] == Le16(h.machine) && x[..16] == h.ident;
    assert b[16..18] == x[16..18] && b[18..20] == x[18..20] && b[..16] == x[..16];
    assert y[..8] == Le64(h.entry) && y[8..16] == Le64(h.phoff);
    assert b[24..32] == y[..8] && b[32..40] == y[8..16];
    assert z[6..8] == Le16(h.phentsize) && z[8..10] == Le16(h.phnum);
    assert b[54..56] == z[6..8] && b[56..58] == z[8..10];
    StoredU16(b, 16, h.kind);
    StoredU16(b, 18, h.machine);
    StoredU64(b, 24, h.entry);
    StoredU64(b, 32, h.phoff);
    StoredU16(b, 54, h.phentsize);
    StoredU16(b, 56, h.phnum);
  }

  lemma PartOf(b: Bytes, at: nat, c: Bytes, i: nat, j: nat)
    requires at + |c| <= |b| && b[at..at + |c|] == c && i <= j <= |c|
    ensures b[at + i..at + j] == c[i..j]
  {
    forall k | 0 <= k < j - i
      ensures b[at + i..at + j][k] == c[i..j][k]
    {
      assert b[at..at + |c|][i + k] == b[at + i + k];
    }
  }

  /** A program header reads back as its fields. */
  lemma PhReadsBack(file: Bytes, at: nat, h: Ph)
    requires at + 56 <= |file| && file[at..at + 56] == PhBytes(h)
    ensures PhdrAt(file, at) == Phdr(h.kind, h.flags, h.offset, h.vaddr, h.filesz, h.memsz)
  {
    hide Le16, Le32, Le64, U32At, U64At;
    var b := PhBytes(h);
    var x := Le32(h.kind) + Le32(h.flags) + Le64(h.offset) + Le64(h.vaddr);
    var y := Le64(h.paddr) + Le64(h.filesz) + Le64(h.memsz) + Le64(h.align);
    assert b[..24] == x && b[24..] == y;
    assert x[..4] == Le32(h.kind) && x[4..8] == Le32(h.flags);
    assert x[8..16] == Le64(h.offset) && x[16..24] == Le64(h.vaddr);
    assert y[8..16] == Le64(h.filesz) && y[16..24] == Le64(h.memsz);
    assert b[0..4] == x[..4] && b[4..8] == x[4..8] && b[8..16] == x[8..16] && b[16..24] == x[16..24];
    assert b[32..40] == y[8..16] && b[40..48] == y[16..24];
    PartOf(file, at, b, 0, 4);
    PartOf(file, at, b, 4, 8);
    PartOf(file, at, b, 8, 16);
    PartOf(file, at, b, 16, 24);
    PartOf(file, at, b, 32, 40);
    PartOf(file, at, b, 40, 48);
    StoredU32(file, at, h.kind);
    StoredU32(file, at + 4, h.flags);
    StoredU64(file, at + 8, h.offset);
    StoredU64(file, at + 16, h.vaddr);
    StoredU64(file, at + 32, h.filesz);
    StoredU64(file, at + 40, h.memsz);
  }

  lemma SameFields(a: Bytes, b: Bytes)
    requires 64 <= |a| && b == a[..64]
    ensures U16At(a, 16) == U16At(b, 16) && U16At(a, 18) == U16At(b, 18) && U16At(a, 54) == U16At(b, 54)
    ensures U16At(a, 56) == U16At(b, 56) && U64At(a, 24) == U64At(b, 24) && U64At(a, 32) == U64At(b, 32)
    ensures a[..16] == b[..16]
  {
    assert forall i :: 0 <= i < 64 ==> a[i] == b[i];
  }

  /** The check reads the headers as they were written: what it looks at in the file header, the entry point and
      the program headers. */
  lemma ReadsBack(file: Bytes, h: Ehdr, phs: seq<Ph>)
    requires Encodes(file, h, phs)
    ensures U64At(file, 24) == h.entry && U64At(file, 32) == h.phoff && U16At(file, 56) == |phs|
    ensures forall machine ::
              HeaderOk(file, machine) <==>
                && |file| <= MAX_SIZE && h.ident[..6] == MAGIC + [2, 1] && h.kind == ET_EXEC && h.machine == machine
                && h.phentsize == 56
    ensures InFile(file, U64At(file, 32), U16At(file, 56) * PHDR_LEN) && |Phdrs(file)| == |phs|
    ensures forall i :: 0 <= i < |phs| ==>
              Phdrs(file)[i] ==
              Phdr(phs[i].kind, phs[i].flags, phs[i].offset, phs[i].vaddr, phs[i].filesz, phs[i].memsz)
  {
    hide U16At, U64At, PhBytes, EhdrBytes, PhdrAt;
    EhdrFields(h);
    SameFields(file, EhdrBytes(h));
    assert h.ident == file[..16];
    assert h.ident[..6] == h.ident[..4] + [h.ident[4], h.ident[5]] && h.ident[..4] == file[..4];
    forall i | 0 <= i < |phs|
      ensures Phdrs(file)[i] ==
              Phdr(phs[i].kind, phs[i].flags, phs[i].offset, phs[i].vaddr, phs[i].filesz, phs[i].memsz)
    {
      assert h.phoff + 56 * i + 56 <= |file|;
      PhReadsBack(file, h.phoff + 56 * i, phs[i]);
    }
  }

  // ----- segments -----

  ghost predicate IsLoad(hs: seq<Phdr>, i: int, s: Segment) {
    0 <= i < |hs| && hs[i].kind == PT_LOAD && s == hs[i].Load()
  }

  ghost function LoadIndices(hs: seq<Phdr>): set<int> {
    set i | 0 <= i < |hs| && hs[i].kind == PT_LOAD
  }

  /** The segments are the loadable headers' and no others, as many as there are. */
  lemma {:induction false} LoadsAre(hs: seq<Phdr>, s: Segment)
    ensures s in Loads(hs) <==> exists i :: IsLoad(hs, i, s)
    ensures |Loads(hs)| == |LoadIndices(hs)|
  {
    if hs != [] {
      var n := |hs| - 1;
      LoadsAre(hs[..n], s);
      assert LoadIndices(hs[..n]) == LoadIndices(hs) - {n};
      if i :| IsLoad(hs[..n], i, s) { assert IsLoad(hs, i, s); }
      if i :| IsLoad(hs, i, s) && i < n { assert IsLoad(hs[..n], i, s); }
      if s !in Loads(hs[..n]) && s in Loads(hs) { assert IsLoad(hs, n, s); }
    }
  }

  /** The note segments are the note headers' bytes, in their order. */
  lemma {:induction false} NotesAre(file: Bytes, hs: seq<Phdr>, i: nat)
    requires i < |hs| && hs[i].kind == PT_NOTE && InFile(file, hs[i].offset, hs[i].filesz)
    ensures var k := |Notes(file, hs[..i])|;
            k < |Notes(file, hs)| && Notes(file, hs)[k] == file[hs[i].offset..hs[i].offset + hs[i].filesz]
  {
    var n := |hs| - 1;
    if i < n {
      NotesAre(file, hs[..n], i);
      assert hs[..n][..i] == hs[..i];
    } else {
      assert hs[..i] == hs[..n];
    }
  }

  /** Where program header `i` is. */
  function PhdrStart(file: Bytes, i: nat): nat
    requires 64 <= |file|
  {
    U64At(file, 32) + 56 * i
  }

  /** Address `a` is in the memory that program header `i`, a loadable one, asks for. */
  ghost predicate AsksFor(file: Bytes, i: nat, a: nat) {
    && 64 <= |file| && i < U16At(file, 56) && PhdrStart(file, i) + 56 <= |file|
    && U32At(file, PhdrStart(file, i)) == PT_LOAD
    && var vaddr := U64At(file, PhdrStart(file, i) + 16);
    vaddr <= a < vaddr + U64At(file, PhdrStart(file, i) + 40)
  }

  lemma LowByte(b: Bytes, at: nat)
    requires at + 4 <= |b|
    ensures U32At(b, at) % 2 == b[at] % 2 && U32At(b, at) / 2 % 2 == b[at] / 2 % 2
  {
    FoursAside(b[at], 64 * b[at + 1] as int + 0x4000 * b[at + 2] as int + 0x40_0000 * b[at + 3] as int);
  }

  lemma FoursAside(low: nat, y: nat)
    ensures (low + 4 * y) % 2 == low % 2 && (low + 4 * y) / 2 % 2 == low / 2 % 2
  {
    assert (low + 4 * y) / 2 == low / 2 + 2 * y;
  }

  /** For every accepted file, an address a program header asks for is mapped; it is executable exactly when bit 0
      of the header's flags is set and writable exactly when bit 1 is, and it holds the file's byte, or zero past
      the header's part of the file. */
  lemma LoadedAsAsked(base: map<nat, Page>, pages: map<nat, Page>, file: Bytes, machine: nat, abi: nat, args: Bytes,
        env: Bytes, i: nat, a: nat)
    requires Acceptable(file, machine, abi) && AsksFor(file, i, a)
    requires Loaded(base, pages, file, Sorted(Loads(Phdrs(file))), args, env)
    ensures var at := PhdrStart(file, i);
            var offset, vaddr, filesz := U64At(file, at + 8), U64At(file, at + 16), U64At(file, at + 32);
            && a / PAGE in pages
            && (pages[a / PAGE].perm == ReadExec <==> file[at + 4] % 2 == 1)
            && (pages[a / PAGE].perm == ReadWrite <==> file[at + 4] / 2 % 2 == 1)
            && (a < vaddr + filesz ==> offset + (a - vaddr) < |file|)
            && MemAt(pages, a) == Some(if a < vaddr + filesz then file[offset + (a - vaddr)] else 0)
  {
    hide U16At, U32At, U64At, Sorted, Loads, VersionIs, EntryOk, Notes, StackLoaded, OnlyProgram, MemAt;
    var hs := Phdrs(file);
    var h, at := hs[i], PhdrStart(file, i);
    assert h == PhdrAt(file, at);
    var s, segs := h.Load(), Sorted(Loads(hs));
    LoadsAre(hs, s);
    assert IsLoad(hs, i, s);
    SortedOk(Loads(hs));
    assert s in multiset(segs);
    var j :| 0 <= j < |segs| && segs[j] == s;
    assert SegLoaded(pages, file, segs[j]) && SegmentOk(file, segs[j]);
    InPage(s, a);
    LowByte(file, at + 4);
    assert PhdrOk(file, h);
  }

  lemma InPage(s: Segment, a: nat)
    requires s.vaddr <= a < s.End()
    ensures Covers(s, a / PAGE)
  {
  }

  // ----- notes -----

  datatype Note = Note(name: Bytes, kind: u32, desc: Bytes)

  ghost predicate NoteFits(n: Note) {
    |n.name| <= U32_MAX && |n.desc| <= U32_MAX
  }

  function ToFour(b: Bytes): (r: Bytes)
    ensures |r| % 4 == 0 && |b| <= |r| < |b| + 4
  {
    b + Zeros((4 - |b| % 4) % 4)
  }

  function NoteBytes(n: Note): Bytes
    requires NoteFits(n)
  {
    (Le32(|n.name|) + Le32(|n.desc|) + Le32(n.kind)) + ToFour(n.name) + ToFour(n.desc)
  }

  function NotesBytes(notes: seq<Note>): Bytes
    requires forall i :: 0 <= i < |notes| ==> NoteFits(notes[i])
  {
    if notes == [] then [] else NoteBytes(notes[0]) + NotesBytes(notes[1..])
  }

  predicate IsRelay(n: Note) {
    n.name == NOTE_NAME || n.name == NOTE_NAME + [0]
  }

  /** What the notes say: the version in the first note of the system's own, or what is wrong with it. */
  function Verdict(notes: seq<Note>): Checked<Option<nat>> {
    if notes == [] then Accepted(None)
    else if !IsRelay(notes[0]) then Verdict(notes[1..])
    else if notes[0].kind != NOTE_TYPE then Refused(NoteType)
    else if |notes[0].desc| != 4 then Refused(NoteSize)
    else Accepted(Some(U32At(notes[0].desc, 0)))
  }

  /** A note in the middle of bytes reads back. */
  lemma NoteReadsBack(b: Bytes, at: nat, n: Note)
    requires NoteFits(n) && at + |NoteBytes(n)| <= |b| && b[at..at + |NoteBytes(n)|] == NoteBytes(n)
    ensures U32At(b, at) == |n.name| && U32At(b, at + 4) == |n.desc| && U32At(b, at + 8) == n.kind
    ensures at + 12 + Padded(|n.name|) + Padded(|n.desc|) == at + |NoteBytes(n)|
    ensures b[at + 12..at + 12 + |n.name|] == n.name
    ensures |n.desc| == 4 ==> U32At(b, at + 12 + Padded(|n.name|)) == U32At(n.desc, 0)
  {
    hide Le32, U32At, Padded, NoteBytes;
    var c, k, d := NoteBytes(n), |n.name|, 12 + Padded(|n.name|);
    NoteParts(n);
    PartOf(b, at, c, 0, 4);
    PartOf(b, at, c, 4, 8);
    PartOf(b, at, c, 8, 12);
    PartOf(b, at, c, 12, 12 + k);
    PartOf(b, at, c, d, d + |n.desc|);
    StoredU32(b, at, |n.name|);
    StoredU32(b, at + 4, |n.desc|);
    StoredU32(b, at + 8, n.kind);
    if |n.desc| == 4 { SameU32(b, at + d, n.desc); }
  }

  lemma NoteParts(n: Note)
    requires NoteFits(n)
    ensures var c, d := NoteBytes(n), 12 + Padded(|n.name|);
            && |c| == d + Padded(|n.desc|) && c[0..4] == Le32(|n.name|) && c[4..8] == Le32(|n.desc|)
            && c[8..12] == Le32(n.kind) && c[12..12 + |n.name|] == n.name && c[d..d + |n.desc|] == n.desc
  {
    hide Le32, Padded, ToFour;
    PaddedIs(n.name);
    PaddedIs(n.desc);
    var c, d := NoteBytes(n), 12 + Padded(|n.name|);
    var head, name, desc := Le32(|n.name|) + Le32(|n.desc|) + Le32(n.kind), ToFour(n.name), ToFour(n.desc);
    assert c[..12] == head && c[12..d] == name && c[d..] == desc;
    assert head[..4] == Le32(|n.name|) && head[4..8] == Le32(|n.desc|) && head[8..12] == Le32(n.kind);
    assert c[0..4] == head[..4] && c[4..8] == head[4..8] && c[8..12] == head[8..12];
    assert c[12..12 + |n.name|] == name[..|n.name|];
    assert c[d..d + |n.desc|] == desc[..|n.desc|];
  }

  lemma SameU32(b: Bytes, at: nat, c: Bytes)
    requires at + 4 <= |b| && |c| == 4 && b[at..at + 4] == c
    ensures U32At(b, at) == U32At(c, 0)
  {
    assert b[at] == c[0] && b[at + 1] == c[1] && b[at + 2] == c[2] && b[at + 3] == c[3];
  }

  lemma PaddedIs(b: Bytes)
    ensures |ToFour(b)| == Padded(|b|) && ToFour(b)[..|b|] == b
  {
  }

  lemma RelayName(name: Bytes)
    ensures Unterminated(name) == NOTE_NAME <==> name == NOTE_NAME || name == NOTE_NAME + [0]
  {
    if name != [] && name[|name| - 1] == 0 { assert name == name[..|name| - 1] + [0]; }
  }

  lemma {:induction false} NotesFrom(b: Bytes, at: nat, notes: seq<Note>)
    requires forall i :: 0 <= i < |notes| ==> NoteFits(notes[i])
    requires at <= |b| && b[at..] == NotesBytes(notes)
    ensures NoteFrom(b, at) == Verdict(notes)
    decreases |notes|
  {
    hide NoteBytes, U32At, Padded, Unterminated;
    if notes != [] {
      var c, rest := NoteBytes(notes[0]), NotesBytes(notes[1..]);
      assert b[at..at + |c|] == b[at..][..|c|] == c;
      assert b[at + |c|..] == b[at..][|c|..] == rest;
      NoteReadsBack(b, at, notes[0]);
      RelayName(notes[0].name);
      if !IsRelay(notes[0]) { NotesFrom(b, at + |c|, notes[1..]); }
    }
  }

  /** Notes laid out one after the other say what the first note of the system's own says. */
  lemma NotesReadBack(notes: seq<Note>)
    requires forall i :: 0 <= i < |notes| ==> NoteFits(notes[i])
    ensures Says(NotesBytes(notes), Verdict(notes))
  {
    hide NotesBytes, Verdict, NoteFrom;
    var b := NotesBytes(notes);
    assert b[0..] == b;
    NotesFrom(b, 0, notes);
    SaysOnce(b, Verdict(notes));
  }
}

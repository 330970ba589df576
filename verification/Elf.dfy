/** The check of a program file before it is loaded (crates/elf/src/check.rs): program headers and
    program loading as in chapter 5 of the System V gABI. */
module Elf {
  import opened Wrappers
  import opened Le

  const MAX_SIZE: nat := 0x100_0000
  const PROGRAM_BASE: nat := 0x40_0000
  const PROGRAM_END: nat := 0x1000_0000_0000
  const HEADER_LEN: nat := 64
  const PHDR_LEN: nat := 56
  const ET_EXEC: nat := 2
  const PT_LOAD: nat := 1
  const PT_NOTE: nat := 4
  const PT_GNU_STACK: nat := 0x6474_e551
  const PAGE: nat := 4096
  /** The owner and the type of the note that holds the ABI version. */
  const NOTE_NAME: Bytes := [82, 101, 108, 97, 121]
  const NOTE_TYPE: nat := 1
  const MAGIC: Bytes := [0x7F, 0x45, 0x4C, 0x46]

  datatype Access = ReadExec | Read | ReadWrite

  /** `memsz` bytes at `vaddr`, the first `filesz` of them from the file at `offset`. */
  datatype Segment = Segment(vaddr: nat, memsz: nat, offset: nat, filesz: nat, access: Access) {
    function End(): nat {
      vaddr + memsz
    }
  }

  datatype Program = Program(entry: nat, segments: seq<Segment>)

  datatype ElfError =
    | TooBig | NotElf | Not64Bit | NotLittleEndian | NotExec | Machine | ProgramHeaders
    | SegmentKind | NoLoad | Outside | WritableAndExecutable | MoreFileThanMemory | NotCongruent
    | Overlap | PastTheFile | Entry | NoteOutside | NotePastItsSegment | NoteType | NoteSize | NoNote | Abi

  datatype Checked<T> = Accepted(value: T) | Refused(error: ElfError)

  predicate InFile(file: Bytes, offset: nat, len: nat) {
    offset + len <= |file|
  }

  function PageDown(a: nat): nat {
    a - a % PAGE
  }

  // ----- headers -----

  datatype Phdr = Phdr(kind: nat, flags: nat, offset: nat, vaddr: nat, filesz: nat, memsz: nat) {
    predicate Executable() {
      flags % 2 == 1
    }

    predicate Writable() {
      flags / 2 % 2 == 1
    }

    function Load(): Segment {
      Segment(vaddr, memsz, offset, filesz, if Executable() then ReadExec else if Writable() then ReadWrite else Read)
    }
  }

  function PhdrAt(b: Bytes, at: nat): Phdr
    requires at + PHDR_LEN <= |b|
  {
    Phdr(U32At(b, at), U32At(b, at + 4), U64At(b, at + 8), U64At(b, at + 16), U64At(b, at + 32), U64At(b, at + 40))
  }

  /** What the file header must say. */
  predicate HeaderOk(file: Bytes, machine: nat) {
    && HEADER_LEN <= |file| <= MAX_SIZE && file[..4] == MAGIC && file[4] == 2 && file[5] == 1
    && U16At(file, 16) == ET_EXEC && U16At(file, 18) == machine && U16At(file, 54) == PHDR_LEN
    && InFile(file, U64At(file, 32), U16At(file, 56) * PHDR_LEN)
  }

  /** The program headers. */
  function Phdrs(file: Bytes): (hs: seq<Phdr>)
    requires HEADER_LEN <= |file| && InFile(file, U64At(file, 32), U16At(file, 56) * PHDR_LEN)
  {
    seq(U16At(file, 56), i requires 0 <= i < U16At(file, 56) => PhdrAt(file, U64At(file, 32) + i * PHDR_LEN))
  }

  /** A header the kernel knows: loadable and not both writable and executable, a note in the file, or
      the stack's. */
  predicate PhdrOk(file: Bytes, h: Phdr) {
    if h.kind == PT_LOAD then !(h.Executable() && h.Writable())
    else if h.kind == PT_NOTE then InFile(file, h.offset, h.filesz)
    else h.kind == PT_GNU_STACK
  }

  function Loads(hs: seq<Phdr>): seq<Segment> {
    if hs == [] then []
    else Loads(hs[..|hs| - 1]) + (if hs[|hs| - 1].kind == PT_LOAD then [hs[|hs| - 1].Load()] else [])
  }

  function Notes(file: Bytes, hs: seq<Phdr>): seq<Bytes> {
    if hs == [] then []
    else
      var h := hs[|hs| - 1];
      var rest := Notes(file, hs[..|hs| - 1]);
      if h.kind == PT_NOTE && InFile(file, h.offset, h.filesz) then rest + [file[h.offset..h.offset + h.filesz]]
      else rest
  }

  // ----- segments in address order -----

  function Inserted(s: Segment, sorted: seq<Segment>): seq<Segment> {
    if sorted == [] then [s]
    else if s.vaddr < sorted[|sorted| - 1].vaddr then Inserted(s, sorted[..|sorted| - 1]) + [sorted[|sorted| - 1]]
    else sorted + [s]
  }

  /** `sort_by_key`: by address, equals in their order. */
  function Sorted(segs: seq<Segment>): seq<Segment> {
    if segs == [] then [] else Inserted(segs[|segs| - 1], Sorted(segs[..|segs| - 1]))
  }

  ghost predicate Ascending(segs: seq<Segment>) {
    forall i, j :: 0 <= i < j < |segs| ==> segs[i].vaddr <= segs[j].vaddr
  }

  lemma AscendingMore(segs: seq<Segment>, last: Segment)
    requires Ascending(segs) && forall i :: 0 <= i < |segs| ==> segs[i].vaddr <= last.vaddr
    ensures Ascending(segs + [last])
  {
  }

  lemma {:induction false} InsertedSame(s: Segment, sorted: seq<Segment>)
    ensures multiset(Inserted(s, sorted)) == multiset(sorted) + multiset{s}
  {
    if sorted != [] {
      var n := |sorted| - 1;
      InsertedSame(s, sorted[..n]);
      assert sorted == sorted[..n] + [sorted[n]];
    }
  }

  lemma {:induction false} InsertedOk(s: Segment, sorted: seq<Segment>)
    requires Ascending(sorted)
    ensures Ascending(Inserted(s, sorted))
  {
    if sorted != [] {
      var n := |sorted| - 1;
      if s.vaddr < sorted[n].vaddr {
        InsertedOk(s, sorted[..n]);
        InsertedSame(s, sorted[..n]);
        var r := Inserted(s, sorted[..n]);
        forall i | 0 <= i < |r|
          ensures r[i].vaddr <= sorted[n].vaddr
        {
          assert r[i] in multiset(r);
          if r[i] != s { assert r[i] in sorted[..n]; }
        }
        AscendingMore(r, sorted[n]);
      } else {
        AscendingMore(sorted, s);
      }
    }
  }

  /** Sorting keeps the segments and puts them in address order. */
  lemma {:induction false} SortedOk(segs: seq<Segment>)
    ensures Ascending(Sorted(segs)) && multiset(Sorted(segs)) == multiset(segs)
  {
    hide Inserted;
    if segs != [] {
      var n := |segs| - 1;
      SortedOk(segs[..n]);
      InsertedOk(segs[n], Sorted(segs[..n]));
      InsertedSame(segs[n], Sorted(segs[..n]));
      assert segs == segs[..n] + [segs[n]];
    }
  }

  // ----- segments one by one -----

  /** Inside the program area, no more file than memory, congruent to its offset, inside the file. */
  predicate SegmentOk(file: Bytes, s: Segment) {
    && PROGRAM_BASE <= s.vaddr && s.End() <= PROGRAM_END && s.filesz <= s.memsz
    && s.offset % PAGE == s.vaddr % PAGE && InFile(file, s.offset, s.filesz)
  }

  /** Each segment is good, and starts on a page after the end of the one before it. */
  ghost predicate SegmentsOk(file: Bytes, segs: seq<Segment>) {
    && (forall i :: 0 <= i < |segs| ==> SegmentOk(file, segs[i]))
    && (forall i, j :: 0 <= i < j < |segs| && j == i + 1 ==> segs[i].End() <= PageDown(segs[j].vaddr))
  }

  ghost predicate EntryOk(segs: seq<Segment>, entry: nat) {
    exists i :: 0 <= i < |segs| && segs[i].access == ReadExec && segs[i].vaddr <= entry < segs[i].End()
  }

  // ----- the ABI note -----

  function Padded(n: nat): (p: nat)
    ensures n <= p < n + 4 && p % 4 == 0
  {
    (n + 3) / 4 * 4
  }

  function Unterminated(name: Bytes): Bytes {
    if name != [] && name[|name| - 1] == 0 then name[..|name| - 1] else name
  }

  /** The ABI version in the first `Relay` note from `at` on, if there is one. */
  function NoteFrom(notes: Bytes, at: nat): Checked<Option<nat>>
    decreases |notes| - at
  {
    if at + 12 > |notes| then Accepted(None)
    else
      var namesz, descsz := U32At(notes, at), U32At(notes, at + 4);
      var desc := at + 12 + Padded(namesz);
      var next := desc + Padded(descsz);
      if next > |notes| then Refused(NotePastItsSegment)
      else if Unterminated(notes[at + 12..at + 12 + namesz]) == NOTE_NAME then
        if U32At(notes, at + 8) != NOTE_TYPE then Refused(NoteType)
        else if descsz != 4 then Refused(NoteSize)
        else Accepted(Some(U32At(notes, desc)))
      else NoteFrom(notes, next)
  }

  // A walk over the notes of a segment, said without walking.

  /** Where the note after the one at `at` starts. */
  function Next(notes: Bytes, at: nat): nat
    requires at + 12 <= |notes|
  {
    at + 12 + Padded(U32At(notes, at)) + Padded(U32At(notes, at + 4))
  }

  /** A whole note lies at `at`, inside its segment. */
  predicate Whole(notes: Bytes, at: nat) {
    at + 12 <= |notes| && Next(notes, at) <= |notes|
  }

  predicate NamedRelay(notes: Bytes, at: nat)
    requires Whole(notes, at)
  {
    Unterminated(notes[at + 12..at + 12 + U32At(notes, at)]) == NOTE_NAME
  }

  /** A whole note that is not a `Relay` note lies from `at` to `next`. */
  predicate Passes(notes: Bytes, at: nat, next: nat) {
    Whole(notes, at) && !NamedRelay(notes, at) && next == Next(notes, at)
  }

  /** Such notes lie one after the other from `start` up to the last offset. */
  ghost predicate Walk(notes: Bytes, start: nat, offsets: seq<nat>) {
    && offsets != [] && offsets[0] == start
    && forall i :: 0 < i < |offsets| ==> Passes(notes, offsets[i - 1], offsets[i])
  }

  /** What lies at `at` decides the answer: no room for a note, a good `Relay` note with its version, or
      what is wrong with the note. */
  ghost predicate Decides(notes: Bytes, at: nat, r: Checked<Option<nat>>) {
    match r
    case Accepted(None) => at + 12 > |notes|
    case Accepted(Some(v)) =>
      && Whole(notes, at) && NamedRelay(notes, at) && U32At(notes, at + 8) == NOTE_TYPE && U32At(notes, at + 4) == 4
      && v == U32At(notes, at + 12 + Padded(U32At(notes, at)))
    case Refused(NotePastItsSegment) => at + 12 <= |notes| && !Whole(notes, at)
    case Refused(NoteType) => Whole(notes, at) && NamedRelay(notes, at) && U32At(notes, at + 8) != NOTE_TYPE
    case Refused(NoteSize) =>
      Whole(notes, at) && NamedRelay(notes, at) && U32At(notes, at + 8) == NOTE_TYPE && U32At(notes, at + 4) != 4
    case _ => false
  }

  /** The notes of a segment say `r`. */
  ghost predicate Says(notes: Bytes, r: Checked<Option<nat>>) {
    exists offsets :: Walk(notes, 0, offsets) && Decides(notes, offsets[|offsets| - 1], r)
  }

  /** A walk and what it ends at is what `NoteFrom` finds. */
  lemma {:induction false} WalkFinds(notes: Bytes, start: nat, offsets: seq<nat>, r: Checked<Option<nat>>)
    requires Walk(notes, start, offsets) && Decides(notes, offsets[|offsets| - 1], r)
    ensures NoteFrom(notes, start) == r
    decreases |offsets|
  {
    hide U32At, Padded, Unterminated;
    if |offsets| > 1 {
      assert Passes(notes, offsets[0], offsets[1]);
      var rest := offsets[1..];
      forall i | 0 < i < |rest| ensures Passes(notes, rest[i - 1], rest[i]) {
        assert Passes(notes, offsets[i], offsets[i + 1]);
      }
      WalkFinds(notes, offsets[1], rest, r);
    }
  }

  lemma {:induction false} FindsWalk(notes: Bytes, start: nat) returns (offsets: seq<nat>)
    ensures Walk(notes, start, offsets) && Decides(notes, offsets[|offsets| - 1], NoteFrom(notes, start))
    decreases |notes| - start
  {
    hide U32At, Padded, Unterminated;
    if Whole(notes, start) && !NamedRelay(notes, start) {
      var rest := FindsWalk(notes, Next(notes, start));
      offsets := [start] + rest;
      forall i | 0 < i < |offsets| ensures Passes(notes, offsets[i - 1], offsets[i]) {
        if i > 1 { assert Passes(notes, rest[i - 2], rest[i - 1]); }
      }
    } else {
      offsets := [start];
    }
  }

  /** The notes of a segment say exactly one thing. */
  lemma SaysOnce(notes: Bytes, r: Checked<Option<nat>>)
    ensures Says(notes, r) <==> NoteFrom(notes, 0) == r
  {
    hide NoteFrom, Passes, Decides;
    if Says(notes, r) {
      var offsets :| Walk(notes, 0, offsets) && Decides(notes, offsets[|offsets| - 1], r);
      WalkFinds(notes, 0, offsets, r);
    }
    var offsets := FindsWalk(notes, 0);
  }

  method RelayNote(notes: Bytes) returns (r: Checked<Option<nat>>)
    ensures Says(notes, r) && forall other :: Says(notes, other) ==> other == r
  {
    r := FirstRelay(notes);
    forall other | Says(notes, other) ensures other == r {
      SaysOnce(notes, other);
    }
    SaysOnce(notes, r);
  }

  /** The loop of `relay_note`. */
  method FirstRelay(notes: Bytes) returns (r: Checked<Option<nat>>)
    ensures r == NoteFrom(notes, 0)
  {
    hide U32At, Padded, Unterminated;
    var at := 0;
    while at + 12 <= |notes|
      invariant NoteFrom(notes, at) == NoteFrom(notes, 0)
      decreases |notes| - at
    {
      var namesz, descsz, kind := U32At(notes, at), U32At(notes, at + 4), U32At(notes, at + 8);
      var desc := at + 12 + Padded(namesz);
      var next := desc + Padded(descsz);
      if next > |notes| {
        return Refused(NotePastItsSegment);
      }
      if Unterminated(notes[at + 12..at + 12 + namesz]) == NOTE_NAME {
        if kind != NOTE_TYPE {
          return Refused(NoteType);
        }
        if descsz != 4 {
          return Refused(NoteSize);
        }
        return Accepted(Some(U32At(notes, desc)));
      }
      at := next;
    }
    return Accepted(None);
  }

  /** What several segments of notes say, up to the first that is wrong: the version of the last one
      that has one. */
  ghost predicate VersionIs(notes: seq<Bytes>, r: Checked<Option<nat>>) {
    match r
    case Accepted(None) => forall j :: 0 <= j < |notes| ==> Says(notes[j], Accepted(None))
    case Accepted(Some(v)) =>
      && Sound(notes, |notes|)
      && exists k ::
           && 0 <= k < |notes| && Says(notes[k], r)
           && forall j :: k < j < |notes| ==> Says(notes[j], Accepted(None))
    case Refused(e) => exists k :: 0 <= k < |notes| && Says(notes[k], r) && Sound(notes, k)
  }

  /** Nothing is wrong with the first `n` segments of notes. */
  ghost predicate Sound(notes: seq<Bytes>, n: nat)
    requires n <= |notes|
  {
    forall j :: 0 <= j < n ==> exists v :: Says(notes[j], Accepted(v))
  }

  // ----- check -----

  /** What a program file must be. */
  ghost predicate Acceptable(file: Bytes, machine: nat, abi: nat) {
    && HeaderOk(file, machine)
    && var hs := Phdrs(file);
    var segs := Sorted(Loads(hs));
    && (forall i :: 0 <= i < |hs| ==> PhdrOk(file, hs[i]))
    && segs != [] && SegmentsOk(file, segs) && EntryOk(segs, U64At(file, 24))
    && VersionIs(Notes(file, hs), Accepted(Some(abi)))
  }

  // What is wrong with a refused file.

  predicate HeaderFault(file: Bytes, machine: nat, e: ElfError) {
    match e
    case TooBig => |file| > MAX_SIZE
    case NotElf => |file| <= MAX_SIZE && (|file| < HEADER_LEN || file[..4] != MAGIC)
    case Not64Bit => IsElf(file) && file[4] != 2
    case NotLittleEndian => IsElf(file) && file[4] == 2 && file[5] != 1
    case NotExec => IsElf(file) && file[4] == 2 && file[5] == 1 && U16At(file, 16) != ET_EXEC
    case Machine => IsElf(file) && U16At(file, 16) == ET_EXEC && U16At(file, 18) != machine
    case ProgramHeaders =>
      && IsElf(file) && U16At(file, 18) == machine
      && (U16At(file, 54) != PHDR_LEN || !InFile(file, U64At(file, 32), U16At(file, 56) * PHDR_LEN))
    case _ => false
  }

  predicate IsElf(file: Bytes) {
    HEADER_LEN <= |file| <= MAX_SIZE && file[..4] == MAGIC
  }

  predicate PhdrFault(file: Bytes, h: Phdr, e: ElfError) {
    match e
    case WritableAndExecutable => h.kind == PT_LOAD && h.Executable() && h.Writable()
    case NoteOutside => h.kind == PT_NOTE && !InFile(file, h.offset, h.filesz)
    case SegmentKind => h.kind != PT_LOAD && h.kind != PT_NOTE && h.kind != PT_GNU_STACK
    case _ => false
  }

  predicate SegmentFault(file: Bytes, segs: seq<Segment>, i: nat, e: ElfError)
    requires i < |segs|
  {
    var s := segs[i];
    match e
    case Outside => s.vaddr < PROGRAM_BASE || s.End() > PROGRAM_END
    case MoreFileThanMemory => s.filesz > s.memsz
    case NotCongruent => s.offset % PAGE != s.vaddr % PAGE
    case PastTheFile => !InFile(file, s.offset, s.filesz)
    case Overlap => i > 0 && PageDown(s.vaddr) < segs[i - 1].End()
    case _ => false
  }

  /** `e` is true of the file: of its header, of the first bad program header, of the first bad segment in
      address order, of its entry point or of its notes, each looked at only when those before are good. */
  ghost predicate Faulty(file: Bytes, machine: nat, abi: nat, e: ElfError) {
    || HeaderFault(file, machine, e)
    || (&& HeaderOk(file, machine)
        && var hs := Phdrs(file);
        || (exists i :: 0 <= i < |hs| && PhdrFault(file, hs[i], e) && forall j :: 0 <= j < i ==> PhdrOk(file, hs[j]))
        || ((forall i :: 0 <= i < |hs| ==> PhdrOk(file, hs[i])) && Misplaced(file, hs, abi, e)))
  }

  ghost predicate Misplaced(file: Bytes, hs: seq<Phdr>, abi: nat, e: ElfError) {
    var segs := Sorted(Loads(hs));
    || (e == NoLoad && segs == [])
    || (exists i :: 0 <= i < |segs| && SegmentFault(file, segs, i, e) && SegmentsOk(file, segs[..i]))
    || (&& segs != [] && SegmentsOk(file, segs) && |file| >= HEADER_LEN
        && var entry := U64At(file, 24);
        || (e == Entry && !EntryOk(segs, entry))
        || (EntryOk(segs, entry) && NotesFault(Notes(file, hs), abi, e)))
  }

  ghost predicate NotesFault(notes: seq<Bytes>, abi: nat, e: ElfError) {
    || VersionIs(notes, Refused(e))
    || (e == NoNote && VersionIs(notes, Accepted(None)))
    || (e == Abi && exists v: nat :: v != abi && VersionIs(notes, Accepted(Some(v))))
  }

  method ReadHeaders(file: Bytes, hs: seq<Phdr>) returns (r: Checked<(seq<Segment>, seq<Bytes>)>)
    ensures r.Accepted? <==> forall i :: 0 <= i < |hs| ==> PhdrOk(file, hs[i])
    ensures r.Refused? ==>
              exists i :: 0 <= i < |hs| && PhdrFault(file, hs[i], r.error)
                  && forall j :: 0 <= j < i ==> PhdrOk(file, hs[j])
    ensures r.Accepted? ==> r.value == (Loads(hs), Notes(file, hs))
  {
    var segments: seq<Segment> := [];
    var notes: seq<Bytes> := [];
    for i := 0 to |hs|
      invariant forall j :: 0 <= j < i ==> PhdrOk(file, hs[j])
      invariant segments == Loads(hs[..i]) && notes == Notes(file, hs[..i])
    {
      var h := hs[i];
      assert hs[..i + 1][..i] == hs[..i];
      if h.kind == PT_LOAD {
        if h.Executable() && h.Writable() {
          assert PhdrFault(file, h, WritableAndExecutable);
          return Refused(WritableAndExecutable);
        }
        segments := segments + [h.Load()];
      } else if h.kind == PT_NOTE {
        if !InFile(file, h.offset, h.filesz) {
          assert PhdrFault(file, h, NoteOutside);
          return Refused(NoteOutside);
        }
        notes := notes + [file[h.offset..h.offset + h.filesz]];
      } else if h.kind != PT_GNU_STACK {
        assert PhdrFault(file, h, SegmentKind);
        return Refused(SegmentKind);
      }
    }
    assert hs[..|hs|] == hs;
    return Accepted((segments, notes));
  }

  method CheckSegments(file: Bytes, segs: seq<Segment>) returns (r: Checked<()>)
    ensures r.Accepted? <==> SegmentsOk(file, segs)
    ensures r.Refused? ==>
            exists i :: 0 <= i < |segs| && SegmentFault(file, segs, i, r.error) && SegmentsOk(file, segs[..i])
  {
    var previousEnd := 0;
    for i := 0 to |segs|
      invariant SegmentsOk(file, segs[..i])
      invariant previousEnd == if i == 0 then 0 else segs[i - 1].End()
    {
      var s := segs[i];
      if s.vaddr < PROGRAM_BASE || s.End() > PROGRAM_END {
        assert SegmentFault(file, segs, i, Outside);
        return Refused(Outside);
      }
      if s.filesz > s.memsz {
        assert SegmentFault(file, segs, i, MoreFileThanMemory);
        return Refused(MoreFileThanMemory);
      }
      if s.offset % PAGE != s.vaddr % PAGE {
        assert SegmentFault(file, segs, i, NotCongruent);
        return Refused(NotCongruent);
      }
      if !InFile(file, s.offset, s.filesz) {
        assert SegmentFault(file, segs, i, PastTheFile);
        return Refused(PastTheFile);
      }
      if PageDown(s.vaddr) < previousEnd {
        assert i > 0 && segs[i - 1].End() > PageDown(segs[i].vaddr);
        assert SegmentFault(file, segs, i, Overlap);
        return Refused(Overlap);
      }
      previousEnd := s.End();
    }
    assert segs[..|segs|] == segs;
    return Accepted(());
  }

  /** Whether `entry` is in an executable segment. */
  method HasEntry(segs: seq<Segment>, entry: nat) returns (r: bool)
    ensures r <==> EntryOk(segs, entry)
  {
    for i := 0 to |segs|
      invariant forall j :: 0 <= j < i ==> !(segs[j].access == ReadExec && segs[j].vaddr <= entry < segs[j].End())
    {
      if segs[i].access == ReadExec && segs[i].vaddr <= entry < segs[i].End() {
        return true;
      }
    }
    return false;
  }

  method FindVersion(notes: seq<Bytes>) returns (r: Checked<Option<nat>>)
    ensures VersionIs(notes, r) && forall other :: VersionIs(notes, other) ==> other == r
  {
    hide Says;
    r := Accepted(None);
    for i := 0 to |notes|
      invariant r.Accepted? && Sound(notes, i) && VersionIs(notes[..i], r)
    {
      var v := RelayNote(notes[i]);
      if v.Refused? {
        r := v;
        break;
      }
      VersionMore(notes[..i], notes[i], r, v);
      assert notes[..i + 1] == notes[..i] + [notes[i]];
      if v.value.Some? {
        r := v;
      }
    }
    assert notes[..|notes|] == notes;
    forall other | VersionIs(notes, other) ensures other == r {
      VersionOnce(notes, r, other);
    }
  }

  /** One more segment of notes. */
  lemma VersionMore(notes: seq<Bytes>, last: Bytes, r: Checked<Option<nat>>, v: Checked<Option<nat>>)
    requires r.Accepted? && VersionIs(notes, r) && v.Accepted? && Says(last, v)
    ensures VersionIs(notes + [last], if v.value.Some? then v else r)
  {
    hide Says;
    var more := notes + [last];
    assert more[|notes|] == last && forall j :: 0 <= j < |notes| ==> more[j] == notes[j];
    if v.value.Some? {
      forall j | 0 <= j < |more| ensures exists w :: Says(more[j], Accepted(w)) {
        if j == |notes| {
          assert Says(more[j], Accepted(v.value));
        } else if r.value.None? {
          assert Says(notes[j], Accepted(None));
        }
      }
      assert Says(more[|notes|], v);
    } else if r.value.Some? {
      var k :| 0 <= k < |notes| && Says(notes[k], r) && forall j :: k < j < |notes| ==> Says(notes[j], Accepted(None));
      assert Says(more[k], r);
      assert Sound(more, |more|);
    }
  }

  lemma SaysOneThing(notes: Bytes, a: Checked<Option<nat>>, b: Checked<Option<nat>>)
    requires Says(notes, a) && Says(notes, b)
    ensures a == b
  {
    SaysOnce(notes, a);
    SaysOnce(notes, b);
  }

  lemma VersionOnce(notes: seq<Bytes>, a: Checked<Option<nat>>, b: Checked<Option<nat>>)
    requires VersionIs(notes, a) && VersionIs(notes, b)
    ensures a == b
  {
    hide Says;
    forall i, x, y | 0 <= i < |notes| && Says(notes[i], x) && Says(notes[i], y) ensures x == y {
      SaysOneThing(notes[i], x, y);
    }
  }

  /** An acceptable file has no fault. */
  lemma FaultyRefused(file: Bytes, machine: nat, abi: nat, e: ElfError)
    requires Faulty(file, machine, abi, e)
    ensures !Acceptable(file, machine, abi)
  {
    hide U16At, U32At, VersionIs, EntryOk, Sorted, Loads, Notes;
    if Acceptable(file, machine, abi) {
      var notes := Notes(file, Phdrs(file));
      forall r | VersionIs(notes, r) ensures r == Accepted(Some(abi)) {
        VersionOnce(notes, r, Accepted(Some(abi)));
      }
    }
  }

  /** Checks `file` for a machine and an ABI version: accepts exactly the acceptable files. */
  method Check(file: Bytes, machine: nat, abi: nat) returns (r: Checked<Program>)
    ensures r.Accepted? <==> Acceptable(file, machine, abi)
    ensures r.Accepted? ==> r.value == Program(U64At(file, 24), Sorted(Loads(Phdrs(file))))
    ensures r.Refused? ==> Faulty(file, machine, abi, r.error)
  {
    hide SegmentsOk, EntryOk, VersionIs, Sorted, Loads, Notes, U32At, U16At;
    if |file| > MAX_SIZE {
      return Refused(TooBig);
    }
    if |file| < HEADER_LEN || file[..4] != MAGIC {
      return Refused(NotElf);
    }
    if file[4] != 2 {
      return Refused(Not64Bit);
    }
    if file[5] != 1 {
      return Refused(NotLittleEndian);
    }
    if U16At(file, 16) != ET_EXEC {
      return Refused(NotExec);
    }
    if U16At(file, 18) != machine {
      return Refused(Machine);
    }
    var entry := U64At(file, 24);
    if U16At(file, 54) != PHDR_LEN || !InFile(file, U64At(file, 32), U16At(file, 56) * PHDR_LEN) {
      return Refused(ProgramHeaders);
    }
    var hs := Phdrs(file);
    var headers := ReadHeaders(file, hs);
    if headers.Refused? {
      return Refused(headers.error);
    }
    var segments := Sorted(headers.value.0);
    if segments == [] {
      return Refused(NoLoad);
    }
    var good := CheckSegments(file, segments);
    if good.Refused? {
      return Refused(good.error);
    }
    var found := HasEntry(segments, entry);
    if !found {
      return Refused(Entry);
    }
    var version := FindVersion(headers.value.1);
    if version.Refused? {
      return Refused(version.error);
    }
    if version.value.None? {
      return Refused(NoNote);
    }
    if version.value.value != abi {
      return Refused(Abi);
    }
    return Accepted(Program(entry, segments));
  }
}

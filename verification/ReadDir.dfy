/** Open directories (kernel/src/file.rs): `read_dir` and its cursor, over a directory that changes
    between the calls, and the records it writes (crates/relay-abi/src/file.rs). */
module ReadDir {
  import opened Wrappers
  import opened Le
  import Dirent

  type Name = Dirent.Name

  const I64_MAX: nat := 0x7FFF_FFFF_FFFF_FFFF
  const DIR_MEMORY_FACTOR: nat := 10
  const HEAD: nat := 16
  const SEEK_START: nat := 0
  const SEEK_CURRENT: nat := 1
  const SEEK_END: nat := 2

  /** A directory entry and the kind its filesystem gives it. */
  datatype Entry = Entry(ino: u64, kind: byte, name: Name)

  // ----- the order of names -----

  /** Byte by byte, a prefix first. */
  predicate Less(a: Name, b: Name) {
    b != [] && (a == [] || a[0] < b[0] || (a[0] == b[0] && Less(a[1..], b[1..])))
  }

  lemma {:induction false} LessTotal(a: Name, b: Name)
    ensures Less(a, b) || Less(b, a) || a == b
    ensures !(Less(a, b) && Less(b, a)) && !Less(a, a)
  {
    if a != [] && b != [] {
      LessTotal(a[1..], b[1..]);
      assert a == [a[0]] + a[1..] && b == [b[0]] + b[1..];
    }
    if a != [] {
      LessTotal(a[1..], a[1..]);
    }
  }

  lemma {:induction false} LessTrans(a: Name, b: Name, c: Name)
    requires Less(a, b) && Less(b, c)
    ensures Less(a, c)
  {
    if a != [] && a[0] == b[0] && b[0] == c[0] {
      LessTrans(a[1..], b[1..], c[1..]);
    }
  }

  predicate Ascending(s: seq<Entry>) {
    forall i, j :: 0 <= i < j < |s| ==> Less(s[i].name, s[j].name)
  }

  /** Sorted; equal names may stand in any order. */
  predicate InOrder(s: seq<Entry>) {
    forall i, j :: 0 <= i < j < |s| ==> !Less(s[j].name, s[i].name)
  }

  predicate Distinct(s: seq<Entry>) {
    forall i, j :: 0 <= i < j < |s| ==> s[i].name != s[j].name
  }

  // ----- sorting by name -----

  function Inserted(s: seq<Entry>, e: Entry): seq<Entry> {
    if s == [] || Less(s[|s| - 1].name, e.name) then s + [e]
    else Inserted(s[..|s| - 1], e) + [s[|s| - 1]]
  }

  lemma {:induction false} InsertedSame(s: seq<Entry>, e: Entry)
    ensures multiset(Inserted(s, e)) == multiset(s) + multiset{e}
  {
    if s != [] && !Less(s[|s| - 1].name, e.name) {
      InsertedSame(s[..|s| - 1], e);
      assert s == s[..|s| - 1] + [s[|s| - 1]];
    }
  }

  lemma {:induction false} InsertedAscending(s: seq<Entry>, e: Entry)
    requires Ascending(s) && forall i :: 0 <= i < |s| ==> s[i].name != e.name
    ensures Ascending(Inserted(s, e))
  {
    if s == [] {
    } else {
      var last := s[|s| - 1];
      if Less(last.name, e.name) {
        forall i | 0 <= i < |s| ensures Less(s[i].name, e.name) {
          if i < |s| - 1 { LessTrans(s[i].name, last.name, e.name); }
        }
      } else {
        var u := s[..|s| - 1];
        InsertedAscending(u, e);
        InsertedSame(u, e);
        LessTotal(last.name, e.name);
        forall i | 0 <= i < |Inserted(u, e)| ensures Less(Inserted(u, e)[i].name, last.name) {
          assert Inserted(u, e)[i] in multiset(Inserted(u, e));
        }
      }
    }
  }

  lemma LessOrEqual(a: Name, b: Name, c: Name)
    requires Less(a, b) && !Less(c, b)
    ensures Less(a, c)
  {
    LessTotal(b, c);
    if b != c { LessTrans(a, b, c); }
  }

  lemma {:induction false} InsertedInOrder(s: seq<Entry>, e: Entry)
    requires InOrder(s)
    ensures InOrder(Inserted(s, e))
  {
    hide Less;
    if s != [] {
      var last, u := s[|s| - 1], s[..|s| - 1];
      if Less(last.name, e.name) {
        forall i | 0 <= i < |s| ensures !Less(e.name, s[i].name) {
          if Less(e.name, s[i].name) {
            LessTrans(last.name, e.name, s[i].name);
            LessTotal(last.name, last.name);
          }
        }
      } else {
        InsertedInOrder(u, e);
        InsertedSame(u, e);
        forall i | 0 <= i < |Inserted(u, e)| ensures !Less(last.name, Inserted(u, e)[i].name) {
          assert Inserted(u, e)[i] in multiset(Inserted(u, e));
        }
      }
    }
  }

  /** The entries by name; names that are distinct strictly ascend. */
  method SortByName(entries: seq<Entry>) returns (sorted: seq<Entry>)
    ensures InOrder(sorted) && multiset(sorted) == multiset(entries)
    ensures Distinct(entries) ==> Ascending(sorted)
  {
    sorted := [];
    for i := 0 to |entries|
      invariant InOrder(sorted) && multiset(sorted) == multiset(entries[..i])
      invariant Distinct(entries) ==> Ascending(sorted)
    {
      InsertedInOrder(sorted, entries[i]);
      if Distinct(entries) {
        forall j | 0 <= j < |sorted| ensures sorted[j].name != entries[i].name {
          assert sorted[j] in multiset(entries[..i]);
        }
        InsertedAscending(sorted, entries[i]);
      }
      InsertedSame(sorted, entries[i]);
      sorted := Inserted(sorted, entries[i]);
      assert entries[..i + 1] == entries[..i] + [entries[i]];
    }
    assert entries[..|entries|] == entries;
  }

  // ----- the cursor -----

  /** Names after the cursor. */
  predicate Past(after: Option<Name>, name: Name) {
    after.None? || Less(after.value, name)
  }

  /** The entries after the cursor, each as often as it is listed, by name. */
  ghost predicate RestIs(after: Option<Name>, entries: seq<Entry>, rest: seq<Entry>) {
    && InOrder(rest) && (Distinct(entries) ==> Ascending(rest))
    && forall e :: multiset(rest)[e] == if Past(after, e.name) then multiset(entries)[e] else 0
  }

  lemma RestHas(after: Option<Name>, entries: seq<Entry>, rest: seq<Entry>, e: Entry)
    requires RestIs(after, entries, rest)
    ensures e in rest <==> e in entries && Past(after, e.name)
  {
    assert e in rest <==> multiset(rest)[e] > 0;
    assert e in entries <==> multiset(entries)[e] > 0;
  }

  /** The first entry after the cursor. */
  method PartitionPoint(sorted: seq<Entry>, last: Name) returns (p: nat)
    requires InOrder(sorted)
    ensures p <= |sorted|
    ensures forall i :: 0 <= i < |sorted| ==> (Less(last, sorted[i].name) <==> p <= i)
  {
    var low, high := 0, |sorted|;
    while low < high
      invariant low <= high <= |sorted|
      invariant forall i :: 0 <= i < low ==> !Less(last, sorted[i].name)
      invariant forall i :: high <= i < |sorted| ==> Less(last, sorted[i].name)
    {
      var mid := low + (high - low) / 2;
      if Less(last, sorted[mid].name) {
        forall i | mid <= i < |sorted| ensures Less(last, sorted[i].name) {
          if mid < i { LessOrEqual(last, sorted[mid].name, sorted[i].name); }
        }
        high := mid;
      } else {
        forall i | 0 <= i <= mid ensures !Less(last, sorted[i].name) {
          if i < mid && Less(last, sorted[i].name) { LessOrEqual(last, sorted[i].name, sorted[mid].name); }
        }
        low := mid + 1;
      }
    }
    p := low;
  }

  method RestOf(after: Option<Name>, entries: seq<Entry>) returns (rest: seq<Entry>)
    ensures RestIs(after, entries, rest)
  {
    var sorted := SortByName(entries);
    var start := 0;
    if after.Some? {
      start := PartitionPoint(sorted, after.value);
    }
    rest := sorted[start..];
    forall e ensures multiset(rest)[e] == if Past(after, e.name) then multiset(entries)[e] else 0 {
      RestCount(after, sorted, start, e);
    }
  }

  /** From the first entry after the cursor on, all are after it and as many as there are. */
  lemma RestCount(after: Option<Name>, sorted: seq<Entry>, start: nat, e: Entry)
    requires start <= |sorted| && forall i :: 0 <= i < |sorted| ==> (Past(after, sorted[i].name) <==> start <= i)
    ensures multiset(sorted[start..])[e] == if Past(after, e.name) then multiset(sorted)[e] else 0
  {
    hide Less;
    var passed, rest := sorted[..start], sorted[start..];
    assert sorted == passed + rest;
    if Past(after, e.name) { assert e !in passed; } else { assert e !in rest; }
  }

  /** The cursor after giving `given`. */
  function Moved(after: Option<Name>, given: seq<Entry>): Option<Name> {
    if given == [] then after else Some(given[|given| - 1].name)
  }

  // ----- records -----

  function RecordLen(n: nat): (len: nat)
    ensures HEAD + n <= len < HEAD + n + 8 && len % 8 == 0
  {
    (HEAD + n + 7) / 8 * 8
  }

  predicate Fits(e: Entry, room: nat) {
    RecordLen(|e.name|) <= U16_MAX && RecordLen(|e.name|) <= room
  }

  function Record(e: Entry): (b: Bytes)
    requires Fits(e, U16_MAX)
    ensures |b| == RecordLen(|e.name|)
  {
    var n := |e.name|;
    Le64(e.ino) + Le16(RecordLen(n)) + Le16(n) + [e.kind, 0, 0, 0] + e.name + Zeros(RecordLen(n) - HEAD - n)
  }

  /** The records one after the other. */
  function Records(s: seq<Entry>): (b: Bytes)
    requires forall i :: 0 <= i < |s| ==> Fits(s[i], U16_MAX)
  {
    if s == [] then [] else Record(s[0]) + Records(s[1..])
  }

  lemma {:induction false} RecordsPush(s: seq<Entry>, e: Entry)
    requires Fits(e, U16_MAX) && forall i :: 0 <= i < |s| ==> Fits(s[i], U16_MAX)
    ensures Records(s + [e]) == Records(s) + Record(e)
  {
    hide Record;
    if s == [] {
      assert s + [e] == [e];
      assert [e][1..] == [];
    } else {
      RecordsPush(s[1..], e);
      assert (s + [e])[1..] == s[1..] + [e];
    }
  }

  /** What a program reads from the bytes: `dir_entries`. */
  function Parsed(b: Bytes): seq<Entry> {
    if |b| < HEAD then []
    else
      var len, n := U16At(b, 8), U16At(b, 10);
      if len < RecordLen(n) || len > |b| then []
      else [Entry(U64At(b, 0), b[12], b[HEAD..HEAD + n])] + Parsed(b[len..])
  }

  lemma RecordHead(e: Entry, tail: Bytes)
    requires Fits(e, U16_MAX)
    ensures
      var b := Record(e) + tail;
      && |b| >= HEAD && U16At(b, 8) == RecordLen(|e.name|) && U16At(b, 10) == |e.name| && b[12] == e.kind
      && U64At(b, 0) == e.ino && b[HEAD..HEAD + |e.name|] == e.name && b[RecordLen(|e.name|)..] == tail
  {
    var n := |e.name|;
    var b := Record(e) + tail;
    var pad := Zeros(RecordLen(n) - HEAD - n);
    assert b[0..4] == Le32(e.ino % 0x1_0000_0000) && b[4..8] == Le32(e.ino / 0x1_0000_0000);
    assert b[8..10] == Le16(RecordLen(n)) && b[10..12] == Le16(n);
    assert U32At(b, 0) == U32At(b[0..4], 0) && U32At(b, 4) == U32At(b[4..8], 0);
    assert U16At(b, 8) == U16At(b[8..10], 0) && U16At(b, 10) == U16At(b[10..12], 0);
  }

  /** A program reads from the records exactly the entries given. */
  lemma {:induction false} ParsedRecords(s: seq<Entry>)
    requires forall i :: 0 <= i < |s| ==> Fits(s[i], U16_MAX)
    ensures Parsed(Records(s)) == s
  {
    hide Record;
    if s != [] {
      RecordHead(s[0], Records(s[1..]));
      ParsedRecords(s[1..]);
      assert s == [s[0]] + s[1..];
    }
  }

  /** How many of the entries fit, in order. */
  function Taken(rest: seq<Entry>, room: nat): (n: nat)
    ensures n <= |rest|
    ensures forall i :: 0 <= i < n ==> Fits(rest[i], U16_MAX)
  {
    if rest == [] || !Fits(rest[0], room) then 0
    else 1 + Taken(rest[1..], room - RecordLen(|rest[0].name|))
  }

  /** The records of the first `n` entries fit in `room` bytes, and those of more do not. */
  ghost predicate MostThatFit(rest: seq<Entry>, room: nat, n: nat) {
    && n <= |rest| && (forall i :: 0 <= i < n ==> Fits(rest[i], U16_MAX)) && |Records(rest[..n])| <= room
    && (n < |rest| ==> !Fits(rest[n], U16_MAX) || |Records(rest[..n])| + RecordLen(|rest[n].name|) > room)
  }

  /** As many entries as fit are taken, and no other number is. */
  lemma {:induction false} TakenMost(rest: seq<Entry>, room: nat, n: nat)
    ensures MostThatFit(rest, room, n) <==> n == Taken(rest, room)
    decreases |rest|
  {
    hide Record;
    if rest != [] && Fits(rest[0], room) && n > 0 {
      var len := RecordLen(|rest[0].name|);
      TakenMost(rest[1..], room - len, n - 1);
      if n <= |rest| && forall i :: 0 <= i < n ==> Fits(rest[i], U16_MAX) {
        assert rest[..n][1..] == rest[1..][..n - 1] && rest[..n][0] == rest[0];
        assert |Records(rest[..n])| == len + |Records(rest[1..][..n - 1])|;
      }
      if MostThatFit(rest[1..], room - len, n - 1) {
        forall i | 0 <= i < n ensures Fits(rest[i], U16_MAX) { if i > 0 { assert Fits(rest[1..][i - 1], U16_MAX); } }
      }
    } else if rest != [] && n > 0 && n <= |rest| && forall i :: 0 <= i < n ==> Fits(rest[i], U16_MAX) {
      assert |Records(rest[..n])| >= |Record(rest[..n][0])|;
    } else if n == 0 {
      assert rest[..0] == [];
    }
  }

  // ----- runs -----

  /** A successful call: the directory it saw and the entries it gave. */
  datatype Call = Call(entries: seq<Entry>, given: seq<Entry>)

  /** The entries given are the next ones in order, with none left out; none are given only at the end. */
  ghost predicate CallOk(after: Option<Name>, c: Call) {
    && Ascending(c.given)
    && (forall e :: e in c.given ==> e in c.entries && Past(after, e.name))
    && (forall e :: e in c.entries && Past(after, e.name) && e !in c.given ==>
        c.given != [] && Less(c.given[|c.given| - 1].name, e.name))
  }

  lemma TakenOk(after: Option<Name>, entries: seq<Entry>, rest: seq<Entry>, n: nat)
    requires RestIs(after, entries, rest) && Distinct(entries) && n <= |rest| && (n == 0 ==> rest == [])
    ensures CallOk(after, Call(entries, rest[..n]))
  {
    var given := rest[..n];
    forall e ensures e in rest <==> e in entries && Past(after, e.name) {
      RestHas(after, entries, rest, e);
    }
    forall e | e in entries && Past(after, e.name) && e !in given
      ensures given != [] && Less(given[|given| - 1].name, e.name)
    {
      assert forall j :: 0 <= j < n ==> rest[j] in given;
      assert e in rest;
    }
  }

  /** The cursor after the calls, from the start of the directory. */
  function Cursor(calls: seq<Call>): Option<Name> {
    if calls == [] then None else Moved(Cursor(calls[..|calls| - 1]), calls[|calls| - 1].given)
  }

  ghost predicate RunOk(calls: seq<Call>) {
    calls == [] || (RunOk(calls[..|calls| - 1]) && CallOk(Cursor(calls[..|calls| - 1]), calls[|calls| - 1]))
  }

  /** Every entry the calls gave, in order. */
  function AllGiven(calls: seq<Call>): seq<Entry> {
    if calls == [] then [] else AllGiven(calls[..|calls| - 1]) + calls[|calls| - 1].given
  }

  lemma {:induction false} CursorIs(calls: seq<Call>)
    ensures Cursor(calls) == Moved(None, AllGiven(calls))
  {
    if calls != [] {
      CursorIs(calls[..|calls| - 1]);
    }
  }

  lemma AscendingBelowLast(s: seq<Entry>, i: nat)
    requires Ascending(s) && i < |s|
    ensures s[i].name == s[|s| - 1].name || Less(s[i].name, s[|s| - 1].name)
  {
  }

  lemma AscendingJoin(s: seq<Entry>, t: seq<Entry>)
    requires Ascending(s) && Ascending(t)
    requires forall e :: e in t ==> Past(Moved(None, s), e.name)
    ensures Ascending(s + t)
  {
    forall i, j | 0 <= i < |s| && 0 <= j < |t| ensures Less(s[i].name, t[j].name) {
      assert t[j] in t;
      AscendingBelowLast(s, i);
      if s[i].name != s[|s| - 1].name { LessTrans(s[i].name, s[|s| - 1].name, t[j].name); }
    }
  }

  /** However the directory changed between the calls, the names given are strictly increasing. */
  lemma {:induction false} GivenAscending(calls: seq<Call>)
    requires RunOk(calls)
    ensures Ascending(AllGiven(calls))
  {
    if calls != [] {
      var u := calls[..|calls| - 1];
      GivenAscending(u);
      CursorIs(u);
      AscendingJoin(AllGiven(u), calls[|calls| - 1].given);
    }
  }

  predicate HasName(s: seq<Entry>, name: Name) {
    exists i :: 0 <= i < |s| && s[i].name == name
  }

  /** The entry of the name in each state seen may be another one; the name is what stays. */
  ghost predicate Stays(calls: seq<Call>, name: Name) {
    forall i :: 0 <= i < |calls| ==> HasName(calls[i].entries, name)
  }

  /** A name that stays was given or is still after the cursor. */
  lemma {:induction false} GivenOrPast(calls: seq<Call>, name: Name)
    requires RunOk(calls) && Stays(calls, name)
    ensures HasName(AllGiven(calls), name) || Past(Cursor(calls), name)
  {
    if calls != [] {
      var u, c := calls[..|calls| - 1], calls[|calls| - 1];
      assert Stays(u, name);
      GivenOrPast(u, name);
      if HasName(AllGiven(u), name) {
        NameKept(AllGiven(u), c.given, name);
      } else {
        GivenNext(Cursor(u), c, name);
        if HasName(c.given, name) { NameKept(AllGiven(u), c.given, name); }
      }
    }
  }

  lemma NameKept(s: seq<Entry>, t: seq<Entry>, name: Name)
    ensures HasName(s + t, name) <==> HasName(s, name) || HasName(t, name)
  {
    if HasName(s, name) {
      var i :| 0 <= i < |s| && s[i].name == name;
      assert (s + t)[i].name == name;
    }
    if HasName(t, name) {
      var i :| 0 <= i < |t| && t[i].name == name;
      assert (s + t)[|s| + i].name == name;
    }
  }

  lemma GivenNext(after: Option<Name>, c: Call, name: Name)
    requires CallOk(after, c) && HasName(c.entries, name) && Past(after, name)
    ensures HasName(c.given, name) || (c.given != [] && Past(Moved(after, c.given), name))
  {
    var i :| 0 <= i < |c.entries| && c.entries[i].name == name;
    assert c.entries[i] in c.entries;
  }

  /** A name there in every state seen is given exactly once by the first call that gives nothing. */
  lemma GivenOnce(calls: seq<Call>, name: Name)
    requires RunOk(calls) && Stays(calls, name) && calls != [] && calls[|calls| - 1].given == []
    ensures exists i :: 0 <= i < |AllGiven(calls)| && AllGiven(calls)[i].name == name &&
              forall j :: 0 <= j < |AllGiven(calls)| && j != i ==> AllGiven(calls)[j].name != name
  {
    var u, c := calls[..|calls| - 1], calls[|calls| - 1];
    var all := AllGiven(calls);
    assert all == AllGiven(u);
    assert Stays(u, name);
    GivenOrPast(u, name);
    if !HasName(all, name) {
      GivenNext(Cursor(u), c, name);
    }
    var i :| 0 <= i < |all| && all[i].name == name;
    GivenAscending(calls);
    forall j | 0 <= j < |all| && j != i ensures all[j].name != name {
      LessTotal(all[i].name, all[i].name);
    }
  }

  // ----- the open file -----

  /** Where an offset counts from. */
  function Base(offset: nat, size: Result<u64>, whence: nat): Result<nat> {
    if whence == SEEK_START then Ok(0)
    else if whence == SEEK_CURRENT then Ok(offset)
    else if whence == SEEK_END then (if size.Ok? then Ok(size.value) else Err(size.error))
    else Err(EINVAL)
  }

  class OpenFile {
    const dir: bool
    const device: bool
    var offset: nat
    /** The last name given. */
    var after: Option<Name>
    var gone: bool
    /** The successful calls since the start of the directory. */
    ghost var calls: seq<Call>

    /** Over directories whose names are distinct the calls made are a good run. */
    ghost predicate Valid()
      reads this
    {
      after == Cursor(calls) && (AllDistinct(calls) ==> RunOk(calls))
    }

    constructor (dir: bool, device: bool)
      ensures Valid() && this.dir == dir && this.device == device && !gone && calls == [] && offset == 0
    {
      this.dir := dir;
      this.device := device;
      offset := 0;
      after := None;
      gone := false;
      calls := [];
    }

    method MarkGone()
      requires Valid()
      modifies this`gone
      ensures Valid() && gone
    {
      gone := true;
    }

    /** Moves the offset; a directory only goes back to its start, where `ReadDir` begins again. `size`
        is what the filesystem says of the file. */
    method Seek(size: Result<u64>, delta: int, whence: nat) returns (r: Result<nat>)
      requires Valid()
      modifies this
      ensures Valid() && gone == old(gone)
      ensures r.Ok? ==> !gone && r.value <= I64_MAX
      ensures !gone && dir && !device ==> (r.Ok? <==> delta == 0 && whence == SEEK_START)
      ensures r.Ok? && dir && !device ==> r.value == offset == 0 && calls == [] && after == None
      ensures !gone && !dir && !device ==>
                var base := Base(old(offset), size, whence);
                && (r.Ok? <==> base.Ok? && base.value <= I64_MAX && 0 <= base.value + delta <= I64_MAX)
                && (r.Ok? ==> r.value == offset == base.value + delta)
      ensures !(r.Ok? && dir && !device) ==> after == old(after) && calls == old(calls)
      ensures r.Err? || device ==> offset == old(offset)
    {
      if gone {
        return Err(ENOENT);
      }
      if device {
        return if whence <= SEEK_END then Ok(0) else Err(EINVAL);
      }
      if dir {
        if delta != 0 || whence != SEEK_START {
          return Err(EINVAL);
        }
        offset, after, calls := 0, None, [];
        return Ok(0);
      }
      var from := Base(offset, size, whence);
      if from.Err? {
        return Err(from.error);
      }
      var base := from.value;
      if base > I64_MAX || base + delta > I64_MAX || base + delta < 0 {
        return Err(EINVAL);
      }
      offset := base + delta;
      return Ok(offset);
    }

    /** Why a call is refused before the directory is read. */
    function Refused(size: Result<u64>, entries: Result<seq<Entry>>, room: nat): Option<Errno>
      reads this
    {
      if gone then Some(ENOENT)
      else if !dir then Some(ENOTDIR)
      else if size.Err? then Some(size.error)
      else if (if size.value * DIR_MEMORY_FACTOR > U64_MAX then U64_MAX
          else size.value * DIR_MEMORY_FACTOR) > room then Some(ENOMEM)
      else if entries.Err? then Some(entries.error)
      else None
    }

    /** Fills `buf` with the records of the next entries, as many as fit; `size` and `entries` are what the
        filesystem says of the directory now. */
    method ReadDir(size: Result<u64>, entries: Result<seq<Entry>>, buf: array<byte>, room: nat)
      returns (r: Result<nat>, ghost rest: seq<Entry>)
      requires Valid()
      modifies this`after, this`calls, buf
      ensures Valid()
      ensures var refused := old(Refused(size, entries, room));
              if refused.Some? then r == Err(refused.value)
              else
                && RestIs(old(after), entries.value, rest)
                && (r == Err(EINVAL) <==> rest != [] && MostThatFit(rest, buf.Length, 0))
                && (r.Ok? || r == Err(EINVAL))
      ensures r.Err? ==> after == old(after) && calls == old(calls) && buf[..] == old(buf[..])
      ensures r.Ok? ==>
                var n := Taken(rest, buf.Length);
                var given := rest[..n];
                && MostThatFit(rest, buf.Length, n)
                && r.value == |Records(given)| <= buf.Length && buf[..] == Records(given) + old(buf[..])[r.value..]
                && calls == old(calls) + [Call(entries.value, given)]
    {
      hide Distinct, RestIs, RunOk, Record, AllDistinct, InOrder, Ascending, CallOk, Cursor, Taken, Fits,
           MostThatFit;
      rest := [];
      var refused := Refused(size, entries, room);
      if refused.Some? {
        return Err(refused.value), rest;
      }
      var left := RestOf(after, entries.value);
      rest := left;
      var done, i := PutRecords(buf, left);
      TakenMost(rest, buf.Length, i);
      TakenMost(rest, buf.Length, 0);
      if i == 0 && left != [] {
        assert buf[..] == old(buf[..]);
        return Err(EINVAL), rest;
      }
      DistinctPush(calls, Call(entries.value, left[..i]));
      if AllDistinct(calls) && Distinct(entries.value) {
        TakenOk(after, entries.value, rest, i);
        RunPush(calls, Call(entries.value, left[..i]));
      }
      calls := calls + [Call(entries.value, left[..i])];
      if i > 0 {
        after := Some(left[i - 1].name);
      }
      return Ok(done), rest;
    }
  }

  /** Every directory seen had distinct names. */
  ghost predicate AllDistinct(calls: seq<Call>) {
    forall i :: 0 <= i < |calls| ==> Distinct(calls[i].entries)
  }

  lemma DistinctPush(calls: seq<Call>, c: Call)
    ensures AllDistinct(calls + [c]) <==> AllDistinct(calls) && Distinct(c.entries)
    ensures Cursor(calls + [c]) == Moved(Cursor(calls), c.given)
  {
    var more := calls + [c];
    assert more[..|calls|] == calls && more[|calls|] == c;
    assert forall i :: 0 <= i < |calls| ==> more[i] == calls[i];
  }

  lemma RunPush(calls: seq<Call>, c: Call)
    requires RunOk(calls) && CallOk(Cursor(calls), c)
    ensures RunOk(calls + [c]) && Cursor(calls + [c]) == Moved(Cursor(calls), c.given)
  {
    assert (calls + [c])[..|calls|] == calls;
  }

  /** Writes the record of `e` from `at` on. */
  method PutRecord(buf: array<byte>, at: nat, e: Entry)
    requires at <= buf.Length && Fits(e, buf.Length - at)
    modifies buf
    ensures buf[..] == Patch(old(buf[..]), at, Record(e))
  {
    var record := Record(e);
    forall i | at <= i < at + |record| {
      buf[i] := record[i - at];
    }
  }

  /** Writes the records of as many entries as fit. */
  method PutRecords(buf: array<byte>, left: seq<Entry>) returns (done: nat, i: nat)
    modifies buf
    ensures i == Taken(left, buf.Length) && done == |Records(left[..i])| <= buf.Length
    ensures buf[..] == Records(left[..i]) + old(buf[..])[done..]
  {
    hide Record, Fits, Records;
    done, i := 0, 0;
    assert left[0..] == left && left[..0] == [];
    assert Records([]) == [] by { RecordsEmpty(); }
    while i < |left| && Fits(left[i], buf.Length - done)
      invariant 0 <= i <= |left| && done <= buf.Length
      invariant Taken(left, buf.Length) == i + Taken(left[i..], buf.Length - done)
      invariant done == |Records(left[..i])| && buf[..] == Records(left[..i]) + old(buf[..])[done..]
    {
      FitsMore(left[i], buf.Length - done);
      RecordsPush(left[..i], left[i]);
      assert left[..i + 1] == left[..i] + [left[i]];
      assert left[i..][1..] == left[i + 1..];
      PutRecord(buf, done, left[i]);
      done := done + RecordLen(|left[i].name|);
      i := i + 1;
    }
  }

  lemma RecordsEmpty()
    ensures Records([]) == []
  {
  }

  lemma FitsMore(e: Entry, room: nat)
    requires Fits(e, room)
    ensures Fits(e, U16_MAX) && RecordLen(|e.name|) <= room
  {
  }
}

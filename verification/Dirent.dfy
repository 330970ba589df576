/** Directory blocks (crates/ext2/src/dirent.rs): records of inode (u32), rec_len (u16), name_len
    and file type (u8 each), then the name, tiling the block exactly. Without the `filetype`
    feature name_len is 16 bits and there is no type byte. */
module Dirent {
  import opened Wrappers
  import opened Le
  import opened Volume
  import Sets

  const HEADER: nat := 8

  type Name = Bytes

  /** One entry: where it starts in its block, its inode (0 while unused), its record's and its
      name's length. */
  datatype Entry = Entry(offset: nat, inode: nat, recLen: nat, nameLen: nat) {
    function End(): nat {
      offset + recLen
    }
  }

  /** The smallest record holding a name of `n` bytes. */
  function RecLenFor(n: nat): (r: nat)
    ensures HEADER + n <= r < HEADER + n + 4 && r % 4 == 0
  {
    (HEADER + n + 3) / 4 * 4
  }

  function NameOf(block: Bytes, e: Entry): Name {
    if e.offset + HEADER + e.nameLen <= |block| then block[e.offset + HEADER..e.offset + HEADER + e.nameLen] else []
  }

  function TypeByte(kind: FileType): byte {
    match kind
    case Regular => 1
    case Directory => 2
    case CharDev => 3
    case BlockDev => 4
    case Fifo => 5
    case Socket => 6
    case Symlink => 7
  }

  // ----- parsing -----

  /** The name length field of the entry at `at`. */
  function NameLenAt(block: Bytes, at: nat, filetype: bool): nat
    requires at + HEADER <= |block|
  {
    if filetype then block[at + 6] else U16At(block, at + 6)
  }

  /** `e` is the record at its offset, and a valid one. */
  predicate Record(block: Bytes, e: Entry, filetype: bool, maxInode: nat) {
    && e.offset + HEADER <= |block|
    && e.inode == U32At(block, e.offset) && e.recLen == U16At(block, e.offset + 4)
    && e.nameLen == NameLenAt(block, e.offset, filetype)
    && e.recLen % 4 == 0 && HEADER <= e.recLen && e.End() <= |block|
    && e.nameLen <= 255 && RecLenFor(e.nameLen) <= e.recLen
    && e.inode <= maxInode
  }

  /** Where the next record would start. */
  function EndOf(es: seq<Entry>): nat {
    if es == [] then 0 else es[|es| - 1].End()
  }

  /** The records follow each other from the start of the block. */
  ghost predicate Chained(es: seq<Entry>) {
    && (es != [] ==> es[0].offset == 0)
    && forall j, k :: 0 <= j < k < |es| && k == j + 1 ==> es[k].offset == es[j].End()
  }

  /** `es` are the entries of `block`: valid records tiling it exactly. */
  ghost predicate Lists(block: Bytes, es: seq<Entry>, filetype: bool, maxInode: nat) {
    && Chained(es)
    && (forall k :: 0 <= k < |es| ==> Record(block, es[k], filetype, maxInode))
    && EndOf(es) == |block|
  }

  /** Parses every entry of `block`; `None` for one that is not tiled by valid records. */
  method Parse(block: Bytes, filetype: bool, maxInode: nat) returns (r: Option<seq<Entry>>)
    ensures r.Some? ==> Lists(block, r.value, filetype, maxInode)
    ensures r.None? ==> forall es :: !Lists(block, es, filetype, maxInode)
  {
    hide U32At, U16At;
    var entries: seq<Entry> := [];
    var offset := 0;
    while offset < |block|
      invariant offset <= |block|
      invariant Chained(entries) && forall k :: 0 <= k < |entries| ==> Record(block, entries[k], filetype, maxInode)
      invariant offset == EndOf(entries)
      invariant forall es :: Lists(block, es, filetype, maxInode) ==> entries <= es
      decreases |block| - offset
    {
      if |block| - offset < HEADER {
        NoneHere(block, entries, filetype, maxInode);
        return None;
      }
      var inode := U32At(block, offset);
      var recLen := U16At(block, offset + 4);
      var nameLen := NameLenAt(block, offset, filetype);
      if recLen % 4 != 0 || recLen < HEADER || recLen > |block| - offset
         || nameLen > 255 || RecLenFor(nameLen) > recLen || inode > maxInode {
        NoneHere(block, entries, filetype, maxInode);
        return None;
      }
      var e := Entry(offset, inode, recLen, nameLen);
      forall es | Lists(block, es, filetype, maxInode)
        ensures entries + [e] <= es
      {
        NextIs(block, entries, es, filetype, maxInode);
      }
      assert Record(block, e, filetype, maxInode);
      ChainMore(entries, e);
      entries := entries + [e];
      offset := offset + recLen;
    }
    return Some(entries);
  }

  lemma ChainMore(es: seq<Entry>, e: Entry)
    requires Chained(es) && e.offset == EndOf(es)
    ensures Chained(es + [e]) && EndOf(es + [e]) == e.End()
  {
  }

  /** A listing continues at the end of any proper prefix of it, with the record found there. */
  lemma NextIs(block: Bytes, prefix: seq<Entry>, es: seq<Entry>, filetype: bool, maxInode: nat)
    requires Lists(block, es, filetype, maxInode) && prefix <= es
    requires EndOf(prefix) < |block|
    ensures |prefix| < |es|
    ensures es[|prefix|].offset == EndOf(prefix) && Record(block, es[|prefix|], filetype, maxInode)
  {
    hide Record;
    assert |prefix| == |es| ==> prefix == es;
  }

  lemma NoneHere(block: Bytes, prefix: seq<Entry>, filetype: bool, maxInode: nat)
    requires forall es :: Lists(block, es, filetype, maxInode) ==> prefix <= es
    requires EndOf(prefix) < |block|
             && forall e: Entry :: e.offset == EndOf(prefix) ==> !Record(block, e, filetype, maxInode)
    ensures forall es :: !Lists(block, es, filetype, maxInode)
  {
    forall es | Lists(block, es, filetype, maxInode)
      ensures false
    {
      NextIs(block, prefix, es, filetype, maxInode);
    }
  }

  lemma {:induction false} Ordered(es: seq<Entry>, j: nat, k: nat)
    requires Chained(es) && j < k < |es|
    ensures es[j].End() <= es[k].offset
  {
    if j < k - 1 {
      Ordered(es, j, k - 1);
      assert es[k].offset == es[k - 1].End();
    }
  }

  // ----- writing records -----

  /** The bytes of an entry: header and name. */
  function RecordBytes(recLen: u16, name: Name, inode: u32, fileType: Option<byte>): Bytes
    requires |name| <= 255
  {
    Le32(inode) + Le16(recLen) + (match fileType case Some(t) => [|name|, t] case None => Le16(|name|)) + name
  }

  /** Writes an entry at `offset`; `fileType` is `None` without the `filetype` feature. */
  function Put(block: Bytes, offset: nat, recLen: u16, name: Name, inode: u32, fileType: Option<byte>): (r: Bytes)
    requires |name| <= 255 && offset + HEADER + |name| <= |block|
    ensures |r| == |block|
  {
    Patch(block, offset, RecordBytes(recLen, name, inode, fileType))
  }

  function SetRecLen(block: Bytes, offset: nat, recLen: u16): (r: Bytes)
    requires offset + 6 <= |block|
    ensures |r| == |block|
  {
    SetU16(block, offset + 4, recLen)
  }

  lemma RecordBytesRead(recLen: u16, name: Name, inode: u32, fileType: Option<byte>)
    requires |name| <= 255
    ensures var bytes := RecordBytes(recLen, name, inode, fileType);
            && |bytes| == HEADER + |name| && bytes[HEADER..] == name
            && U32At(bytes, 0) == inode && U16At(bytes, 4) == recLen && NameLenAt(bytes, 0, fileType.Some?) == |name|
  {
    var lens := match fileType case Some(t) => [|name|, t] case None => Le16(|name|);
    var bytes := RecordBytes(recLen, name, inode, fileType);
    assert bytes == Le32(inode) + (Le16(recLen) + (lens + name));
    assert bytes == (Le32(inode) + Le16(recLen)) + (lens + name);
    ConcatU16(Le32(inode), Le16(recLen) + (lens + name), 0);
    ConcatU16(Le32(inode) + Le16(recLen), lens + name, 0);
  }

  /** A record reads back as it was written. */
  lemma PutRecord(block: Bytes, offset: nat, recLen: u16, name: Name, inode: u32, fileType: Option<byte>,
        filetype: bool, maxInode: nat)
    requires |name| <= 255 && offset + recLen <= |block| && recLen % 4 == 0 && RecLenFor(|name|) <= recLen
    requires inode <= maxInode && (fileType.Some? <==> filetype)
    ensures var r := Put(block, offset, recLen, name, inode, fileType);
            var e := Entry(offset, inode, recLen, |name|);
            && Record(r, e, filetype, maxInode) && NameOf(r, e) == name
            && forall i :: 0 <= i < |block| && !(offset <= i < offset + HEADER + |name|) ==> r[i] == block[i]
  {
    hide U32At, U16At, RecordBytes;
    RecordBytesRead(recLen, name, inode, fileType);
    var bytes := RecordBytes(recLen, name, inode, fileType);
    PatchU32(block, offset, bytes, 0);
    PatchU16(block, offset, bytes, 4);
    PatchU16(block, offset, bytes, 6);
    var r := Put(block, offset, recLen, name, inode, fileType);
    assert r[offset + 6] == bytes[6];
    forall k | 0 <= k < |name|
      ensures r[offset + HEADER + k] == name[k]
    {
      assert bytes[HEADER..][k] == bytes[HEADER + k];
    }
  }

  /** A record depends on its header and name only. */
  lemma RecordKept(block: Bytes, block': Bytes, e: Entry, filetype: bool, maxInode: nat)
    requires Record(block, e, filetype, maxInode) && |block'| == |block|
    requires forall i :: e.offset <= i < e.offset + HEADER + e.nameLen ==> block'[i] == block[i]
    ensures Record(block', e, filetype, maxInode) && NameOf(block', e) == NameOf(block, e)
  {
  }

  /** A longer or shorter record keeps its name. */
  lemma RecLenSet(block: Bytes, e: Entry, recLen: u16, filetype: bool, maxInode: nat)
    requires Record(block, e, filetype, maxInode)
    requires recLen % 4 == 0 && RecLenFor(e.nameLen) <= recLen && e.offset + recLen <= |block|
    ensures var r := SetRecLen(block, e.offset, recLen);
            && Record(r, e.(recLen := recLen), filetype, maxInode)
            && NameOf(r, e.(recLen := recLen)) == NameOf(block, e)
            && forall i :: 0 <= i < |block| && !(e.offset <= i < e.offset + HEADER) ==> r[i] == block[i]
  {
  }

  // ----- the names of a block -----

  ghost function PairOf(block: Bytes, e: Entry): (Name, nat) {
    (NameOf(block, e), e.inode)
  }

  /** Each entry's name and inode, unused ones included. */
  ghost function Pairs(block: Bytes, es: seq<Entry>): (ps: seq<(Name, nat)>)
    ensures |ps| == |es|
  {
    seq(|es|, k requires 0 <= k < |es| => PairOf(block, es[k]))
  }

  /** No two used entries have one name. */
  ghost predicate DistinctNames(ps: seq<(Name, nat)>) {
    forall j, k :: 0 <= j < |ps| && 0 <= k < |ps| && ps[j].1 != 0 && ps[k].1 != 0 && ps[j].0 == ps[k].0 ==> j == k
  }

  ghost predicate Used(ps: seq<(Name, nat)>, k: int) {
    0 <= k < |ps| && ps[k].1 != 0
  }

  /** What the used entries say: names to inodes. */
  ghost function Listing(ps: seq<(Name, nat)>): map<Name, nat> {
    if ps == [] then map[]
    else
      var (name, inode) := ps[|ps| - 1];
      if inode == 0 then Listing(ps[..|ps| - 1]) else Listing(ps[..|ps| - 1])[name := inode]
  }

  lemma {:induction false} ListingHas(ps: seq<(Name, nat)>, k: nat)
    requires DistinctNames(ps) && Used(ps, k)
    ensures ps[k].0 in Listing(ps) && Listing(ps)[ps[k].0] == ps[k].1
  {
    if k < |ps| - 1 {
      ListingHas(ps[..|ps| - 1], k);
    }
  }

  lemma {:induction false} ListingFrom(ps: seq<(Name, nat)>, n: Name) returns (k: nat)
    requires n in Listing(ps)
    ensures Used(ps, k) && ps[k].0 == n
  {
    if ps[|ps| - 1].1 != 0 && ps[|ps| - 1].0 == n {
      k := |ps| - 1;
    } else {
      k := ListingFrom(ps[..|ps| - 1], n);
    }
  }

  /** A listing is known by what it holds. */
  lemma ListingIs(ps: seq<(Name, nat)>, m: map<Name, nat>)
    requires forall k :: Used(ps, k) ==> ps[k].0 in m && m[ps[k].0] == ps[k].1
    requires forall n :: n in m ==> exists k :: Used(ps, k) && ps[k].0 == n
    requires DistinctNames(ps)
    ensures Listing(ps) == m
  {
    hide Listing;
    var l := Listing(ps);
    forall n | n in l
      ensures n in m && m[n] == l[n]
    {
      var k := ListingFrom(ps, n);
      ListingHas(ps, k);
    }
    forall n | n in m
      ensures n in l
    {
      var k :| Used(ps, k) && ps[k].0 == n;
      ListingHas(ps, k);
    }
  }

  /** `ps'` has the used entries of `ps`, elsewhere, and one more at `at`. */
  ghost predicate OneMore(ps: seq<(Name, nat)>, ps': seq<(Name, nat)>, at: nat, to: map<nat, nat>) {
    && Used(ps', at)
    && (forall k: nat :: Used(ps, k) ==> k in to && to[k] != at && Used(ps', to[k]) && ps'[to[k]] == ps[k])
    && (forall k: nat :: Used(ps', k) && k != at ==> exists j: nat :: Used(ps, j) && to[j] == k)
  }

  lemma ListingOneMore(ps: seq<(Name, nat)>, ps': seq<(Name, nat)>, at: nat, to: map<nat, nat>)
    requires DistinctNames(ps) && OneMore(ps, ps', at, to) && ps'[at].0 !in Listing(ps)
    ensures DistinctNames(ps') && Listing(ps') == Listing(ps)[ps'[at].0 := ps'[at].1]
  {
    forall j: nat | Used(ps, j)
      ensures ps[j].0 in Listing(ps) && Listing(ps)[ps[j].0] == ps[j].1
    {
      ListingHas(ps, j);
    }
    forall j: nat, k: nat | Used(ps', j) && Used(ps', k) && ps'[j].0 == ps'[k].0
      ensures j == k
    {
    }
    forall n | n in Listing(ps)
      ensures exists k :: Used(ps', k) && ps'[k].0 == n
    {
      var j := ListingFrom(ps, n);
      assert Used(ps', to[j]);
    }
    ListingIs(ps', Listing(ps)[ps'[at].0 := ps'[at].1]);
  }

  /** A name entered in an unused entry. */
  lemma ListingReuse(ps: seq<(Name, nat)>, k: nat, name: Name, inode: nat)
    requires DistinctNames(ps) && k < |ps| && ps[k].1 == 0 && inode != 0 && name !in Listing(ps)
    ensures DistinctNames(ps[k := (name, inode)]) && Listing(ps[k := (name, inode)]) == Listing(ps)[name := inode]
  {
    hide DistinctNames, Listing;
    var to := map j | j in Sets.Below(|ps|) :: j;
    ListingOneMore(ps, ps[k := (name, inode)], k, to) by {
      forall j: nat | Used(ps[k := (name, inode)], j) && j != k
        ensures Used(ps, j) && to[j] == j
      {
      }
    }
  }

  /** A new entry among the others. */
  lemma ListingInsert(ps: seq<(Name, nat)>, k: nat, name: Name, inode: nat)
    requires DistinctNames(ps) && k <= |ps| && inode != 0 && name !in Listing(ps)
    ensures var ps' := ps[..k] + [(name, inode)] + ps[k..];
            DistinctNames(ps') && Listing(ps') == Listing(ps)[name := inode]
  {
    hide DistinctNames, Listing, OneMore;
    var ps' := ps[..k] + [(name, inode)] + ps[k..];
    var to := map j | j in Sets.Below(|ps|) :: if j < k then j else j + 1;
    InsertOneMore(ps, ps', k, to, name, inode);
    ListingOneMore(ps, ps', k, to);
  }

  lemma InsertOneMore(ps: seq<(Name, nat)>, ps': seq<(Name, nat)>, k: nat, to: map<nat, nat>, name: Name, inode: nat)
    requires k <= |ps| && inode != 0 && ps' == ps[..k] + [(name, inode)] + ps[k..]
    requires forall j: nat :: j < |ps| ==> j in to && to[j] == if j < k then j else j + 1
    ensures OneMore(ps, ps', k, to)
  {
    forall j: nat | Used(ps, j)
      ensures j in to && to[j] != k && Used(ps', to[j]) && ps'[to[j]] == ps[j]
    {
    }
    forall j: nat | Used(ps', j) && j != k
      ensures exists m: nat :: Used(ps, m) && to[m] == j
    {
      var m := if j < k then j else j - 1;
      assert ps[m] == ps'[j];
      assert Used(ps, m) && to[m] == j;
    }
  }

  /** An entry gone from among the others. */
  lemma ListingRemove(ps: seq<(Name, nat)>, k: nat)
    requires DistinctNames(ps) && Used(ps, k)
    ensures var ps' := ps[..k] + ps[k + 1..];
            DistinctNames(ps') && Listing(ps') == Listing(ps) - {ps[k].0}
  {
    var ps' := ps[..k] + ps[k + 1..];
    forall j: nat | j < |ps'|
      ensures ps'[j] == ps[if j < k then j else j + 1]
    {
    }
    ListingHas(ps, k);
    forall j | Used(ps', j)
      ensures ps'[j].0 in Listing(ps) - {ps[k].0} && (Listing(ps) - {ps[k].0})[ps'[j].0] == ps'[j].1
    {
      ListingHas(ps, if j < k then j else j + 1);
    }
    forall n | n in Listing(ps) - {ps[k].0}
      ensures exists j :: Used(ps', j) && ps'[j].0 == n
    {
      var j := ListingFrom(ps, n);
      assert Used(ps', if j < k then j else j - 1);
    }
    ListingIs(ps', Listing(ps) - {ps[k].0});
  }

  /** An entry marked unused. */
  lemma ListingClear(ps: seq<(Name, nat)>, k: nat, name: Name)
    requires DistinctNames(ps) && Used(ps, k)
    ensures DistinctNames(ps[k := (name, 0)]) && Listing(ps[k := (name, 0)]) == Listing(ps) - {ps[k].0}
  {
    var ps' := ps[k := (name, 0)];
    ListingHas(ps, k);
    forall j | Used(ps', j)
      ensures ps'[j].0 in Listing(ps) - {ps[k].0} && (Listing(ps) - {ps[k].0})[ps'[j].0] == ps'[j].1
    {
      ListingHas(ps, j);
    }
    forall n | n in Listing(ps) - {ps[k].0}
      ensures exists j :: Used(ps', j) && ps'[j].0 == n
    {
      var j := ListingFrom(ps, n);
      assert Used(ps', j);
    }
    ListingIs(ps', Listing(ps) - {ps[k].0});
  }

  /** An entry pointed at another inode. */
  lemma ListingRetarget(ps: seq<(Name, nat)>, k: nat, inode: nat)
    requires DistinctNames(ps) && Used(ps, k) && inode != 0
    ensures DistinctNames(ps[k := (ps[k].0, inode)])
            && Listing(ps[k := (ps[k].0, inode)]) == Listing(ps)[ps[k].0 := inode]
  {
    var ps', m := ps[k := (ps[k].0, inode)], Listing(ps)[ps[k].0 := inode];
    forall j | Used(ps', j)
      ensures ps'[j].0 in m && m[ps'[j].0] == ps'[j].1
    {
      ListingHas(ps, j);
    }
    forall n | n in m
      ensures exists j :: Used(ps', j) && ps'[j].0 == n
    {
      if n == ps[k].0 {
        assert Used(ps', k);
      } else {
        var j := ListingFrom(ps, n);
        assert Used(ps', j);
      }
    }
    ListingIs(ps', m);
  }

  // ----- room, insert, remove, retarget -----

  /** Whether the record of `e` has room for a new name of `n` bytes: an unused one large enough,
      or a used one with that much to spare after its own name. */
  predicate HasRoom(e: Entry, n: nat) {
    if e.inode == 0 then e.recLen >= RecLenFor(n)
    else e.recLen >= RecLenFor(e.nameLen) + RecLenFor(n)
  }

  /** The first entry with room for a new name. */
  method Room(es: seq<Entry>, n: nat) returns (r: Option<nat>)
    ensures r.Some? ==> r.value < |es| && HasRoom(es[r.value], n)
    ensures r.Some? ==> forall k :: 0 <= k < r.value ==> !HasRoom(es[k], n)
    ensures r.None? ==> forall k :: 0 <= k < |es| ==> !HasRoom(es[k], n)
  {
    for k := 0 to |es|
      invariant forall j :: 0 <= j < k ==> !HasRoom(es[j], n)
    {
      if HasRoom(es[k], n) {
        return Some(k);
      }
    }
    return None;
  }

  predicate CanInsert(block: Bytes, at: Entry, name: Name) {
    at.End() <= |block| && at.recLen <= U16_MAX && |name| <= 255 && HasRoom(at, |name|)
  }

  /** Adds `name` in the room at `at`: reusing an unused entry, or splitting the spare space off a
      used one. */
  function Insert(block: Bytes, at: Entry, name: Name, inode: u32, fileType: Option<byte>): (r: Bytes)
    requires CanInsert(block, at, name)
    ensures |r| == |block|
  {
    if at.inode == 0 then Put(block, at.offset, at.recLen, name, inode, fileType)
    else
      var keep := RecLenFor(at.nameLen);
      Put(SetRecLen(block, at.offset, keep), at.offset + keep, at.recLen - keep, name, inode, fileType)
  }

  /** The entries after `Insert` at the `k`-th. */
  function Inserted(es: seq<Entry>, k: nat, n: nat, inode: nat): seq<Entry>
    requires k < |es| && HasRoom(es[k], n)
  {
    var at := es[k];
    if at.inode == 0 then es[k := Entry(at.offset, inode, at.recLen, n)]
    else
      var keep := RecLenFor(at.nameLen);
      es[..k] + [at.(recLen := keep), Entry(at.offset + keep, inode, at.recLen - keep, n)] + es[k + 1..]
  }

  /** `block'` differs from `block` only inside the record of the `k`-th entry. */
  ghost predicate OnlyRecord(block: Bytes, block': Bytes, e: Entry) {
    |block'| == |block| && forall i :: 0 <= i < |block| && !(e.offset <= i < e.End()) ==> block'[i] == block[i]
  }

  /** The other records are as they were. */
  lemma OthersKept(block: Bytes, block': Bytes, es: seq<Entry>, k: nat, j: nat, filetype: bool, maxInode: nat)
    requires Lists(block, es, filetype, maxInode) && k < |es| && j < |es| && j != k && OnlyRecord(block, block', es[k])
    ensures Record(block', es[j], filetype, maxInode) && NameOf(block', es[j]) == NameOf(block, es[j])
  {
    if j < k { Ordered(es, j, k); } else { Ordered(es, k, j); }
    RecordKept(block, block', es[j], filetype, maxInode);
  }

  lemma InsertReuse(block: Bytes, es: seq<Entry>, k: nat, name: Name, inode: u32, fileType: Option<byte>,
        filetype: bool, maxInode: nat)
    requires Lists(block, es, filetype, maxInode) && k < |es| && CanInsert(block, es[k], name) && es[k].inode == 0
    requires inode <= maxInode && (fileType.Some? <==> filetype)
    ensures var block' := Insert(block, es[k], name, inode, fileType);
            var es' := Inserted(es, k, |name|, inode);
            && Lists(block', es', filetype, maxInode)
            && Pairs(block', es') == Pairs(block, es)[k := (name, inode)]
  {
    hide Record, NameOf;
    var at := es[k];
    RecordFits(block, at, filetype, maxInode);
    var block' := Insert(block, at, name, inode, fileType);
    var es' := Inserted(es, k, |name|, inode);
    PutRecord(block, at.offset, at.recLen, name, inode, fileType, filetype, maxInode);
    assert OnlyRecord(block, block', at);
    forall j | 0 <= j < |es'|
      ensures Record(block', es'[j], filetype, maxInode)
      ensures (es'[j].offset + HEADER + es'[j].nameLen <= |block'|)
              && NameOf(block', es'[j]) == (if j == k then name else NameOf(block, es[j]))
    {
      RecordFits(block, es[j], filetype, maxInode);
      if j != k { OthersKept(block, block', es, k, j, filetype, maxInode); }
    }
  }

  lemma RecordFits(block: Bytes, e: Entry, filetype: bool, maxInode: nat)
    requires Record(block, e, filetype, maxInode)
    ensures e.offset + HEADER + e.nameLen <= e.End() <= |block| && e.recLen <= U16_MAX && e.recLen % 4 == 0
            && e.nameLen <= 255
    ensures RecLenFor(e.nameLen) <= e.recLen
  {
  }

  /** Splitting a record: the old entry in the part it needs, the new one in the rest. */
  lemma SplitRecord(block: Bytes, at: Entry, name: Name, inode: u32, fileType: Option<byte>, filetype: bool,
        maxInode: nat)
    requires Record(block, at, filetype, maxInode) && CanInsert(block, at, name) && at.inode != 0
    requires inode <= maxInode && (fileType.Some? <==> filetype)
    ensures var block' := Insert(block, at, name, inode, fileType);
            var keep := RecLenFor(at.nameLen);
            && keep <= at.recLen
            && Record(block', at.(recLen := keep), filetype, maxInode)
            && NameOf(block', at.(recLen := keep)) == NameOf(block, at)
            && Record(block', Entry(at.offset + keep, inode, at.recLen - keep, |name|), filetype, maxInode)
            && NameOf(block', Entry(at.offset + keep, inode, at.recLen - keep, |name|)) == name
            && OnlyRecord(block, block', at)
  {
    hide NameOf, Put, SetRecLen, Record;
    RecordFits(block, at, filetype, maxInode);
    var keep := RecLenFor(at.nameLen);
    var mid := SetRecLen(block, at.offset, keep);
    RecLenSet(block, at, keep, filetype, maxInode);
    PutRecord(mid, at.offset + keep, at.recLen - keep, name, inode, fileType, filetype, maxInode);
    RecordKept(mid, Insert(block, at, name, inode, fileType), at.(recLen := keep), filetype, maxInode);
  }

  lemma InsertedAt(es: seq<Entry>, k: nat, n: nat, inode: nat, j: nat)
    requires k < |es| && HasRoom(es[k], n) && es[k].inode != 0 && j <= |es|
    ensures var es' := Inserted(es, k, n, inode);
            && |es'| == |es| + 1
            && es'[j] == (if j < k then es[j] else if j == k then es[k].(recLen := RecLenFor(es[k].nameLen))
                          else if j == k + 1 then Entry(es[k].offset + RecLenFor(es[k].nameLen), inode,
                              es[k].recLen - RecLenFor(es[k].nameLen), n)
                          else es[j - 1])
  {
  }

  lemma InsertSplit(block: Bytes, es: seq<Entry>, k: nat, name: Name, inode: u32, fileType: Option<byte>,
        filetype: bool, maxInode: nat)
    requires Lists(block, es, filetype, maxInode) && k < |es| && CanInsert(block, es[k], name) && es[k].inode != 0
    requires inode <= maxInode && (fileType.Some? <==> filetype)
    ensures var block' := Insert(block, es[k], name, inode, fileType);
            var es' := Inserted(es, k, |name|, inode);
            && Lists(block', es', filetype, maxInode)
            && Pairs(block', es') == Pairs(block, es)[..k + 1] + [(name, inode)] + Pairs(block, es)[k + 1..]
  {
    hide Record, NameOf, Insert, Inserted, RecLenFor;
    var at := es[k];
    var block' := Insert(block, at, name, inode, fileType);
    var es' := Inserted(es, k, |name|, inode);
    SplitRecord(block, at, name, inode, fileType, filetype, maxInode);
    InsertedAt(es, k, |name|, inode, k);
    forall j {:trigger es'[j]} | 0 <= j < |es'|
      ensures j != k && j != k + 1 ==> es'[j] == es[if j < k then j else j - 1]
      ensures Record(block', es'[j], filetype, maxInode)
      ensures PairOf(block', es'[j]) ==
              if j <= k then PairOf(block, es[j]) else if j == k + 1 then (name, inode) else PairOf(block, es[j - 1])
    {
      InsertedAt(es, k, |name|, inode, j);
      if j < k {
        OthersKept(block, block', es, k, j, filetype, maxInode);
      } else if j > k + 1 {
        OthersKept(block, block', es, k, j - 1, filetype, maxInode);
      }
    }
    InsertedAt(es, k, |name|, inode, k + 1);
    ChainSplit(es, es', k);
    PairsSplit(block, block', es, es', k, name, inode);
  }

  lemma PairsSplit(block: Bytes, block': Bytes, es: seq<Entry>, es': seq<Entry>, k: nat, name: Name, inode: nat)
    requires k < |es| && |es'| == |es| + 1
    requires forall j {:trigger es'[j]} :: 0 <= j < |es'| ==>
               PairOf(block', es'[j]) == if j <= k then PairOf(block, es[j])
                   else if j == k + 1 then (name, inode) else PairOf(block, es[j - 1])
    ensures Pairs(block', es') == Pairs(block, es)[..k + 1] + [(name, inode)] + Pairs(block, es)[k + 1..]
  {
    hide PairOf;
    var ps, ps' := Pairs(block, es), Pairs(block', es');
    var want := ps[..k + 1] + [(name, inode)] + ps[k + 1..];
    forall j | 0 <= j < |ps'|
      ensures ps'[j] == want[j]
    {
      assert ps'[j] == PairOf(block', es'[j]);
      assert want[j] == if j <= k then ps[j] else if j == k + 1 then (name, inode) else ps[j - 1];
    }
  }

  lemma ChainSplit(es: seq<Entry>, es': seq<Entry>, k: nat)
    requires Chained(es) && k < |es| && |es'| == |es| + 1
    requires forall j :: 0 <= j < |es'| && j != k && j != k + 1 ==> es'[j] == es[if j < k then j else j - 1]
    requires es'[k].offset == es[k].offset && es'[k].End() == es'[k + 1].offset && es'[k + 1].End() == es[k].End()
    ensures Chained(es') && EndOf(es') == EndOf(es)
  {
  }

  /** A name inserted where there is room: the block still parses, with the entries it had and the
      new one. */
  lemma InsertOk(block: Bytes, es: seq<Entry>, k: nat, name: Name, inode: u32, fileType: Option<byte>,
        filetype: bool, maxInode: nat)
    requires Lists(block, es, filetype, maxInode) && k < |es| && CanInsert(block, es[k], name)
    requires 0 < inode <= maxInode && (fileType.Some? <==> filetype)
    requires DistinctNames(Pairs(block, es)) && name !in Listing(Pairs(block, es))
    ensures var block' := Insert(block, es[k], name, inode, fileType);
            var es' := Inserted(es, k, |name|, inode);
            && Lists(block', es', filetype, maxInode) && DistinctNames(Pairs(block', es'))
            && Listing(Pairs(block', es')) == Listing(Pairs(block, es))[name := inode]
  {
    hide Record, Listing, DistinctNames, Pairs, Insert, Inserted, HasRoom;
    if es[k].inode == 0 {
      InsertReuse(block, es, k, name, inode, fileType, filetype, maxInode);
      PairsAt(block, es, k);
      ListingReuse(Pairs(block, es), k, name, inode);
    } else {
      InsertSplit(block, es, k, name, inode, fileType, filetype, maxInode);
      ListingInsert(Pairs(block, es), k + 1, name, inode);
    }
  }

  lemma PairsAt(block: Bytes, es: seq<Entry>, k: nat)
    requires k < |es|
    ensures Pairs(block, es)[k] == (NameOf(block, es[k]), es[k].inode)
  {
  }

  /** Removes entry `e`: its record joins that of `prev`, the one before it in the block, or, first
      in the block, it just becomes unused. */
  function RemoveAt(block: Bytes, e: Entry, prev: Option<Entry>): (r: Bytes)
    requires e.offset + HEADER <= |block|
    requires prev.Some? ==> prev.value.offset + HEADER <= |block| && prev.value.recLen + e.recLen <= U16_MAX
    ensures |r| == |block|
  {
    match prev
    case Some(p) => SetRecLen(block, p.offset, p.recLen + e.recLen)
    case None => SetU32(block, e.offset, 0)
  }

  /** Removes the `k`-th entry. */
  function Remove(block: Bytes, es: seq<Entry>, k: nat): (r: Bytes)
    requires k < |es| && es[k].offset + HEADER <= |block|
    requires k > 0 ==> es[k - 1].offset + HEADER <= |block| && es[k - 1].recLen + es[k].recLen <= U16_MAX
    ensures |r| == |block|
  {
    RemoveAt(block, es[k], if k > 0 then Some(es[k - 1]) else None)
  }

  /** The entries after `Remove`. */
  function Removed(es: seq<Entry>, k: nat): seq<Entry>
    requires k < |es|
  {
    if k > 0 then es[..k - 1] + [es[k - 1].(recLen := es[k - 1].recLen + es[k].recLen)] + es[k + 1..]
    else es[0 := es[0].(inode := 0)]
  }

  /** Points the entry at another inode. */
  function Retarget(block: Bytes, e: Entry, inode: u32, fileType: Option<byte>): (r: Bytes)
    requires e.offset + HEADER <= |block|
    ensures |r| == |block|
  {
    var r := SetU32(block, e.offset, inode);
    if fileType.Some? then r[e.offset + 7 := fileType.value] else r
  }

  lemma RetargetRecord(block: Bytes, e: Entry, inode: u32, fileType: Option<byte>, filetype: bool, maxInode: nat)
    requires Record(block, e, filetype, maxInode) && inode <= maxInode && (fileType.Some? ==> filetype)
    ensures var r := Retarget(block, e, inode, fileType);
            && Record(r, e.(inode := inode), filetype, maxInode) && NameOf(r, e.(inode := inode)) == NameOf(block, e)
            && OnlyRecord(block, r, e)
  {
  }

  lemma RetargetPairs(block: Bytes, es: seq<Entry>, k: nat, inode: u32, fileType: Option<byte>, filetype: bool,
        maxInode: nat)
    requires Lists(block, es, filetype, maxInode) && k < |es| && es[k].offset + HEADER <= |block|
    requires inode <= maxInode && (fileType.Some? ==> filetype)
    ensures var r := Retarget(block, es[k], inode, fileType);
            var es' := es[k := es[k].(inode := inode)];
            && Lists(r, es', filetype, maxInode)
            && Pairs(r, es') == Pairs(block, es)[k := (Pairs(block, es)[k].0, inode)]
  {
    hide Record, NameOf, Retarget;
    var r := Retarget(block, es[k], inode, fileType);
    var es' := es[k := es[k].(inode := inode)];
    RetargetRecord(block, es[k], inode, fileType, filetype, maxInode);
    forall j | 0 <= j < |es'|
      ensures Record(r, es'[j], filetype, maxInode) && NameOf(r, es'[j]) == NameOf(block, es[j])
    {
      if j != k { OthersKept(block, r, es, k, j, filetype, maxInode); }
    }
  }

  lemma RemovedAt(es: seq<Entry>, k: nat, j: nat)
    requires 0 < k < |es| && j < |es| - 1
    ensures |Removed(es, k)| == |es| - 1
    ensures Removed(es, k)[j] == if j == k - 1 then es[k - 1].(recLen := es[k - 1].recLen + es[k].recLen)
            else es[if j < k then j else j + 1]
  {
  }

  lemma JoinRecord(block: Bytes, es: seq<Entry>, k: nat, filetype: bool, maxInode: nat)
    requires Lists(block, es, filetype, maxInode) && 0 < k < |es| && |block| <= U16_MAX
    ensures es[k - 1].offset + HEADER <= |block| && es[k].offset + HEADER <= |block|
            && es[k - 1].recLen + es[k].recLen <= U16_MAX
    ensures es[k].offset == es[k - 1].End()
    ensures var block', joined := Remove(block, es, k), es[k - 1].(recLen := es[k - 1].recLen + es[k].recLen);
            && Record(block', joined, filetype, maxInode) && NameOf(block', joined) == NameOf(block, es[k - 1])
            && OnlyRecord(block, block', es[k - 1])
  {
    hide Record, NameOf, SetRecLen, RecLenFor;
    var prev, e := es[k - 1], es[k];
    RecordFits(block, prev, filetype, maxInode);
    RecordFits(block, e, filetype, maxInode);
    assert e.offset == prev.End();
    RecLenSet(block, prev, prev.recLen + e.recLen, filetype, maxInode);
  }

  /** Joining two neighbouring records. */
  lemma JoinPairs(block: Bytes, es: seq<Entry>, k: nat, filetype: bool, maxInode: nat)
    requires Lists(block, es, filetype, maxInode) && 0 < k < |es| && |block| <= U16_MAX
    ensures es[k - 1].offset + HEADER <= |block| && es[k].offset + HEADER <= |block|
            && es[k - 1].recLen + es[k].recLen <= U16_MAX
    ensures Lists(Remove(block, es, k), Removed(es, k), filetype, maxInode)
    ensures Pairs(Remove(block, es, k), Removed(es, k)) == Pairs(block, es)[..k] + Pairs(block, es)[k + 1..]
  {
    hide Record, NameOf, Remove, RecLenFor, Removed;
    JoinRecord(block, es, k, filetype, maxInode);
    var block', es' := Remove(block, es, k), Removed(es, k);
    RemovedAt(es, k, k - 1);
    forall j {:trigger es'[j]} | 0 <= j < |es'|
      ensures j != k - 1 ==> es'[j] == es[if j < k then j else j + 1]
      ensures Record(block', es'[j], filetype, maxInode)
      ensures PairOf(block', es'[j]) == if j < k then PairOf(block, es[j]) else PairOf(block, es[j + 1])
    {
      RemovedAt(es, k, j);
      if j < k - 1 {
        OthersKept(block, block', es, k - 1, j, filetype, maxInode);
      } else if j > k - 1 {
        OthersKept(block, block', es, k - 1, j + 1, filetype, maxInode);
      }
    }
    ChainJoin(es, es', k);
    PairsJoin(block, block', es, es', k);
  }

  lemma PairsJoin(block: Bytes, block': Bytes, es: seq<Entry>, es': seq<Entry>, k: nat)
    requires k < |es| && |es'| == |es| - 1
    requires forall j {:trigger es'[j]} :: 0 <= j < |es'| ==>
               PairOf(block', es'[j]) == if j < k then PairOf(block, es[j]) else PairOf(block, es[j + 1])
    ensures Pairs(block', es') == Pairs(block, es)[..k] + Pairs(block, es)[k + 1..]
  {
    hide PairOf;
    var ps, ps' := Pairs(block, es), Pairs(block', es');
    var want := ps[..k] + ps[k + 1..];
    forall j | 0 <= j < |ps'|
      ensures ps'[j] == want[j]
    {
      assert ps'[j] == PairOf(block', es'[j]);
      assert want[j] == if j < k then ps[j] else ps[j + 1];
    }
  }

  lemma ChainJoin(es: seq<Entry>, es': seq<Entry>, k: nat)
    requires Chained(es) && 0 < k < |es| && |es'| == |es| - 1
    requires forall j :: 0 <= j < |es'| && j != k - 1 ==> es'[j] == es[if j < k then j else j + 1]
    requires es'[k - 1].offset == es[k - 1].offset && es'[k - 1].End() == es[k].End()
    ensures Chained(es') && EndOf(es') == EndOf(es)
  {
  }

  /** A name removed: the block still parses, with the entries it had but that one. */
  lemma RemoveOk(block: Bytes, es: seq<Entry>, k: nat, filetype: bool, maxInode: nat)
    requires Lists(block, es, filetype, maxInode) && k < |es| && |block| <= U16_MAX && es[k].inode != 0
    requires DistinctNames(Pairs(block, es))
    ensures es[k].offset + HEADER <= |block|
    ensures k > 0 ==> es[k - 1].offset + HEADER <= |block| && es[k - 1].recLen + es[k].recLen <= U16_MAX
    ensures Lists(Remove(block, es, k), Removed(es, k), filetype, maxInode)
    ensures DistinctNames(Pairs(Remove(block, es, k), Removed(es, k)))
    ensures Listing(Pairs(Remove(block, es, k), Removed(es, k))) == Listing(Pairs(block, es)) - {NameOf(block, es[k])}
  {
    hide Record, NameOf, Listing, DistinctNames, Pairs;
    PairsAt(block, es, k);
    RecordFits(block, es[k], filetype, maxInode);
    if k > 0 {
      JoinPairs(block, es, k, filetype, maxInode);
      ListingRemove(Pairs(block, es), k);
    } else {
      RetargetPairs(block, es, 0, 0, None, filetype, maxInode);
      ListingClear(Pairs(block, es), 0, Pairs(block, es)[0].0);
    }
  }

  /** An entry retargeted: only its inode changes. */
  lemma RetargetOk(block: Bytes, es: seq<Entry>, k: nat, inode: u32, fileType: Option<byte>, filetype: bool,
        maxInode: nat)
    requires Lists(block, es, filetype, maxInode) && k < |es| && es[k].inode != 0 && es[k].offset + HEADER <= |block|
    requires 0 < inode <= maxInode && (fileType.Some? ==> filetype) && DistinctNames(Pairs(block, es))
    ensures var r := Retarget(block, es[k], inode, fileType);
            var es' := es[k := es[k].(inode := inode)];
            && Lists(r, es', filetype, maxInode) && DistinctNames(Pairs(r, es'))
            && Listing(Pairs(r, es')) == Listing(Pairs(block, es))[NameOf(block, es[k]) := inode]
  {
    hide Record, NameOf, Listing, DistinctNames, Pairs;
    PairsAt(block, es, k);
    RetargetPairs(block, es, k, inode, fileType, filetype, maxInode);
    ListingRetarget(Pairs(block, es), k, inode);
  }

  // ----- new blocks -----

  const DOT: Name := [46]
  const DOTDOT: Name := [46, 46]

  predicate Dotted(name: Name) {
    name == DOT || name == DOTDOT
  }

  /** An empty directory block: one unused entry covering it. */
  function InitEmpty(n: nat): (r: Bytes)
    requires HEADER <= n <= U16_MAX
    ensures |r| == n
  {
    SetRecLen(Zeros(n), 0, n)
  }

  /** A new directory's first block: `.` and `..`. */
  function InitDir(n: nat, inode: u32, parent: u32, filetype: bool): (r: Bytes)
    requires 24 <= n <= U16_MAX
    ensures |r| == n
  {
    TwoDots(n, 12, inode, parent, filetype)
  }

  /** A first block with `.` in a record of `dotLen` bytes and `..` in the rest. */
  function TwoDots(n: nat, dotLen: nat, inode: u32, parent: u32, filetype: bool): (r: Bytes)
    requires 12 <= dotLen && dotLen + 12 <= n <= U16_MAX
    ensures |r| == n
  {
    var t := if filetype then Some(TypeByte(Directory)) else None;
    Put(Put(Zeros(n), 0, dotLen, DOT, inode, t), dotLen, n - dotLen, DOTDOT, parent, t)
  }

  lemma InitEmptyOk(n: nat, filetype: bool, maxInode: nat)
    requires HEADER <= n <= U16_MAX && n % 4 == 0
    ensures var es := [Entry(0, 0, n, 0)];
            && Lists(InitEmpty(n), es, filetype, maxInode)
            && DistinctNames(Pairs(InitEmpty(n), es)) && Listing(Pairs(InitEmpty(n), es)) == map[]
  {
    var r := InitEmpty(n);
    var e := Entry(0, 0, n, 0);
    assert forall i :: 0 <= i < 4 ==> r[i] == 0;
    assert U32At(r, 0) == 0 && NameLenAt(r, 0, filetype) == 0;
    assert Record(r, e, filetype, maxInode);
    var ps := Pairs(r, [e]);
    assert ps[0].1 == 0;
    assert ps[..0] == [];
  }

  lemma TwoDotsOk(n: nat, dotLen: nat, inode: u32, parent: u32, filetype: bool, maxInode: nat)
    requires 12 <= dotLen && dotLen + 12 <= n <= U16_MAX && n % 4 == 0 && dotLen % 4 == 0
    requires 0 < inode <= maxInode && 0 < parent <= maxInode
    ensures var es := [Entry(0, inode, dotLen, 1), Entry(dotLen, parent, n - dotLen, 2)];
            var block := TwoDots(n, dotLen, inode, parent, filetype);
            && Lists(block, es, filetype, maxInode) && Pairs(block, es) == [(DOT, inode), (DOTDOT, parent)]
            && DistinctNames(Pairs(block, es)) && Listing(Pairs(block, es)) == map[DOT := inode, DOTDOT := parent]
  {
    hide Record, NameOf, Put;
    var t := if filetype then Some(TypeByte(Directory)) else None;
    var first := Put(Zeros(n), 0, dotLen, DOT, inode, t);
    var block := TwoDots(n, dotLen, inode, parent, filetype);
    PutRecord(Zeros(n), 0, dotLen, DOT, inode, t, filetype, maxInode);
    PutRecord(first, dotLen, n - dotLen, DOTDOT, parent, t, filetype, maxInode);
    RecordKept(first, block, Entry(0, inode, dotLen, 1), filetype, maxInode);
    var es := [Entry(0, inode, dotLen, 1), Entry(dotLen, parent, n - dotLen, 2)];
    assert Pairs(block, es) == [(DOT, inode), (DOTDOT, parent)];
    ListingTwo(DOT, inode, DOTDOT, parent);
  }

  lemma InitDirOk(n: nat, inode: u32, parent: u32, filetype: bool, maxInode: nat)
    requires 24 <= n <= U16_MAX && n % 4 == 0 && 0 < inode <= maxInode && 0 < parent <= maxInode
    ensures var es := [Entry(0, inode, 12, 1), Entry(12, parent, n - 12, 2)];
            var block := InitDir(n, inode, parent, filetype);
            && Lists(block, es, filetype, maxInode) && Pairs(block, es) == [(DOT, inode), (DOTDOT, parent)]
            && DistinctNames(Pairs(block, es)) && Listing(Pairs(block, es)) == map[DOT := inode, DOTDOT := parent]
  {
    hide TwoDots, Lists, Pairs, DistinctNames, Listing;
    TwoDotsOk(n, 12, inode, parent, filetype, maxInode);
  }

  lemma ListingTwo(a: Name, x: nat, b: Name, y: nat)
    requires a != b && x != 0 && y != 0
    ensures DistinctNames([(a, x), (b, y)]) && Listing([(a, x), (b, y)]) == map[a := x, b := y]
  {
    var ps := [(a, x), (b, y)];
    assert ps[..1] == [(a, x)];
    assert ps[..0] == [];
    assert Listing(ps[..1]) == map[a := x];
  }

  // ----- names and where they may stand -----

  const SLASH: byte := 47

  /** What `check_names` asks of a used entry: a name without `/` or NUL, `.` and `..` only as the
      first two entries of a directory's first block. */
  predicate GoodName(name: Name, k: nat, firstBlock: bool) {
    && name != [] && SLASH !in name && 0 !in name
    && (name == DOT ==> firstBlock && k == 0)
    && (name == DOTDOT ==> firstBlock && k == 1)
  }

  ghost predicate NamesOk(ps: seq<(Name, nat)>, firstBlock: bool) {
    forall k :: Used(ps, k) ==> GoodName(ps[k].0, k, firstBlock)
  }

  /** `check_names` */
  method CheckNames(block: Bytes, es: seq<Entry>, firstBlock: bool) returns (ok: bool)
    ensures ok <==> NamesOk(Pairs(block, es), firstBlock)
  {
    ghost var ps := Pairs(block, es);
    for k := 0 to |es|
      invariant forall j :: 0 <= j < k && Used(ps, j) ==> GoodName(ps[j].0, j, firstBlock)
    {
      assert ps[k] == PairOf(block, es[k]);
      if es[k].inode != 0 && !GoodName(NameOf(block, es[k]), k, firstBlock) {
        assert Used(ps, k);
        return false;
      }
    }
    return true;
  }

  /** A directory's first block as this driver keeps it: `.` in a record of its own size, then
      `..`. */
  ghost predicate Dots(block: Bytes, es: seq<Entry>, inode: nat, parent: nat) {
    && |es| >= 2 && PairOf(block, es[0]) == (DOT, inode) && PairOf(block, es[1]) == (DOTDOT, parent)
    && es[0].recLen == RecLenFor(1) && es[0].nameLen == 1 && es[1].nameLen == 2
    && inode != 0 && parent != 0
  }

  // ----- every block this driver makes -----

  /** A block has one list of entries. */
  lemma ListsOnce(block: Bytes, a: seq<Entry>, b: seq<Entry>, filetype: bool, maxInode: nat)
    requires Lists(block, a, filetype, maxInode) && Lists(block, b, filetype, maxInode)
    ensures a == b
  {
    hide Record;
    PrefixOfLists(block, a, b, |a|, filetype, maxInode);
    if |a| < |b| {
      RecordSize(block, b[|a|], filetype, maxInode);
      if a != [] {
        assert b[|a| - 1] == a[|a| - 1];
      }
      EndsBefore(b, |a|);
    }
  }

  lemma RecordSize(block: Bytes, e: Entry, filetype: bool, maxInode: nat)
    requires Record(block, e, filetype, maxInode)
    ensures e.recLen >= HEADER
  {
  }

  lemma EndsBefore(es: seq<Entry>, k: nat)
    requires Chained(es) && k < |es|
    ensures es[k].End() <= EndOf(es)
  {
    if k < |es| - 1 { Ordered(es, k, |es| - 1); }
  }

  lemma {:induction false} PrefixOfLists(block: Bytes, a: seq<Entry>, b: seq<Entry>, n: nat, filetype: bool,
        maxInode: nat)
    requires Lists(block, a, filetype, maxInode) && Lists(block, b, filetype, maxInode) && n <= |a|
    ensures n <= |b| && a[..n] == b[..n]
  {
    if n > 0 {
      PrefixOfLists(block, a, b, n - 1, filetype, maxInode);
      var prefix := a[..n - 1];
      var e := a[n - 1];
      EndsBefore(a, n - 1);
      assert e.offset == EndOf(prefix) by {
        if n > 1 { assert prefix[n - 2] == a[n - 2]; }
      }
      NextIs(block, prefix, b, filetype, maxInode);
      assert b[n - 1] == e;
    }
  }

  /** A sound directory block; `dots` are the inodes of `.` and `..` in a first block. */
  ghost predicate Sound(block: Bytes, es: seq<Entry>, dots: Option<(nat, nat)>, filetype: bool, maxInode: nat) {
    && Lists(block, es, filetype, maxInode)
    && DistinctNames(Pairs(block, es)) && NamesOk(Pairs(block, es), dots.Some?)
    && (dots.Some? ==> Dots(block, es, dots.value.0, dots.value.1))
  }

  /** An ordinary name: not `.` or `..`. */
  predicate Ordinary(name: Name) {
    name != [] && |name| <= 255 && SLASH !in name && 0 !in name && name != DOT && name != DOTDOT
  }

  lemma SoundEmpty(n: nat, filetype: bool, maxInode: nat)
    requires HEADER <= n <= U16_MAX && n % 4 == 0
    ensures Sound(InitEmpty(n), [Entry(0, 0, n, 0)], None, filetype, maxInode)
  {
    InitEmptyOk(n, filetype, maxInode);
  }

  lemma SoundDir(n: nat, inode: u32, parent: u32, filetype: bool, maxInode: nat)
    requires 24 <= n <= U16_MAX && n % 4 == 0 && 0 < inode <= maxInode && 0 < parent <= maxInode
    ensures Sound(InitDir(n, inode, parent, filetype), [Entry(0, inode, 12, 1), Entry(12, parent, n - 12, 2)],
            Some((inode, parent)), filetype, maxInode)
  {
    hide InitDir, NameOf;
    InitDirOk(n, inode, parent, filetype, maxInode);
    var es := [Entry(0, inode, 12, 1), Entry(12, parent, n - 12, 2)];
    var block := InitDir(n, inode, parent, filetype);
    PairsAt(block, es, 0);
    PairsAt(block, es, 1);
  }

  /** `.` in a record of its own size never has room, so the place found is after it. */
  lemma DotFull(block: Bytes, es: seq<Entry>, inode: nat, parent: nat, n: nat)
    requires Dots(block, es, inode, parent)
    ensures !HasRoom(es[0], n)
  {
  }

  /** Inserting an ordinary name where `Room` found room keeps the block sound. */
  lemma SoundInsert(block: Bytes, es: seq<Entry>, dots: Option<(nat, nat)>, k: nat, name: Name, inode: u32,
        fileType: Option<byte>, filetype: bool, maxInode: nat)
    requires Sound(block, es, dots, filetype, maxInode) && k < |es| && CanInsert(block, es[k], name)
    requires Ordinary(name) && 0 < inode <= maxInode && (fileType.Some? <==> filetype)
             && name !in Listing(Pairs(block, es))
    ensures var block' := Insert(block, es[k], name, inode, fileType);
            var es' := Inserted(es, k, |name|, inode);
            && Sound(block', es', dots, filetype, maxInode)
            && Listing(Pairs(block', es')) == Listing(Pairs(block, es))[name := inode]
  {
    hide Record, NameOf, Listing, DistinctNames, Pairs, Insert, Lists, RecLenFor;
    InsertOk(block, es, k, name, inode, fileType, filetype, maxInode);
    var block' := Insert(block, es[k], name, inode, fileType);
    var es' := Inserted(es, k, |name|, inode);
    PairsAt(block, es, k);
    if dots.Some? {
      DotFull(block, es, dots.value.0, dots.value.1, |name|);
      PairsAt(block, es, 0);
      PairsAt(block, es, 1);
    }
    if es[k].inode == 0 {
      InsertReuse(block, es, k, name, inode, fileType, filetype, maxInode);
    } else {
      InsertSplit(block, es, k, name, inode, fileType, filetype, maxInode);
    }
    assert NamesOk(Pairs(block', es'), dots.Some?) by {
      NamesInserted(Pairs(block, es), Pairs(block', es'), k, name, inode, dots.Some?);
    }
    if dots.Some? {
      PairsAt(block', es', 0);
      PairsAt(block', es', 1);
    }
  }

  lemma NamesInserted(ps: seq<(Name, nat)>, ps': seq<(Name, nat)>, k: nat, name: Name, inode: nat, firstBlock: bool)
    requires NamesOk(ps, firstBlock) && Ordinary(name) && k < |ps|
    requires ps' == if ps[k].1 == 0 then ps[k := (name, inode)] else ps[..k + 1] + [(name, inode)] + ps[k + 1..]
    requires firstBlock && ps[k].1 != 0 ==> k >= 1
    requires firstBlock ==> |ps| >= 2 && Used(ps, 0) && Used(ps, 1)
    ensures NamesOk(ps', firstBlock)
  {
    if ps[k].1 != 0 {
      forall j | Used(ps', j)
        ensures GoodName(ps'[j].0, j, firstBlock)
      {
        if j <= k {
          assert ps'[j] == ps[j] && Used(ps, j);
        } else if j > k + 1 {
          assert ps'[j] == ps[j - 1] && Used(ps, j - 1);
        }
      }
    } else {
      forall j | Used(ps', j)
        ensures GoodName(ps'[j].0, j, firstBlock)
      {
        if j != k { assert Used(ps, j); }
      }
    }
  }

  /** Removing an ordinary name keeps the block sound. */
  lemma SoundRemove(block: Bytes, es: seq<Entry>, dots: Option<(nat, nat)>, k: nat, filetype: bool, maxInode: nat)
    requires Sound(block, es, dots, filetype, maxInode) && k < |es| && |block| <= U16_MAX && es[k].inode != 0
    requires Ordinary(NameOf(block, es[k]))
    ensures es[k].offset + HEADER <= |block|
    ensures k > 0 ==> es[k - 1].offset + HEADER <= |block| && es[k - 1].recLen + es[k].recLen <= U16_MAX
    ensures Sound(Remove(block, es, k), Removed(es, k), dots, filetype, maxInode)
    ensures Listing(Pairs(Remove(block, es, k), Removed(es, k))) == Listing(Pairs(block, es)) - {NameOf(block, es[k])}
  {
    hide Record, NameOf, Listing, DistinctNames, Pairs, Lists, RecLenFor, Remove;
    RemoveOk(block, es, k, filetype, maxInode);
    PairsAt(block, es, k);
    var block', es' := Remove(block, es, k), Removed(es, k);
    if dots.Some? {
      PairsAt(block, es, 0);
      PairsAt(block, es, 1);
      assert k >= 2;
      PairsAt(block', es', 0);
      PairsAt(block', es', 1);
    }
    if k > 0 {
      JoinPairs(block, es, k, filetype, maxInode);
      NamesJoined(Pairs(block, es), k, dots.Some?);
    } else {
      ClearPairs(block, es, filetype, maxInode);
      NamesCleared(Pairs(block, es), 0, dots.Some?);
    }
  }

  lemma ClearPairs(block: Bytes, es: seq<Entry>, filetype: bool, maxInode: nat)
    requires Lists(block, es, filetype, maxInode) && 0 < |es| && es[0].offset + HEADER <= |block|
    ensures Pairs(Remove(block, es, 0), Removed(es, 0)) == Pairs(block, es)[0 := (Pairs(block, es)[0].0, 0)]
  {
    hide Record, NameOf, Pairs;
    RetargetPairs(block, es, 0, 0, None, filetype, maxInode);
  }

  lemma NamesJoined(ps: seq<(Name, nat)>, k: nat, firstBlock: bool)
    requires NamesOk(ps, firstBlock) && 0 < k < |ps| && (firstBlock ==> k >= 2)
    requires firstBlock ==> |ps| >= 2 && Used(ps, 0) && Used(ps, 1)
    ensures NamesOk(ps[..k] + ps[k + 1..], firstBlock)
  {
    var ps' := ps[..k] + ps[k + 1..];
    forall j | Used(ps', j)
      ensures GoodName(ps'[j].0, j, firstBlock)
    {
      assert ps'[j] == ps[if j < k then j else j + 1] && Used(ps, if j < k then j else j + 1);
    }
  }

  lemma NamesCleared(ps: seq<(Name, nat)>, k: nat, firstBlock: bool)
    requires NamesOk(ps, firstBlock) && k < |ps|
    ensures NamesOk(ps[k := (ps[k].0, 0)], firstBlock)
  {
    forall j | Used(ps[k := (ps[k].0, 0)], j)
      ensures GoodName(ps[j].0, j, firstBlock)
    {
      assert Used(ps, j);
    }
  }

  /** Retargeting an entry keeps the block sound; the inode of `..` is its second entry's. */
  lemma SoundRetarget(block: Bytes, es: seq<Entry>, dots: Option<(nat, nat)>, k: nat, inode: u32,
        fileType: Option<byte>, filetype: bool, maxInode: nat)
    requires Sound(block, es, dots, filetype, maxInode) && k < |es| && es[k].inode != 0 && (dots.Some? ==> k > 0)
    requires 0 < inode <= maxInode && (fileType.Some? ==> filetype) && es[k].offset + HEADER <= |block|
    ensures var block' := Retarget(block, es[k], inode, fileType);
            var es' := es[k := es[k].(inode := inode)];
            && Sound(block', es', if dots.Some? && k == 1 then Some((dots.value.0, inode))
               else dots, filetype, maxInode)
            && Listing(Pairs(block', es')) == Listing(Pairs(block, es))[NameOf(block, es[k]) := inode]
  {
    hide Record, NameOf, Listing, DistinctNames, Pairs, Lists, RecLenFor, Retarget;
    RetargetOk(block, es, k, inode, fileType, filetype, maxInode);
    RetargetPairs(block, es, k, inode, fileType, filetype, maxInode);
    PairsAt(block, es, k);
    var block', es' := Retarget(block, es[k], inode, fileType), es[k := es[k].(inode := inode)];
    var ps := Pairs(block, es);
    forall j | Used(Pairs(block', es'), j)
      ensures GoodName(Pairs(block', es')[j].0, j, dots.Some?)
    {
      assert Used(ps, j);
    }
    if dots.Some? {
      PairsAt(block, es, 0);
      PairsAt(block, es, 1);
      PairsAt(block', es', 0);
      PairsAt(block', es', 1);
    }
  }

  /** A first block with `.` and `..` first, whatever the length of their records: the driver's own
      `.` record has no room to spare, a foreign one may. */
  ghost predicate LooseDots(block: Bytes, es: seq<Entry>, inode: nat, parent: nat) {
    && |es| >= 2 && PairOf(block, es[0]) == (DOT, inode) && PairOf(block, es[1]) == (DOTDOT, parent)
    && inode != 0 && parent != 0
  }

  /** Inserting where `Room` looks keeps `..` in its place if and only if the `.` record has no room
      for the name: with room there, the new name lands between `.` and `..`, and the block no
      longer passes `check_names`. */
  lemma DotsKeptIff(block: Bytes, es: seq<Entry>, inode: nat, parent: nat, k: nat, name: Name, target: u32,
        fileType: Option<byte>, filetype: bool, maxInode: nat)
    requires Lists(block, es, filetype, maxInode) && NamesOk(Pairs(block, es), true)
             && LooseDots(block, es, inode, parent)
    requires k < |es| && CanInsert(block, es[k], name) && forall j :: 0 <= j < k ==> !HasRoom(es[j], |name|)
    requires Ordinary(name) && 0 < target <= maxInode && (fileType.Some? <==> filetype)
    ensures var block' := Insert(block, es[k], name, target, fileType);
            var es' := Inserted(es, k, |name|, target);
            NamesOk(Pairs(block', es'), true) <==> !HasRoom(es[0], |name|)
  {
    hide Record, NameOf, Pairs, Lists, RecLenFor, Insert, Inserted;
    PairsAt(block, es, k);
    PairsAt(block, es, 0);
    PairsAt(block, es, 1);
    var ps := Pairs(block, es);
    if es[k].inode == 0 {
      InsertReuse(block, es, k, name, target, fileType, filetype, maxInode);
      NamesInserted(ps, ps[k := (name, target)], k, name, target, true);
    } else {
      InsertSplit(block, es, k, name, target, fileType, filetype, maxInode);
      var ps' := ps[..k + 1] + [(name, target)] + ps[k + 1..];
      if k == 0 {
        assert ps'[2] == ps[1] && Used(ps', 2);
      } else {
        NamesInserted(ps, ps', k, name, target, true);
      }
    }
  }

  /** A foreign first block with 12 bytes to spare in its `.` record passes `check_names`; with a name
      inserted where `Room` looks it does not. */
  lemma DotDotMoved(filetype: bool)
    ensures var block := TwoDots(1024, 24, 2, 2, filetype);
            var es := [Entry(0, 2, 24, 1), Entry(24, 2, 1000, 2)];
            var fileType := if filetype then Some(TypeByte(Regular)) else None;
            && Lists(block, es, filetype, 24) && NamesOk(Pairs(block, es), true)
            && CanInsert(block, es[0], [97])
            && var block' := Insert(block, es[0], [97], 11, fileType);
            !NamesOk(Pairs(block', Inserted(es, 0, 1, 11)), true)
  {
    hide TwoDots, Lists, Insert, Inserted, Listing;
    var block := TwoDots(1024, 24, 2, 2, filetype);
    var es := [Entry(0, 2, 24, 1), Entry(24, 2, 1000, 2)];
    var fileType := if filetype then Some(TypeByte(Regular)) else None;
    TwoDotsOk(1024, 24, 2, 2, filetype, 24);
    assert Pairs(block, es)[0] == PairOf(block, es[0]) && Pairs(block, es)[1] == PairOf(block, es[1]);
    DotsKeptIff(block, es, 2, 2, 0, [97], 11, fileType, filetype, 24);
  }
}

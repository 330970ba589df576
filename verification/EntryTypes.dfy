/** The file type byte of directory entries (crates/ext2/src/dirent.rs), with the `filetype` feature: what each
    change to a directory block does to it. */
module EntryTypes {
  import opened Wrappers
  import opened Le
  import opened BlockPath
  import opened Volume
  import opened Dirent
  import opened Directory

  /** The entry named `name` in a block, if there is one, has type byte `t`. */
  ghost predicate TypedIn(geo: Geometry, block: Bytes, name: Name, t: byte) {
    forall k: nat :: IsNamed(geo, block, k, name) ==> TypeAt(block, Records(geo, block)[k]) == Some(t)
  }

  ghost predicate IsNamed(geo: Geometry, block: Bytes, k: nat, name: Name) {
    var es := Records(geo, block);
    k < |es| && es[k].inode != 0 && NameOf(block, es[k]) == name
  }

  function TypeAt(block: Bytes, e: Entry): Option<byte> {
    if e.offset + 7 < |block| then Some(block[e.offset + 7]) else None
  }

  /** The entry named `name` of directory `d`, of `n` blocks, has type byte `t`. */
  ghost predicate Typed(geo: Geometry, leaves: map<Loc, Bytes>, d: nat, n: nat, name: Name, t: byte)
    requires geo.Sane()
  {
    forall lb: nat :: lb < n ==> TypedIn(geo, BlockOf(geo, leaves, d, lb), name, t)
  }

  // ----- the byte itself -----

  /** Where `Insert` puts the new entry. */
  function NewAt(at: Entry): nat {
    if at.inode == 0 then at.offset else at.offset + RecLenFor(at.nameLen)
  }

  lemma RecordType(recLen: u16, name: Name, inode: u32, t: byte)
    requires |name| <= 255
    ensures |RecordBytes(recLen, name, inode, Some(t))| == HEADER + |name|
    ensures RecordBytes(recLen, name, inode, Some(t))[7] == t
  {
    hide Le32, Le16;
    var front := Le32(inode) + Le16(recLen);
    assert RecordBytes(recLen, name, inode, Some(t)) == front + [|name|, t] + name;
  }

  lemma InsertType(block: Bytes, at: Entry, name: Name, inode: u32, t: byte)
    requires CanInsert(block, at, name)
    ensures NewAt(at) + 7 < |block| && Insert(block, at, name, inode, Some(t))[NewAt(at) + 7] == t
  {
    hide RecordBytes;
    var keep := RecLenFor(at.nameLen);
    var recLen := if at.inode == 0 then at.recLen else at.recLen - keep;
    RecordType(recLen, name, inode, t);
  }

  /** The other entries keep theirs: `Insert` writes in the new record and, of the old one, the length. */
  lemma InsertKeeps(block: Bytes, at: Entry, name: Name, inode: u32, t: byte, o: nat)
    requires CanInsert(block, at, name) && o + 7 < |block|
    requires (at.inode != 0 && o == at.offset) || o + HEADER <= at.offset || at.End() <= o
    ensures Insert(block, at, name, inode, Some(t))[o + 7] == block[o + 7]
  {
    hide RecordBytes;
    var keep := RecLenFor(at.nameLen);
    RecordType(if at.inode == 0 then at.recLen else at.recLen - keep, name, inode, t);
  }

  // ----- one block -----

  /** A name the block does not have. */
  lemma NotNamed(geo: Geometry, block: Bytes, name: Name, k: nat)
    requires DistinctNames(Pairs(block, Records(geo, block))) && name !in BlockNames(geo, block)
    ensures !IsNamed(geo, block, k, name)
  {
    hide Records, Listing, NameOf;
    if IsNamed(geo, block, k, name) {
      PairsAt(block, Records(geo, block), k);
      ListingHas(Pairs(block, Records(geo, block)), k);
    }
  }

  /** No two entries have one name. */
  lemma NamedOnce(geo: Geometry, block: Bytes, name: Name, j: nat, k: nat)
    requires DistinctNames(Pairs(block, Records(geo, block)))
    requires IsNamed(geo, block, j, name) && IsNamed(geo, block, k, name)
    ensures j == k
  {
    hide Records, NameOf;
    PairsAt(block, Records(geo, block), j);
    PairsAt(block, Records(geo, block), k);
  }

  /** What follows when entry `i` of `block` is entry `j` of `block'`, with its name, inode and type. */
  ghost predicate Same(block: Bytes, e: Entry, block': Bytes, e': Entry) {
    PairOf(block', e') == PairOf(block, e) && TypeAt(block', e') == TypeAt(block, e)
  }

  lemma Carried(geo: Geometry, block: Bytes, block': Bytes, name: Name, t: byte, fresh_: set<nat>)
    requires TypedIn(geo, block, name, t)
    requires forall j: nat :: IsNamed(geo, block', j, name) && j !in fresh_ ==>
               exists i: nat :: i < |Records(geo, block)|
                   && Same(block, Records(geo, block)[i], block', Records(geo, block')[j])
    requires forall j: nat :: j in fresh_ ==> !IsNamed(geo, block', j, name)
    ensures TypedIn(geo, block', name, t)
  {
    hide Records, NameOf;
    forall j: nat | IsNamed(geo, block', j, name)
      ensures TypeAt(block', Records(geo, block')[j]) == Some(t)
    {
      var i: nat :| i < |Records(geo, block)| && Same(block, Records(geo, block)[i], block', Records(geo, block')[j]);
      assert IsNamed(geo, block, i, name);
    }
  }

  /** Where the records of a block lie. */
  lemma Apart(block: Bytes, es: seq<Entry>, k: nat, j: nat, filetype: bool, maxInode: nat)
    requires Lists(block, es, filetype, maxInode) && k < |es| && j < |es| && j != k
    ensures es[j].offset + HEADER <= es[j].End() <= |block| && es[k].offset + HEADER <= es[k].End() <= |block|
    ensures es[j].offset + HEADER <= es[k].offset || es[k].End() <= es[j].offset
  {
    hide Record;
    RecordFits(block, es[j], filetype, maxInode);
    RecordFits(block, es[k], filetype, maxInode);
    if j < k { Ordered(es, j, k); } else { Ordered(es, k, j); }
  }

  /** The new entry of an insertion has the type it was given; the others keep theirs. */
  lemma InsertTyped(geo: Geometry, block: Bytes, k: nat, name: Name, inode: u32, t: byte, m: Name, u: byte)
    requires geo.filetype && Lists(block, Records(geo, block), true, geo.inodesCount) && k < |Records(geo, block)|
    requires DistinctNames(Pairs(block, Records(geo, block))) && name !in BlockNames(geo, block)
    requires CanInsert(block, Records(geo, block)[k], name) && 0 < inode <= geo.inodesCount
    requires m != name ==> TypedIn(geo, block, m, u)
    ensures var block' := Insert(block, Records(geo, block)[k], name, inode, Some(t));
            TypedIn(geo, block', name, t) && (m != name ==> TypedIn(geo, block', m, u))
  {
    hide Records, NameOf, Insert, Inserted, Listing, Record, HasRoom;
    var es := Records(geo, block);
    var block', es' := Insert(block, es[k], name, inode, Some(t)), Inserted(es, k, |name|, inode);
    InsertOk(block, es, k, name, inode, Some(t), true, geo.inodesCount);
    RecordsAre(geo, block', es');
    var new_ := if es[k].inode == 0 then k else k + 1;
    NewNamed(block, es, k, name, inode, t, geo.inodesCount);
    InsertType(block, es[k], name, inode, t);
    forall j: nat | IsNamed(geo, block', j, name)
      ensures TypeAt(block', es'[j]) == Some(t)
    {
      NamedOnce(geo, block', name, j, new_);
    }
    if m != name {
      forall j: nat | IsNamed(geo, block', j, m) && j !in {new_}
        ensures exists i: nat :: i < |es| && Same(block, es[i], block', es'[j])
      {
        OldSame(block, es, k, name, inode, t, geo.inodesCount, j);
      }
      Carried(geo, block, block', m, u, {new_});
    }
  }

  lemma NewNamed(block: Bytes, es: seq<Entry>, k: nat, name: Name, inode: u32, t: byte, maxInode: nat)
    requires Lists(block, es, true, maxInode) && k < |es| && CanInsert(block, es[k], name) && 0 < inode <= maxInode
    ensures var block', es' := Insert(block, es[k], name, inode, Some(t)), Inserted(es, k, |name|, inode);
            var new_ := if es[k].inode == 0 then k else k + 1;
            new_ < |es'| && es'[new_].inode == inode && NameOf(block', es'[new_]) == name
                && es'[new_].offset == NewAt(es[k])
  {
    hide NameOf, Insert, Record, Pairs;
    var block', es' := Insert(block, es[k], name, inode, Some(t)), Inserted(es, k, |name|, inode);
    if es[k].inode == 0 {
      InsertReuse(block, es, k, name, inode, Some(t), true, maxInode);
      PairsAt(block', es', k);
    } else {
      InsertSplit(block, es, k, name, inode, Some(t), true, maxInode);
      InsertedAt(es, k, |name|, inode, k + 1);
      PairsAt(block', es', k + 1);
    }
  }

  lemma OldSame(block: Bytes, es: seq<Entry>, k: nat, name: Name, inode: u32, t: byte, maxInode: nat, j: nat)
    requires Lists(block, es, true, maxInode) && k < |es| && CanInsert(block, es[k], name) && 0 < inode <= maxInode
    requires j < |Inserted(es, k, |name|, inode)| && j != (if es[k].inode == 0 then k else k + 1)
    ensures var block', es' := Insert(block, es[k], name, inode, Some(t)), Inserted(es, k, |name|, inode);
            exists i: nat :: i < |es| && Same(block, es[i], block', es'[j])
  {
    hide NameOf, Insert, Record, RecLenFor, HasRoom, Same;
    if es[k].inode == 0 {
      ReuseSame(block, es, k, name, inode, t, maxInode, j);
    } else {
      InsertedAt(es, k, |name|, inode, j);
      SplitSame(block, es, k, name, inode, t, maxInode, j);
    }
  }

  lemma ReuseSame(block: Bytes, es: seq<Entry>, k: nat, name: Name, inode: u32, t: byte, maxInode: nat, j: nat)
    requires Lists(block, es, true, maxInode) && k < |es| && CanInsert(block, es[k], name) && 0 < inode <= maxInode
    requires es[k].inode == 0 && j < |es| && j != k
    ensures Same(block, es[j], Insert(block, es[k], name, inode, Some(t)), Inserted(es, k, |name|, inode)[j])
  {
    hide NameOf, Insert, Record, RecLenFor, HasRoom;
    var block', es' := Insert(block, es[k], name, inode, Some(t)), Inserted(es, k, |name|, inode);
    InsertReuse(block, es, k, name, inode, Some(t), true, maxInode);
    Apart(block, es, k, j, true, maxInode);
    assert Pairs(block', es')[j] == Pairs(block, es)[j];
    assert PairOf(block', es'[j]) == PairOf(block, es[j]);
    InsertKeeps(block, es[k], name, inode, t, es[j].offset);
  }

  lemma SplitSame(block: Bytes, es: seq<Entry>, k: nat, name: Name, inode: u32, t: byte, maxInode: nat, j: nat)
    requires Lists(block, es, true, maxInode) && k < |es| && CanInsert(block, es[k], name) && 0 < inode <= maxInode
    requires es[k].inode != 0 && j <= |es| && j != k + 1
    ensures |Inserted(es, k, |name|, inode)| == |es| + 1
    ensures Same(block, es[if j <= k then j else j - 1], Insert(block, es[k], name, inode, Some(t)),
                 Inserted(es, k, |name|, inode)[j])
  {
    hide NameOf, Insert, Record, HasRoom, Inserted;
    var block', es' := Insert(block, es[k], name, inode, Some(t)), Inserted(es, k, |name|, inode);
    var i := if j <= k then j else j - 1;
    InsertSplit(block, es, k, name, inode, Some(t), true, maxInode);
    InsertedAt(es, k, |name|, inode, j);
    RecordFits(block, es[k], true, maxInode);
    if i != k { Apart(block, es, k, i, true, maxInode); }
    assert Pairs(block', es')[j] == Pairs(block, es)[i];
    assert PairOf(block', es'[j]) == PairOf(block, es[i]);
    InsertKeeps(block, es[k], name, inode, t, es[i].offset);
  }

  /** A retargeted entry has the type it was given; the others keep theirs. */
  lemma RetargetTyped(geo: Geometry, block: Bytes, k: nat, inode: u32, t: byte, m: Name, u: byte)
    requires geo.filetype && Lists(block, Records(geo, block), true, geo.inodesCount) && k < |Records(geo, block)|
    requires DistinctNames(Pairs(block, Records(geo, block))) && Records(geo, block)[k].inode != 0
    requires Records(geo, block)[k].offset + HEADER <= |block| && 0 < inode <= geo.inodesCount
    requires m != NameOf(block, Records(geo, block)[k]) ==> TypedIn(geo, block, m, u)
    ensures var name := NameOf(block, Records(geo, block)[k]);
            var block' := Retarget(block, Records(geo, block)[k], inode, Some(t));
            TypedIn(geo, block', name, t) && (m != name ==> TypedIn(geo, block', m, u))
  {
    hide Records, NameOf, Retarget, Listing, Record;
    var es := Records(geo, block);
    var name, block', es' := NameOf(block, es[k]), Retarget(block, es[k], inode, Some(t)),
        es[k := es[k].(inode := inode)];
    RetargetOk(block, es, k, inode, Some(t), true, geo.inodesCount);
    RetargetPairs(block, es, k, inode, Some(t), true, geo.inodesCount);
    RecordsAre(geo, block', es');
    PairsAt(block', es', k);
    RetargetBytes(block, es, k, inode, t, geo.inodesCount, k);
    forall j: nat | IsNamed(geo, block', j, name)
      ensures TypeAt(block', es'[j]) == Some(t)
    {
      NamedOnce(geo, block', name, j, k);
    }
    if m != name {
      forall j: nat | IsNamed(geo, block', j, m) && j !in {k}
        ensures exists i: nat :: i < |es| && Same(block, es[i], block', es'[j])
      {
        RetargetBytes(block, es, k, inode, t, geo.inodesCount, j);
        assert Pairs(block', es')[j] == Pairs(block, es)[j];
        assert Same(block, es[j], block', es'[j]);
      }
      Carried(geo, block, block', m, u, {k});
    }
  }

  lemma RetargetBytes(block: Bytes, es: seq<Entry>, k: nat, inode: u32, t: byte, maxInode: nat, j: nat)
    requires Lists(block, es, true, maxInode) && k < |es| && j < |es| && es[k].offset + HEADER <= |block|
    ensures var block' := Retarget(block, es[k], inode, Some(t));
            TypeAt(block', es[j]) == if j == k then Some(t) else TypeAt(block, es[j])
  {
    hide Record;
    if j != k { Apart(block, es, k, j, true, maxInode); }
  }

  /** Removing an entry, the others keep their types. */
  lemma RemoveTyped(geo: Geometry, block: Bytes, k: nat, m: Name, u: byte)
    requires geo.filetype && Lists(block, Records(geo, block), true, geo.inodesCount) && k < |Records(geo, block)|
    requires DistinctNames(Pairs(block, Records(geo, block))) && Records(geo, block)[k].inode != 0 && |block| <= U16_MAX
    requires TypedIn(geo, block, m, u)
    ensures Records(geo, block)[k].offset + HEADER <= |block|
    ensures k > 0 ==> Records(geo, block)[k - 1].offset + HEADER <= |block|
                      && Records(geo, block)[k - 1].recLen + Records(geo, block)[k].recLen <= U16_MAX
    ensures TypedIn(geo, Remove(block, Records(geo, block), k), m, u)
  {
    hide Records, NameOf, Remove, Removed, Listing, Record;
    var es := Records(geo, block);
    RemoveOk(block, es, k, true, geo.inodesCount);
    var block', es' := Remove(block, es, k), Removed(es, k);
    RecordsAre(geo, block', es');
    forall j: nat | IsNamed(geo, block', j, m) && j !in {}
      ensures exists i: nat :: i < |es| && Same(block, es[i], block', es'[j])
    {
      RemoveSame(block, es, k, geo.inodesCount, j);
    }
    Carried(geo, block, block', m, u, {});
  }

  lemma RemoveSame(block: Bytes, es: seq<Entry>, k: nat, maxInode: nat, j: nat)
    requires Lists(block, es, true, maxInode) && k < |es| && |block| <= U16_MAX
    requires es[k].offset + HEADER <= |block|
    requires k > 0 ==> es[k - 1].offset + HEADER <= |block| && es[k - 1].recLen + es[k].recLen <= U16_MAX
    requires j < |Removed(es, k)| && Removed(es, k)[j].inode != 0
    ensures exists i: nat :: i < |es| && Same(block, es[i], Remove(block, es, k), Removed(es, k)[j])
  {
    hide NameOf, Record, Remove, Removed, Same;
    if k == 0 {
      ClearSame(block, es, maxInode, j);
    } else {
      JoinSame(block, es, k, maxInode, j);
    }
  }

  lemma ClearSame(block: Bytes, es: seq<Entry>, maxInode: nat, j: nat)
    requires Lists(block, es, true, maxInode) && 0 < |es| && es[0].offset + HEADER <= |block|
    requires j < |Removed(es, 0)| && Removed(es, 0)[j].inode != 0
    ensures j < |es| && Same(block, es[j], Remove(block, es, 0), Removed(es, 0)[j])
  {
    hide NameOf, Record;
    var block', es' := Remove(block, es, 0), Removed(es, 0);
    RetargetPairs(block, es, 0, 0, None, true, maxInode);
    Apart(block, es, 0, j, true, maxInode);
    assert Pairs(block', es')[j] == Pairs(block, es)[j];
    assert PairOf(block', es'[j]) == PairOf(block, es[j]);
  }

  lemma JoinSame(block: Bytes, es: seq<Entry>, k: nat, maxInode: nat, j: nat)
    requires Lists(block, es, true, maxInode) && 0 < k < |es| && |block| <= U16_MAX && j < |Removed(es, k)|
    ensures es[k - 1].offset + HEADER <= |block| && es[k].offset + HEADER <= |block|
            && es[k - 1].recLen + es[k].recLen <= U16_MAX
    ensures exists i: nat :: i < |es| && Same(block, es[i], Remove(block, es, k), Removed(es, k)[j])
  {
    hide NameOf, Record, Removed;
    JoinPairs(block, es, k, true, maxInode);
    var block', es' := Remove(block, es, k), Removed(es, k);
    RemovedAt(es, k, 0);
    RemovedAt(es, k, j);
    var i := if j < k then j else j + 1;
    assert Pairs(block', es')[j] == Pairs(block, es)[i];
    assert PairOf(block', es'[j]) == PairOf(block, es[i]);
    JoinBytes(block, es, k, maxInode, i);
    assert Same(block, es[i], block', es'[j]);
  }

  lemma JoinBytes(block: Bytes, es: seq<Entry>, k: nat, maxInode: nat, i: nat)
    requires Lists(block, es, true, maxInode) && 0 < k < |es| && i < |es| && es[k].offset + HEADER <= |block|
    requires es[k - 1].offset + HEADER <= |block| && es[k - 1].recLen + es[k].recLen <= U16_MAX
    ensures TypeAt(Remove(block, es, k), es[i]) == TypeAt(block, es[i])
  {
    hide Record;
    if i != k - 1 { Apart(block, es, k - 1, i, true, maxInode); }
  }
}

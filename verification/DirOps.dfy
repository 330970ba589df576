/** Directories of a volume (crates/ext2/src/dir.rs): finding, adding and removing entries. */
module DirOps {
  import opened Wrappers
  import opened Le
  import opened Arith
  import Sets
  import opened BlockPath
  import opened FileLimit
  import opened Volume
  import opened Allocator
  import opened Trees
  import opened BlockMap
  import opened Freeing
  import opened FileData
  import opened FileOps
  import Dirent
  import opened Directory

  /** `dir`, as the operation in progress has it, is a sound directory with `up` as its `..`. */
  ghost predicate DirAt(fs: Ext2, dir: Inode, up: nat)
    reads fs
  {
    && fs.geo.Sane() && Mapped(fs) && dir.ino in fs.live && fs.live[dir.ino] == dir && dir.HasTree()
    && Times(Lb(fs.geo, dir.size), fs.geo.blockSize) == dir.size
    && DirOk(fs.geo, Leaves(fs.disk, fs.tree), dir.ino, Lb(fs.geo, dir.size), up)
  }

  /** The names in `dir`. */
  ghost function NamesOf(fs: Ext2, dir: Inode): map<Dirent.Name, nat>
    requires fs.geo.Sane()
    reads fs
  {
    DirNames(fs.geo, Leaves(fs.disk, fs.tree), dir.ino, Lb(fs.geo, dir.size))
  }

  // ----- scan_dir -----

  /** Each block of a directory is mapped. */
  lemma DirLeaf(geo: Geometry, disk: map<nat, Bytes>, tree: map<Loc, nat>, d: nat, n: nat, up: nat, lb: nat)
    requires geo.Sane() && DirOk(geo, Leaves(disk, tree), d, n, up) && lb < n
    ensures lb < Reach(geo.P()) && LeafFor(d, lb, geo.P()) in tree && tree[LeafFor(d, lb, geo.P())] in disk
    ensures BlockAt(geo, tree, d, lb) == Some(tree[LeafFor(d, lb, geo.P())])
    ensures disk[tree[LeafFor(d, lb, geo.P())]] == BlockOf(geo, Leaves(disk, tree), d, lb)
    ensures BlockOk(geo, BlockOf(geo, Leaves(disk, tree), d, lb), DotsAt(d, up, lb))
  {
    hide Dirent.Sound, Records, Reach, LeafFor;
    assert BlockOk(geo, BlockOf(geo, Leaves(disk, tree), d, lb), DotsAt(d, up, lb));
  }

  /** The places of `d` that start before logical block `n`. */
  ghost function LowPlaces(geo: Geometry, tree: map<Loc, nat>, d: nat, n: nat): set<Loc> {
    set l | l in Nodes(tree, d) && l.Valid(geo.P()) && l.Base(geo.P()) < n
  }

  /** `n` logical blocks of one file are `n` places of its tree. */
  lemma {:induction false} PlacesCounted(geo: Geometry, tree: map<Loc, nat>, d: nat, n: nat)
    requires geo.Sane() && forall lb: nat :: lb < n ==> BlockAt(geo, tree, d, lb).Some?
    ensures n <= |LowPlaces(geo, tree, d, n)|
  {
    hide LeafFor, Reach, Loc.Base;
    if n > 0 {
      PlacesCounted(geo, tree, d, n - 1);
      assert BlockAt(geo, tree, d, n - 1).Some?;
      var leaf := LeafFor(d, n - 1, geo.P());
      assert leaf in LowPlaces(geo, tree, d, n) && leaf !in LowPlaces(geo, tree, d, n - 1);
      Sets.SubsetSize(LowPlaces(geo, tree, d, n - 1) + {leaf}, LowPlaces(geo, tree, d, n));
    }
  }

  /** A directory has at least as many blocks as its size says. */
  lemma BlocksCounted(geo: Geometry, disk: map<nat, Bytes>, live: map<nat, Inode>, tree: map<Loc, nat>, d: nat,
        n: nat, up: nat)
    requires geo.Sane() && DirOk(geo, Leaves(disk, tree), d, n, up) && BlocksAgree(geo, live, tree)
    requires d in live && live[d].HasTree()
    ensures n <= live[d].blocks / (geo.blockSize / 512)
  {
    hide DirOk, BlockAt, Nodes;
    forall lb: nat | lb < n
      ensures BlockAt(geo, tree, d, lb).Some?
    {
      DirLeaf(geo, disk, tree, d, n, up, lb);
    }
    PlacesCounted(geo, tree, d, n);
    Sets.SubsetSize(LowPlaces(geo, tree, d, n), Nodes(tree, d));
    TimesIs(|Nodes(tree, d)|, geo.blockSize / 512);
  }

  /** The checks of `scan_dir` before its loop: how many blocks to visit. */
  method CheckDir(fs: Ext2, dir: Inode, ghost up: nat) returns (r: Result<nat>)
    requires DirAt(fs, dir, up)
    ensures r == Ok(Lb(fs.geo, dir.size))
  {
    hide Ptr, EntriesAgree, RootsAgree, Distinct, InodesShaped, Shape, Owned, Bounded, Conserved, BlockCountsOk,
         Volume.Geometry.IsMetadata, Volume.Geometry.GroupsOk, DirOk;
    PosIs(fs.geo, dir.size);
    if Within(fs.geo, dir.size) != 0 {
      return Err(EIO);
    }
    BlocksCounted(fs.geo, fs.disk, fs.live, fs.tree, dir.ino, Lb(fs.geo, dir.size), up);
    if Lb(fs.geo, dir.size) > dir.blocks / (fs.geo.blockSize / 512) {
      return Err(EIO);
    }
    return Ok(Lb(fs.geo, dir.size));
  }

  /** `seen` holds only blocks of `d` before logical block `lb`. */
  ghost predicate SeenBefore(geo: Geometry, tree: map<Loc, nat>, d: nat, lb: nat, seen: set<nat>)
    requires geo.Sane()
  {
    forall b :: b in seen ==> exists j: nat :: j < lb && BlockAt(geo, tree, d, j) == Some(b)
  }

  lemma NotSeen(geo: Geometry, tree: map<Loc, nat>, d: nat, lb: nat, seen: set<nat>)
    requires geo.Sane() && Distinct(tree) && SeenBefore(geo, tree, d, lb, seen) && BlockAt(geo, tree, d, lb).Some?
    ensures BlockAt(geo, tree, d, lb).value !in seen
    ensures SeenBefore(geo, tree, d, lb + 1, seen + {BlockAt(geo, tree, d, lb).value})
  {
    hide LeafFor, Reach;
    forall j: nat | j < lb
      ensures BlockAt(geo, tree, d, j) != BlockAt(geo, tree, d, lb)
    {
    }
  }

  /** One round of `scan_dir`: block `lb`, its number and its entries. */
  method DirBlock(fs: Ext2, dir: Inode, lb: nat, seen: set<nat>, ghost up: nat)
    returns (r: Result<(nat, seq<Dirent.Entry>)>)
    requires DirAt(fs, dir, up) && lb < Lb(fs.geo, dir.size) && SeenBefore(fs.geo, fs.tree, dir.ino, lb, seen)
    ensures r.Ok? && BlockAt(fs.geo, fs.tree, dir.ino, lb) == Some(r.value.0) && r.value.0 in fs.disk
    ensures fs.disk[r.value.0] == BlockOf(fs.geo, Leaves(fs.disk, fs.tree), dir.ino, lb)
    ensures BlockOk(fs.geo, fs.disk[r.value.0], DotsAt(dir.ino, up, lb))
    ensures r.value.1 == Records(fs.geo, fs.disk[r.value.0])
    ensures SeenBefore(fs.geo, fs.tree, dir.ino, lb + 1, seen + {r.value.0})
  {
    hide Ptr, EntriesAgree, RootsAgree, Distinct, InodesShaped, Shape, Owned, Bounded, BlocksAgree, Conserved,
         BlockCountsOk, Volume.Geometry.IsMetadata, Volume.Geometry.GroupsOk, DirOk, BlockAt, Dirent.Lists,
         SeenBefore;
    DirLeaf(fs.geo, fs.disk, fs.tree, dir.ino, Lb(fs.geo, dir.size), up, lb);
    NotSeen(fs.geo, fs.tree, dir.ino, lb, seen);
    var found := Bmap(fs, dir, lb);
    if found.value.None? {
      return Err(EIO);
    }
    var block := found.value.value;
    if block in seen {
      return Err(EIO);
    }
    var data := fs.disk[block];
    var parsed := Dirent.Parse(data, fs.geo.filetype, fs.geo.inodesCount);
    if parsed.None? {
      return Err(EIO);
    }
    RecordsAre(fs.geo, data, parsed.value);
    var good := Dirent.CheckNames(data, parsed.value, lb == 0);
    if !good {
      return Err(EIO);
    }
    return Ok((block, parsed.value));
  }

  // ----- find_entry -----

  /** Where a directory entry was found: its block, and the entry before it there. */
  datatype Found = Found(block: nat, entry: Dirent.Entry, prev: Option<Dirent.Entry>)

  /** `f` is the `k`-th entry of logical block `lb` of `dir`, in use and called `name`. */
  ghost predicate FoundAt(fs: Ext2, dir: Inode, f: Found, lb: nat, k: nat, name: Dirent.Name)
    requires fs.geo.Sane()
    reads fs
  {
    var block := BlockOf(fs.geo, Leaves(fs.disk, fs.tree), dir.ino, lb);
    var es := Records(fs.geo, block);
    && lb < Lb(fs.geo, dir.size) && BlockAt(fs.geo, fs.tree, dir.ino, lb) == Some(f.block)
    && k < |es| && f.entry == es[k] && f.prev == (if k > 0 then Some(es[k - 1]) else None)
    && es[k].inode != 0 && Dirent.NameOf(block, es[k]) == name
  }

  /** The entry in use called `name` among the entries of a block. */
  method FindIn(block: Bytes, es: seq<Dirent.Entry>, name: Dirent.Name) returns (r: Option<nat>)
    requires Dirent.DistinctNames(Dirent.Pairs(block, es))
    ensures r.Some? ==> r.value < |es| && es[r.value].inode != 0 && Dirent.NameOf(block, es[r.value]) == name
    ensures r.Some? <==> name in Dirent.Listing(Dirent.Pairs(block, es))
    ensures r.Some? ==> Dirent.Listing(Dirent.Pairs(block, es))[name] == es[r.value].inode
  {
    hide Dirent.NameOf, Dirent.Listing, Dirent.DistinctNames;
    ghost var ps := Dirent.Pairs(block, es);
    for k := 0 to |es|
      invariant forall j :: 0 <= j < k && Dirent.Used(ps, j) ==> ps[j].0 != name
    {
      Dirent.PairsAt(block, es, k);
      if es[k].inode != 0 && Dirent.NameOf(block, es[k]) == name {
        Dirent.ListingHas(ps, k);
        return Some(k);
      }
    }
    if name in Dirent.Listing(ps) {
      var k := Dirent.ListingFrom(ps, name);
    }
    return None;
  }

  /** The entry called `name` in `dir`: found exactly when the directory has that name. */
  method FindEntry(fs: Ext2, dir: Inode, name: Dirent.Name, ghost up: nat)
    returns (r: Result<Option<Found>>, ghost lb: nat, ghost k: nat)
    requires DirAt(fs, dir, up)
    ensures r.Ok? && (r.value.Some? <==> name in NamesOf(fs, dir))
    ensures r.value.Some? ==>
            FoundAt(fs, dir, r.value.value, lb, k, name) && r.value.value.entry.inode == NamesOf(fs, dir)[name]
  {
    hide Mapped, DirOk, BlockAt, Dirent.Lists, Dirent.Listing, Dirent.DistinctNames, Dirent.NameOf, Leaves, Records,
         BlockOf, DirNames, Dirent.Pairs;
    lb, k := 0, 0;
    var blocks := CheckDir(fs, dir, up);
    var seen: set<nat> := {};
    for i := 0 to blocks.value
      invariant SeenBefore(fs.geo, fs.tree, dir.ino, i, seen)
      invariant forall j: nat :: j < i ==> name !in NamesIn(fs.geo, Leaves(fs.disk, fs.tree), dir.ino, j)
    {
      var b := DirBlock(fs, dir, i, seen, up);
      var data, es := fs.disk[b.value.0], b.value.1;
      var at := FindIn(data, es, name);
      if at.Some? {
        lb, k := i, at.value;
        DirHas(fs.geo, Leaves(fs.disk, fs.tree), dir.ino, Lb(fs.geo, dir.size), up, lb, name);
        return Ok(Some(Found(b.value.0, es[at.value], if at.value > 0 then Some(es[at.value - 1]) else None))), lb, k;
      }
      seen := seen + {b.value.0};
    }
    if name in NamesOf(fs, dir) {
      var j := DirFrom(fs.geo, Leaves(fs.disk, fs.tree), dir.ino, Lb(fs.geo, dir.size), name);
    }
    return Ok(None), lb, k;
  }

  // ----- dir_is_empty -----

  /** A name in use other than `.` and `..` among the entries of a block. */
  method HoldsOther(block: Bytes, es: seq<Dirent.Entry>) returns (r: bool)
    requires Dirent.DistinctNames(Dirent.Pairs(block, es))
    ensures r <==> exists name :: name in Dirent.Listing(Dirent.Pairs(block, es)) && !Dirent.Dotted(name)
  {
    hide Dirent.NameOf, Dirent.Listing, Dirent.DistinctNames;
    ghost var ps := Dirent.Pairs(block, es);
    for k := 0 to |es|
      invariant forall j :: 0 <= j < k && Dirent.Used(ps, j) ==> Dirent.Dotted(ps[j].0)
    {
      Dirent.PairsAt(block, es, k);
      var name := Dirent.NameOf(block, es[k]);
      if es[k].inode != 0 && !Dirent.Dotted(name) {
        Dirent.ListingHas(ps, k);
        return true;
      }
    }
    forall name | name in Dirent.Listing(ps)
      ensures Dirent.Dotted(name)
    {
      var k := Dirent.ListingFrom(ps, name);
      assert Dirent.Used(ps, k);
    }
    return false;
  }

  /** Whether `dir` holds nothing but `.` and `..`. */
  method DirIsEmpty(fs: Ext2, dir: Inode, ghost up: nat) returns (r: Result<bool>)
    requires DirAt(fs, dir, up)
    ensures r.Ok? && (r.value <==> forall name :: name in NamesOf(fs, dir) ==> Dirent.Dotted(name))
  {
    hide Mapped, DirOk, BlockAt, Dirent.Lists, Dirent.Listing, Dirent.DistinctNames, Dirent.NameOf, Leaves, Records,
         BlockOf, DirNames, Dirent.Pairs;
    var blocks := CheckDir(fs, dir, up);
    ghost var leaves := Leaves(fs.disk, fs.tree);
    var seen: set<nat> := {};
    for i := 0 to blocks.value
      invariant SeenBefore(fs.geo, fs.tree, dir.ino, i, seen)
      invariant forall j: nat, name :: j < i && name in NamesIn(fs.geo, leaves, dir.ino, j) ==> Dirent.Dotted(name)
    {
      var b := DirBlock(fs, dir, i, seen, up);
      var other := HoldsOther(fs.disk[b.value.0], b.value.1);
      if other {
        ghost var name :| name in NamesIn(fs.geo, leaves, dir.ino, i) && !Dirent.Dotted(name);
        DirHas(fs.geo, leaves, dir.ino, Lb(fs.geo, dir.size), up, i, name);
        return Ok(false);
      }
      seen := seen + {b.value.0};
    }
    forall name | name in NamesOf(fs, dir)
      ensures Dirent.Dotted(name)
    {
      var j := DirFrom(fs.geo, leaves, dir.ino, Lb(fs.geo, dir.size), name);
    }
    return Ok(true);
  }

  // ----- one entry more, less or other, on values -----

  /** The type byte of an entry, with the `filetype` feature. */
  function TypeOf(geo: Geometry, kind: FileType): Option<byte> {
    if geo.filetype then Some(Dirent.TypeByte(kind)) else None
  }

  lemma CanInsertAt(geo: Geometry, block: Bytes, dots: Option<(nat, nat)>, k: nat, name: Dirent.Name)
    requires geo.Sane() && BlockOk(geo, block, dots) && k < |Records(geo, block)|
    requires Dirent.HasRoom(Records(geo, block)[k], |name|) && |name| <= 255
    ensures Dirent.CanInsert(block, Records(geo, block)[k], name)
  {
    hide Records;
    assert Dirent.Record(block, Records(geo, block)[k], geo.filetype, geo.inodesCount);
  }

  lemma EntryAdded(geo: Geometry, leaves: map<Loc, Bytes>, d: nat, n: nat, up: nat, lb: nat, k: nat,
        name: Dirent.Name, ino: u32, kind: FileType)
    requires geo.Sane() && DirOk(geo, leaves, d, n, up) && lb < n && lb < Reach(geo.P())
    requires var block := BlockOf(geo, leaves, d, lb);
             k < |Records(geo, block)| && Dirent.HasRoom(Records(geo, block)[k], |name|)
    requires Dirent.Ordinary(name) && 0 < ino <= geo.inodesCount && name !in DirNames(geo, leaves, d, n)
    ensures var block := BlockOf(geo, leaves, d, lb);
            && Dirent.CanInsert(block, Records(geo, block)[k], name)
            && var data := Dirent.Insert(block, Records(geo, block)[k], name, ino, TypeOf(geo, kind));
            var leaves' := leaves[LeafFor(d, lb, geo.P()) := data];
            && |data| == geo.blockSize && DirOk(geo, leaves', d, n, up)
            && DirNames(geo, leaves', d, n) == DirNames(geo, leaves, d, n)[name := ino]
  {
    hide Records, BlockOf, Reach, LeafFor, Dirent.Insert, Dirent.Sound, Dirent.Inserted, Dirent.Listing,
         Dirent.Pairs, DirNames, Dirent.CanInsert;
    var block := BlockOf(geo, leaves, d, lb);
    var es := Records(geo, block);
    assert BlockOk(geo, block, DotsAt(d, up, lb));
    CanInsertAt(geo, block, DotsAt(d, up, lb), k, name);
    assert name !in NamesIn(geo, leaves, d, lb) by {
      if name in NamesIn(geo, leaves, d, lb) { DirHas(geo, leaves, d, n, up, lb, name); }
    }
    Dirent.SoundInsert(block, es, DotsAt(d, up, lb), k, name, ino, TypeOf(geo, kind), geo.filetype, geo.inodesCount);
    var data := Dirent.Insert(block, es[k], name, ino, TypeOf(geo, kind));
    SoundRecords(geo, data, Dirent.Inserted(es, k, |name|, ino), DotsAt(d, up, lb));
    DirPut(geo, leaves, d, n, up, up, lb, data, name, ino);
  }

  lemma SoundRecords(geo: Geometry, block: Bytes, es: seq<Dirent.Entry>, dots: Option<(nat, nat)>)
    requires Dirent.Sound(block, es, dots, geo.filetype, geo.inodesCount)
    ensures Records(geo, block) == es
  {
    RecordsAre(geo, block, es);
  }

  /** Where names may stand: `..` second in the first block, an ordinary one after it. */
  lemma NamePlace(geo: Geometry, block: Bytes, d: nat, up: nat, lb: nat, k: nat)
    requires geo.Sane() && BlockOk(geo, block, DotsAt(d, up, lb)) && k < |Records(geo, block)|
             && Records(geo, block)[k].inode != 0
    ensures Dirent.NameOf(block, Records(geo, block)[k]) == Dirent.DOTDOT ==> lb == 0 && k == 1
    ensures !Dirent.Dotted(Dirent.NameOf(block, Records(geo, block)[k])) ==>
              Dirent.Ordinary(Dirent.NameOf(block, Records(geo, block)[k])) && (lb == 0 ==> k > 1)
    ensures Records(geo, block)[k].offset + Dirent.HEADER <= |block|
  {
    hide Records;
    var es := Records(geo, block);
    Dirent.PairsAt(block, es, k);
    assert Dirent.Used(Dirent.Pairs(block, es), k);
    assert Dirent.Record(block, es[k], geo.filetype, geo.inodesCount);
  }

  /** The entry at `lb`, `k` is the one the directory's map has. */
  lemma EntryListed(geo: Geometry, leaves: map<Loc, Bytes>, d: nat, n: nat, up: nat, lb: nat, k: nat)
    requires geo.Sane() && DirOk(geo, leaves, d, n, up) && lb < n
    requires var block := BlockOf(geo, leaves, d, lb); k < |Records(geo, block)| && Records(geo, block)[k].inode != 0
    ensures var block := BlockOf(geo, leaves, d, lb);
            Dirent.NameOf(block, Records(geo, block)[k]) in NamesIn(geo, leaves, d, lb)
    ensures BlockOk(geo, BlockOf(geo, leaves, d, lb), DotsAt(d, up, lb))
  {
    hide Records, BlockOf, Dirent.Listing, Dirent.NameOf, Dirent.Lists, Dirent.NamesOk;
    var block := BlockOf(geo, leaves, d, lb);
    assert BlockOk(geo, block, DotsAt(d, up, lb));
    Dirent.PairsAt(block, Records(geo, block), k);
    Dirent.ListingHas(Dirent.Pairs(block, Records(geo, block)), k);
  }

  lemma EntryRemoved(geo: Geometry, leaves: map<Loc, Bytes>, d: nat, n: nat, up: nat, lb: nat, k: nat)
    requires geo.Sane() && DirOk(geo, leaves, d, n, up) && lb < n && lb < Reach(geo.P())
    requires var block := BlockOf(geo, leaves, d, lb);
             k < |Records(geo, block)| && Records(geo, block)[k].inode != 0
                 && !Dirent.Dotted(Dirent.NameOf(block, Records(geo, block)[k]))
    ensures var block := BlockOf(geo, leaves, d, lb);
            var es := Records(geo, block);
            && es[k].offset + Dirent.HEADER <= |block|
            && (k > 0 ==> es[k - 1].offset + Dirent.HEADER <= |block| && es[k - 1].recLen + es[k].recLen <= U16_MAX)
            && var data := Dirent.Remove(block, es, k);
            var leaves' := leaves[LeafFor(d, lb, geo.P()) := data];
            && |data| == geo.blockSize && DirOk(geo, leaves', d, n, up)
            && DirNames(geo, leaves', d, n) == DirNames(geo, leaves, d, n) - {Dirent.NameOf(block, es[k])}
  {
    hide Records, BlockOf, Reach, LeafFor, Dirent.Remove, Dirent.Sound, Dirent.Removed, Dirent.Listing, Dirent.Pairs,
         DirNames, Dirent.NameOf, Dirent.Ordinary;
    var block := BlockOf(geo, leaves, d, lb);
    var es := Records(geo, block);
    EntryListed(geo, leaves, d, n, up, lb, k);
    NamePlace(geo, block, d, up, lb, k);
    Dirent.SoundRemove(block, es, DotsAt(d, up, lb), k, geo.filetype, geo.inodesCount);
    var data := Dirent.Remove(block, es, k);
    SoundRecords(geo, data, Dirent.Removed(es, k), DotsAt(d, up, lb));
    DirCut(geo, leaves, d, n, up, lb, data, Dirent.NameOf(block, es[k]));
  }

  /** Retargeting `..` makes `ino` the parent; retargeting another entry leaves `..`. */
  lemma EntryRetargeted(geo: Geometry, leaves: map<Loc, Bytes>, d: nat, n: nat, up: nat, lb: nat, k: nat, ino: u32,
        kind: FileType)
    requires geo.Sane() && DirOk(geo, leaves, d, n, up) && lb < n && lb < Reach(geo.P()) && 0 < ino <= geo.inodesCount
    requires var block := BlockOf(geo, leaves, d, lb);
             k < |Records(geo, block)| && Records(geo, block)[k].inode != 0
                 && Dirent.NameOf(block, Records(geo, block)[k]) != Dirent.DOT
    ensures var block := BlockOf(geo, leaves, d, lb);
            var es := Records(geo, block);
            && es[k].offset + Dirent.HEADER <= |block|
            && var data := Dirent.Retarget(block, es[k], ino, TypeOf(geo, kind));
            var leaves' := leaves[LeafFor(d, lb, geo.P()) := data];
            && |data| == geo.blockSize
            && DirOk(geo, leaves', d, n, if Dirent.NameOf(block, es[k]) == Dirent.DOTDOT then ino else up)
            && DirNames(geo, leaves', d, n) == DirNames(geo, leaves, d, n)[Dirent.NameOf(block, es[k]) := ino]
  {
    hide Records, BlockOf, Reach, LeafFor, Dirent.Retarget, Dirent.Sound, Dirent.Listing, Dirent.Pairs, DirNames,
         Dirent.NameOf, Dirent.Ordinary;
    var block := BlockOf(geo, leaves, d, lb);
    var es := Records(geo, block);
    EntryListed(geo, leaves, d, n, up, lb, k);
    NamePlace(geo, block, d, up, lb, k);
    Dirent.SoundRetarget(block, es, DotsAt(d, up, lb), k, ino, TypeOf(geo, kind), geo.filetype, geo.inodesCount);
    var data := Dirent.Retarget(block, es[k], ino, TypeOf(geo, kind));
    var up' := if Dirent.NameOf(block, es[k]) == Dirent.DOTDOT then ino else up;
    SoundRecords(geo, data, es[k := es[k].(inode := ino)], DotsAt(d, up', lb));
    DirPut(geo, leaves, d, n, up, up', lb, data, Dirent.NameOf(block, es[k]), ino);
  }

  // ----- add_entry -----

  /** No record of a directory block has room for a name of `n` bytes. */
  ghost predicate BlockFull(geo: Geometry, block: Bytes, n: nat) {
    forall j: nat :: j < |Records(geo, block)| ==> !Dirent.HasRoom(Records(geo, block)[j], n)
  }

  /** No record of directory `d`, of `size` bytes, has room for a name of `n` bytes. */
  ghost predicate FullFor(geo: Geometry, leaves: map<Loc, Bytes>, d: nat, size: nat, n: nat)
    requires geo.Sane()
  {
    forall lb: nat :: lb < Lb(geo, size) ==> BlockFull(geo, BlockOf(geo, leaves, d, lb), n)
  }

  /** A directory that cannot get another block: it is as large as one gets, or the blocks are short. */
  ghost predicate NoGrowth(geo: Geometry, tree: map<Loc, nat>, d: nat, size: nat, free: nat)
    requires geo.Sane()
  {
    size + geo.blockSize > U32_MAX || Short(geo, tree, d, size, free)
  }

  /** There is no place for a name of `n` bytes in directory `d`. */
  ghost predicate NoPlace(geo: Geometry, leaves: map<Loc, Bytes>, tree: map<Loc, nat>, d: nat, size: nat, n: nat,
        free: nat)
    requires geo.Sane()
  {
    FullFor(geo, leaves, d, size, n) && NoGrowth(geo, tree, d, size, free)
  }

  /** Record `k` of block `lb` of directory `d` is the first with room for a name of `n` bytes. */
  ghost predicate FirstRoom(geo: Geometry, leaves: map<Loc, Bytes>, d: nat, lb: nat, k: nat, n: nat)
    requires geo.Sane()
  {
    && (forall j: nat :: j < lb ==> BlockFull(geo, BlockOf(geo, leaves, d, j), n))
    && var es := Records(geo, BlockOf(geo, leaves, d, lb));
    k < |es| && Dirent.HasRoom(es[k], n) && forall j :: 0 <= j < k ==> !Dirent.HasRoom(es[j], n)
  }

  /** `b` is `a` with an entry put in the first record with room of directory `d`, of `n` blocks. */
  ghost predicate EntryPut(geo: Geometry, a: map<Loc, Bytes>, b: map<Loc, Bytes>, d: nat, n: nat, name: Dirent.Name,
        ino: u32, t: Option<byte>)
    requires geo.Sane()
  {
    exists lb: nat, k: nat :: FirstRoom(geo, a, d, lb, k, |name|) && lb < n && lb < Reach(geo.P()) &&
      EntryPutAt(geo, a, b, d, lb, k, name, ino, t)
  }

  ghost predicate EntryPutAt(geo: Geometry, a: map<Loc, Bytes>, b: map<Loc, Bytes>, d: nat, lb: nat, k: nat,
        name: Dirent.Name, ino: u32, t: Option<byte>)
    requires geo.Sane() && lb < Reach(geo.P())
  {
    var block := BlockOf(geo, a, d, lb);
    && k < |Records(geo, block)| && Dirent.CanInsert(block, Records(geo, block)[k], name)
    && b == a[LeafFor(d, lb, geo.P()) := Dirent.Insert(block, Records(geo, block)[k], name, ino, t)]
  }

  /** Directory `dir`, with a new empty block at its end if it grew to `dir'`. */
  ghost function Room(geo: Geometry, leaves: map<Loc, Bytes>, dir: Inode, dir': Inode): map<Loc, Bytes>
    requires geo.Sane()
  {
    if dir'.size == dir.size || Lb(geo, dir.size) >= Reach(geo.P()) || !(Dirent.HEADER <= geo.blockSize <= U16_MAX)
    then leaves
    else leaves[LeafFor(dir.ino, Lb(geo, dir.size), geo.P()) := Dirent.InitEmpty(geo.blockSize)]
  }

  /** The first record of `dir` with room for a name of `n` bytes. */
  method FindRoom(fs: Ext2, dir: Inode, n: nat, ghost up: nat)
    returns (r: Result<Option<(nat, Dirent.Entry)>>, ghost lb: nat, ghost k: nat)
    requires DirAt(fs, dir, up)
    ensures r.Ok?
    ensures r.value.Some? ==>
              var block := BlockOf(fs.geo, Leaves(fs.disk, fs.tree), dir.ino, lb);
              && lb < Lb(fs.geo, dir.size) && BlockAt(fs.geo, fs.tree, dir.ino, lb) == Some(r.value.value.0)
              && k < |Records(fs.geo, block)| && r.value.value.1 == Records(fs.geo, block)[k]
              && Dirent.HasRoom(r.value.value.1, n)
              && FirstRoom(fs.geo, Leaves(fs.disk, fs.tree), dir.ino, lb, k, n)
    ensures r.value.None? <==> FullFor(fs.geo, Leaves(fs.disk, fs.tree), dir.ino, dir.size, n)
  {
    hide Mapped, DirOk, BlockAt, Dirent.Sound, Leaves, Records, BlockOf, DirNames, Dirent.HasRoom;
    lb, k := 0, 0;
    var blocks := CheckDir(fs, dir, up);
    var seen: set<nat> := {};
    for i := 0 to blocks.value
      invariant SeenBefore(fs.geo, fs.tree, dir.ino, i, seen)
      invariant forall h: nat :: h < i ==> BlockFull(fs.geo, BlockOf(fs.geo, Leaves(fs.disk, fs.tree), dir.ino, h), n)
    {
      var b := DirBlock(fs, dir, i, seen, up);
      var at := Dirent.Room(b.value.1, n);
      if at.Some? {
        assert !BlockFull(fs.geo, BlockOf(fs.geo, Leaves(fs.disk, fs.tree), dir.ino, i), n);
        return Ok(Some((b.value.0, b.value.1[at.value]))), i, at.value;
      }
      seen := seen + {b.value.0};
    }
    return Ok(None), lb, k;
  }

  /** What a change to directory `dir` leaves alone. */
  twostate predicate OnlyDir(fs: Ext2, dir: Inode, dir': Inode)
    requires fs.geo.Sane()
    reads fs
  {
    && MetaKept(fs.geo, old(fs.disk), fs.disk)
    && OthersKept(old(Leaves(fs.disk, fs.tree)), Leaves(fs.disk, fs.tree), dir.ino)
    && fs.live == old(fs.live)[dir.ino := dir'] && SameFile(dir', dir.(size := dir'.size)) && dir'.size >= dir.size
    && (old(InsideSize(fs.geo, fs.live, fs.tree)) ==> InsideSize(fs.geo, fs.live, fs.tree))
  }

  /** Stores new contents for logical block `lb` of `dir`. */
  method StoreBlock(fs: Ext2, dir: Inode, ghost lb: nat, block: nat, data: Bytes, ghost up: nat, ghost up': nat)
    requires DirAt(fs, dir, up) && lb < Reach(fs.geo.P()) && BlockAt(fs.geo, fs.tree, dir.ino, lb) == Some(block)
             && |data| == fs.geo.blockSize
    requires DirOk(fs.geo, Leaves(fs.disk, fs.tree)[LeafFor(dir.ino, lb, fs.geo.P()) := data], dir.ino,
             Lb(fs.geo, dir.size), up')
    modifies fs`disk
    ensures DirAt(fs, dir, up') && OnlyDir(fs, dir, dir)
    ensures Leaves(fs.disk, fs.tree) == old(Leaves(fs.disk, fs.tree))[LeafFor(dir.ino, lb, fs.geo.P()) := data]
  {
    hide MappedBut, DirOk, Leaves, MetaKept, OthersKept, InsideSize, LeafFor, Reach;
    ghost var leaf, before := LeafFor(dir.ino, lb, fs.geo.P()), Leaves(fs.disk, fs.tree);
    StoreData(fs, leaf, block, data);
    assert OthersKept(before, Leaves(fs.disk, fs.tree), dir.ino) by {
      OthersSame(before, dir.ino);
      OthersWritten(before, before, before, leaf, data, data);
    }
    assert fs.live == fs.live[dir.ino := dir];
  }

  lemma OthersSame(a: map<Loc, Bytes>, ino: nat)
    ensures OthersKept(a, a, ino)
  {
  }

  /** A directory size that fits 32 bits is far from the largest file. */
  lemma DirFits(geo: Geometry, size: nat)
    requires geo.Sane() && size + geo.blockSize <= U32_MAX
    ensures Lb(geo, size) < MaxBlocks(geo.blockSize) <= Reach(geo.P())
            && size + geo.blockSize <= MaxFileSize(geo.blockSize)
  {
    MaxBlocksAre();
    InsideLimit(geo, size);
  }

  lemma NextBlock(geo: Geometry, size: nat)
    requires geo.Sane() && Times(Lb(geo, size), geo.blockSize) == size
    ensures Lb(geo, size + geo.blockSize) == Lb(geo, size) + 1
            && Times(Lb(geo, size + geo.blockSize), geo.blockSize) == size + geo.blockSize
  {
    QuotOf(Lb(geo, size) + 1, geo.blockSize, 0);
  }

  /** What a new block at the end of `dir` amounts to. */
  lemma GrownDir(geo: Geometry, live: map<nat, Inode>, tree: map<Loc, nat>, tree': map<Loc, nat>, dir: Inode,
        dir': Inode)
    requires geo.Sane() && InsideSize(geo, live, tree) && dir.ino in live && live[dir.ino] == dir
    requires Times(Lb(geo, dir.size), geo.blockSize) == dir.size && Lb(geo, dir.size) < Reach(geo.P())
    requires SameFile(dir', dir.(size := dir.size + geo.blockSize))
    requires forall l :: l in tree' && l !in tree ==> LeafFor(dir.ino, Lb(geo, dir.size), geo.P()).Under(l)
    ensures InsideSize(geo, live[dir.ino := dir'], tree')
  {
    hide LeafFor, Reach, Lb;
    var leaf := LeafFor(dir.ino, Lb(geo, dir.size), geo.P());
    forall l | l in tree' && l !in tree && l.Leaf() && l.Valid(geo.P())
      ensures l.Ino() == dir.ino && Times(l.Base(geo.P()), geo.blockSize) < dir'.size
    {
      LeafAlone(leaf, l, geo.P());
    }
    WriteInside(geo, live, tree, tree', dir', dir'.size);
  }

  /** Not enough blocks for another block of a directory and those leading to it, or it is as large as
      a directory gets. */
  predicate CannotGrow(geo: Geometry, size: nat, free: nat) {
    free < 4 || size + geo.blockSize > U32_MAX
  }

  /** A new empty block at the end of `dir`, or `ENOSPC` with nothing changed. */
  method GrowDir(fs: Ext2, dir: Inode, ghost up: nat) returns (r: Result<nat>, dir': Inode)
    requires DirAt(fs, dir, up)
    modifies fs`disk, fs`freeBlocks, fs`freeBlocksTotal, fs`live, fs`tree
    ensures r.Err? ==>
              && r.error == ENOSPC && dir' == dir && fs.live == old(fs.live) && fs.tree == old(fs.tree)
              && fs.disk == old(fs.disk) && fs.freeBlocks == old(fs.freeBlocks)
              && fs.freeBlocksTotal == old(fs.freeBlocksTotal)
    ensures r.Err? ==> CannotGrow(fs.geo, dir.size, fs.freeBlocksTotal)
    ensures r.Err? <==> NoGrowth(fs.geo, old(fs.tree), dir.ino, dir.size, old(fs.freeBlocksTotal))
    ensures old(fs.freeBlocksTotal) <= fs.freeBlocksTotal + 4
    ensures r.Ok? ==>
              var lb := Lb(fs.geo, dir.size);
              && DirAt(fs, dir', up) && OnlyDir(fs, dir, dir') && NamesOf(fs, dir') == old(NamesOf(fs, dir))
              && lb < Lb(fs.geo, dir'.size) && BlockAt(fs.geo, fs.tree, dir.ino, lb) == Some(r.value)
              && Records(fs.geo, BlockOf(fs.geo, Leaves(fs.disk, fs.tree), dir.ino, lb)) ==
                 [Dirent.Entry(0, 0, fs.geo.blockSize, 0)]
              && dir'.size == dir.size + fs.geo.blockSize <= U32_MAX
              && lb < Reach(fs.geo.P()) && Dirent.HEADER <= fs.geo.blockSize <= U16_MAX
              && Leaves(fs.disk, fs.tree) ==
                 old(Leaves(fs.disk, fs.tree))[LeafFor(dir.ino, lb, fs.geo.P()) := Dirent.InitEmpty(fs.geo.blockSize)]
  {
    hide MappedBut, DirOk, Leaves, MetaKept, OthersKept, InsideSize, LeafFor, Reach, FileLimit.MaxBlocks, Records,
         BlockOf, Missing, DirNames, Lb;
    var geo := fs.geo;
    ghost var before, live := SpaceOf(fs), fs.live;
    if dir.size + geo.blockSize > U32_MAX {
      return Err(ENOSPC), dir;
    }
    DirFits(geo, dir.size);
    NextBlock(geo, dir.size);
    var lb := Lb(geo, dir.size);
    r, dir' := BmapAlloc(fs, dir, lb);
    if r.Err? {
      return;
    }
    ghost var leaf, mid := LeafFor(dir.ino, lb, geo.P()), SpaceOf(fs);
    StoreData(fs, leaf, r.value, Dirent.InitEmpty(geo.blockSize));
    dir' := SetSize(fs, dir', dir.size + geo.blockSize);
    DirGrow(geo, Leaves(before.disk, before.tree), dir.ino, lb, up);
    GrownState(geo, before, mid, SpaceOf(fs), leaf, Dirent.InitEmpty(geo.blockSize));
    if InsideSize(geo, live, before.tree) { GrownDir(geo, live, before.tree, fs.tree, dir, dir'); }
    assert fs.live == live[dir.ino := dir'];
  }

  lemma GrownState(geo: Geometry, a: Space, b: Space, c: Space, leaf: Loc, data: Bytes)
    requires geo.Sane() && MetaKept(geo, a.disk, b.disk) && MetaKept(geo, b.disk, c.disk)
    requires Leaves(b.disk, b.tree) == Leaves(a.disk, a.tree)
             || Leaves(b.disk, b.tree) == Leaves(a.disk, a.tree)[leaf := Zeros(geo.blockSize)]
    requires Leaves(c.disk, c.tree) == Leaves(b.disk, b.tree)[leaf := data]
    ensures MetaKept(geo, a.disk, c.disk) && OthersKept(Leaves(a.disk, a.tree), Leaves(c.disk, c.tree), leaf.Ino())
    ensures Leaves(c.disk, c.tree) == Leaves(a.disk, a.tree)[leaf := data]
  {
    hide Leaves;
  }

  /** Adds the entry `name` for `ino` to `dir`, in the first block with room, else in a new block at
      the end. Only the new block can fail to fit, before anything changed. */
  method AddEntry(fs: Ext2, dir: Inode, name: Dirent.Name, ino: nat, kind: FileType, ghost up: nat)
    returns (r: Result<()>, dir': Inode)
    requires DirAt(fs, dir, up) && Dirent.Ordinary(name) && 0 < ino <= fs.geo.inodesCount && name !in NamesOf(fs, dir)
    modifies fs`disk, fs`freeBlocks, fs`freeBlocksTotal, fs`live, fs`tree
    ensures r.Err? ==>
              && r.error == ENOSPC && dir' == dir && fs.live == old(fs.live) && fs.tree == old(fs.tree)
              && fs.disk == old(fs.disk) && fs.freeBlocks == old(fs.freeBlocks)
              && fs.freeBlocksTotal == old(fs.freeBlocksTotal)
    ensures r.Err? ==> CannotGrow(fs.geo, dir.size, fs.freeBlocksTotal)
    ensures r.Err? <==>
            NoPlace(fs.geo, old(Leaves(fs.disk, fs.tree)), old(fs.tree), dir.ino, dir.size, |name|,
            old(fs.freeBlocksTotal))
    ensures old(fs.freeBlocksTotal) <= fs.freeBlocksTotal + 4
    ensures r.Ok? ==>
              && DirAt(fs, dir', up) && OnlyDir(fs, dir, dir')
              && NamesOf(fs, dir') == old(NamesOf(fs, dir))[name := ino]
              && (dir'.size == dir.size || dir'.size == dir.size + fs.geo.blockSize <= U32_MAX)
    // The entry goes where there is room first, a new empty block being last.
    ensures r.Ok? ==>
              EntryPut(fs.geo, Room(fs.geo, old(Leaves(fs.disk, fs.tree)), dir, dir'), Leaves(fs.disk, fs.tree),
                  dir.ino, Lb(fs.geo, dir'.size), name, ino, TypeOf(fs.geo, kind))
  {
    hide FullFor, NoGrowth, MappedBut, DirOk, Leaves, MetaKept, OthersKept, InsideSize, LeafFor, Reach, Records,
         BlockOf, BlockAt, DirNames, Lb, Dirent.Ordinary, Dirent.Insert, Dirent.CanInsert, FirstRoom, EntryPutAt,
         Dirent.InitEmpty;
    ghost var before := SpaceOf(fs);
    var spot, lb, k := FindRoom(fs, dir, |name|, up);
    dir' := dir;
    var block, at;
    if spot.value.Some? {
      block, at := spot.value.value.0, spot.value.value.1;
    } else {
      lb, k := Lb(fs.geo, dir.size), 0;
      var grown;
      grown, dir' := GrowDir(fs, dir, up);
      if grown.Err? {
        return Err(grown.error), dir';
      }
      block, at := grown.value, Dirent.Entry(0, 0, fs.geo.blockSize, 0);
      EmptyHasRoom(fs.geo, name);
      LastRoom(fs.geo, Leaves(before.disk, before.tree), dir, dir', |name|);
    }
    assert FirstRoom(fs.geo, Leaves(fs.disk, fs.tree), dir.ino, lb, k, |name|);
    ghost var mid := SpaceOf(fs);
    PutEntry(fs, dir', lb, k, block, at, name, ino, kind, up);
    KeptBoth(fs.geo, before, mid, SpaceOf(fs), dir.ino) by {
      if spot.value.Some? { KeptNone(fs.geo, before, dir.ino); }
    }
    return Ok(()), dir';
  }

  /** In a directory that is full, a new empty block has the first room. */
  lemma LastRoom(geo: Geometry, a: map<Loc, Bytes>, dir: Inode, dir': Inode, n: nat)
    requires geo.Sane() && FullFor(geo, a, dir.ino, dir.size, n) && dir'.size != dir.size
    requires Lb(geo, dir.size) < Reach(geo.P()) && Dirent.HEADER <= geo.blockSize <= U16_MAX
    requires var b := a[LeafFor(dir.ino, Lb(geo, dir.size), geo.P()) := Dirent.InitEmpty(geo.blockSize)];
             Records(geo, BlockOf(geo, b, dir.ino, Lb(geo, dir.size))) == [Dirent.Entry(0, 0, geo.blockSize, 0)]
    requires Dirent.HasRoom(Dirent.Entry(0, 0, geo.blockSize, 0), n)
    ensures FirstRoom(geo, Room(geo, a, dir, dir'), dir.ino, Lb(geo, dir.size), 0, n)
  {
    hide Records, BlockOf, Lb, Reach, LeafFor, Dirent.HasRoom, Dirent.InitEmpty;
    var last := Lb(geo, dir.size);
    forall j: nat | j < last
      ensures BlockFull(geo, BlockOf(geo, Room(geo, a, dir, dir'), dir.ino, j), n)
    {
      BlockSet(geo, a, dir.ino, last, Dirent.InitEmpty(geo.blockSize), j);
      assert BlockFull(geo, BlockOf(geo, a, dir.ino, j), n);
    }
  }

  lemma KeptNone(geo: Geometry, a: Space, ino: nat)
    requires geo.Sane()
    ensures MetaKept(geo, a.disk, a.disk) && OthersKept(Leaves(a.disk, a.tree), Leaves(a.disk, a.tree), ino)
  {
  }

  lemma KeptBoth(geo: Geometry, a: Space, b: Space, c: Space, ino: nat)
    requires geo.Sane() && MetaKept(geo, a.disk, b.disk) && MetaKept(geo, b.disk, c.disk)
    requires OthersKept(Leaves(a.disk, a.tree), Leaves(b.disk, b.tree), ino)
             && OthersKept(Leaves(b.disk, b.tree), Leaves(c.disk, c.tree), ino)
    ensures MetaKept(geo, a.disk, c.disk) && OthersKept(Leaves(a.disk, a.tree), Leaves(c.disk, c.tree), ino)
  {
  }

  lemma EmptyHasRoom(geo: Geometry, name: Dirent.Name)
    requires geo.Sane() && Dirent.Ordinary(name)
    ensures Dirent.HasRoom(Dirent.Entry(0, 0, geo.blockSize, 0), |name|)
  {
  }

  /** Writes a new entry into the room found for it. */
  method PutEntry(fs: Ext2, dir: Inode, ghost lb: nat, ghost k: nat, block: nat, at: Dirent.Entry, name: Dirent.Name,
        ino: nat, kind: FileType, ghost up: nat)
    requires DirAt(fs, dir, up) && Dirent.Ordinary(name) && 0 < ino <= fs.geo.inodesCount && name !in NamesOf(fs, dir)
    requires lb < Lb(fs.geo, dir.size) && BlockAt(fs.geo, fs.tree, dir.ino, lb) == Some(block)
    requires var es := Records(fs.geo, BlockOf(fs.geo, Leaves(fs.disk, fs.tree), dir.ino, lb));
             k < |es| && at == es[k] && Dirent.HasRoom(at, |name|)
    modifies fs`disk
    ensures DirAt(fs, dir, up) && OnlyDir(fs, dir, dir) && NamesOf(fs, dir) == old(NamesOf(fs, dir))[name := ino]
    ensures lb < Reach(fs.geo.P())
            && EntryPutAt(fs.geo, old(Leaves(fs.disk, fs.tree)), Leaves(fs.disk, fs.tree), dir.ino, lb, k, name, ino,
               TypeOf(fs.geo, kind))
  {
    hide MappedBut, DirOk, Leaves, MetaKept, OthersKept, InsideSize, LeafFor, Reach, Records, BlockOf, DirNames, Lb,
         Dirent.Ordinary, Dirent.Insert, Dirent.HasRoom;
    DirLeaf(fs.geo, fs.disk, fs.tree, dir.ino, Lb(fs.geo, dir.size), up, lb);
    EntryAdded(fs.geo, Leaves(fs.disk, fs.tree), dir.ino, Lb(fs.geo, dir.size), up, lb, k, name, ino, kind);
    StoreBlock(fs, dir, lb, block, Dirent.Insert(fs.disk[block], at, name, ino, TypeOf(fs.geo, kind)), up, up);
  }

  // ----- remove_entry, and the retargeting of rename -----

  /** `b` is `a` without record `k` of block `lb` of directory `d`. */
  ghost predicate EntryCutAt(geo: Geometry, a: map<Loc, Bytes>, b: map<Loc, Bytes>, d: nat, lb: nat, k: nat)
    requires geo.Sane() && lb < Reach(geo.P())
  {
    var block := BlockOf(geo, a, d, lb);
    var es := Records(geo, block);
    && k < |es| && es[k].offset + Dirent.HEADER <= |block|
    && (k > 0 ==> es[k - 1].offset + Dirent.HEADER <= |block| && es[k - 1].recLen + es[k].recLen <= U16_MAX)
    && b == a[LeafFor(d, lb, geo.P()) := Dirent.Remove(block, es, k)]
  }

  /** `b` is `a` with record `k` of block `lb` of directory `d` pointed at `ino`. */
  ghost predicate EntrySetAt(geo: Geometry, a: map<Loc, Bytes>, b: map<Loc, Bytes>, d: nat, lb: nat, k: nat, ino: u32,
        t: Option<byte>)
    requires geo.Sane() && lb < Reach(geo.P())
  {
    var block := BlockOf(geo, a, d, lb);
    var es := Records(geo, block);
    && k < |es| && es[k].offset + Dirent.HEADER <= |block|
    && b == a[LeafFor(d, lb, geo.P()) := Dirent.Retarget(block, es[k], ino, t)]
  }

  /** Removes a found entry from `dir`. */
  method RemoveEntry(fs: Ext2, dir: Inode, found: Found, ghost lb: nat, ghost k: nat, ghost name: Dirent.Name,
        ghost up: nat)
    requires DirAt(fs, dir, up) && FoundAt(fs, dir, found, lb, k, name) && !Dirent.Dotted(name)
    modifies fs`disk
    ensures DirAt(fs, dir, up) && OnlyDir(fs, dir, dir) && NamesOf(fs, dir) == old(NamesOf(fs, dir)) - {name}
    ensures lb < Reach(fs.geo.P())
            && EntryCutAt(fs.geo, old(Leaves(fs.disk, fs.tree)), Leaves(fs.disk, fs.tree), dir.ino, lb, k)
  {
    hide MappedBut, DirOk, Leaves, MetaKept, OthersKept, InsideSize, LeafFor, Reach, Records, BlockOf, DirNames, Lb,
         Dirent.NameOf, Dirent.Dotted, Dirent.RemoveAt;
    DirLeaf(fs.geo, fs.disk, fs.tree, dir.ino, Lb(fs.geo, dir.size), up, lb);
    EntryRemoved(fs.geo, Leaves(fs.disk, fs.tree), dir.ino, Lb(fs.geo, dir.size), up, lb, k);
    StoreBlock(fs, dir, lb, found.block, Dirent.RemoveAt(fs.disk[found.block], found.entry, found.prev), up, up);
  }

  /** Points a found entry of `dir` at `ino`: for `..`, another parent. */
  method RetargetEntry(fs: Ext2, dir: Inode, found: Found, ino: nat, kind: FileType, ghost lb: nat, ghost k: nat,
        ghost name: Dirent.Name, ghost up: nat)
    requires DirAt(fs, dir, up) && FoundAt(fs, dir, found, lb, k, name) && name != Dirent.DOT
             && 0 < ino <= fs.geo.inodesCount
    modifies fs`disk
    ensures DirAt(fs, dir, if name == Dirent.DOTDOT then ino else up) && OnlyDir(fs, dir, dir)
    ensures NamesOf(fs, dir) == old(NamesOf(fs, dir))[name := ino]
    ensures lb < Reach(fs.geo.P())
            && EntrySetAt(fs.geo, old(Leaves(fs.disk, fs.tree)), Leaves(fs.disk, fs.tree), dir.ino, lb, k, ino,
               TypeOf(fs.geo, kind))
  {
    hide MappedBut, DirOk, Leaves, MetaKept, OthersKept, InsideSize, LeafFor, Reach, Records, BlockOf, DirNames, Lb,
         Dirent.NameOf, Dirent.Retarget;
    DirLeaf(fs.geo, fs.disk, fs.tree, dir.ino, Lb(fs.geo, dir.size), up, lb);
    EntryRetargeted(fs.geo, Leaves(fs.disk, fs.tree), dir.ino, Lb(fs.geo, dir.size), up, lb, k, ino, kind);
    StoreBlock(fs, dir, lb, found.block,
        Dirent.Retarget(fs.disk[found.block], found.entry, ino, TypeOf(fs.geo, kind)), up,
        if name == Dirent.DOTDOT then ino else up);
  }
}

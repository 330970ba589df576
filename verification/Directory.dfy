/** Directories (crates/ext2/src/dir.rs) as maps from names to inodes over the blocks that hold
    their records. */
module Directory {
  import opened Wrappers
  import opened Le
  import opened Arith
  import opened BlockPath
  import opened Volume
  import opened Dirent

  // ----- one block -----

  /** The records of a block, none if it does not parse. */
  ghost function Records(geo: Geometry, block: Bytes): seq<Entry> {
    if exists es :: Lists(block, es, geo.filetype, geo.inodesCount)
    then var es :| Lists(block, es, geo.filetype, geo.inodesCount); es
    else []
  }

  lemma RecordsAre(geo: Geometry, block: Bytes, es: seq<Entry>)
    requires Lists(block, es, geo.filetype, geo.inodesCount)
    ensures Records(geo, block) == es
  {
    ListsOnce(block, es, Records(geo, block), geo.filetype, geo.inodesCount);
  }

  /** The names in a block. */
  ghost function BlockNames(geo: Geometry, block: Bytes): map<Name, nat> {
    Listing(Pairs(block, Records(geo, block)))
  }

  ghost predicate BlockOk(geo: Geometry, block: Bytes, dots: Option<(nat, nat)>) {
    |block| == geo.blockSize && Sound(block, Records(geo, block), dots, geo.filetype, geo.inodesCount)
  }

  // ----- all blocks of a directory -----

  /** Logical block `lb` of directory `d`, `[]` for a hole. */
  ghost function BlockOf(geo: Geometry, leaves: map<Loc, Bytes>, d: nat, lb: nat): Bytes
    requires geo.Sane()
  {
    if lb < Reach(geo.P()) && LeafFor(d, lb, geo.P()) in leaves then leaves[LeafFor(d, lb, geo.P())] else []
  }

  ghost function NamesIn(geo: Geometry, leaves: map<Loc, Bytes>, d: nat, lb: nat): map<Name, nat>
    requires geo.Sane()
  {
    BlockNames(geo, BlockOf(geo, leaves, d, lb))
  }

  /** `.` and `..` belong in the first block. */
  function DotsAt(d: nat, up: nat, lb: nat): Option<(nat, nat)> {
    if lb == 0 then Some((d, up)) else None
  }

  /** A directory of `n` sound blocks without holes, each name in one of them. */
  ghost predicate DirOk(geo: Geometry, leaves: map<Loc, Bytes>, d: nat, n: nat, up: nat)
    requires geo.Sane()
  {
    && 0 < n
    && (forall lb: nat :: lb < n ==> BlockOk(geo, BlockOf(geo, leaves, d, lb), DotsAt(d, up, lb)))
    && (forall i: nat, j: nat, name :: i < j < n && name in NamesIn(geo, leaves, d, i) ==>
       name !in NamesIn(geo, leaves, d, j))
  }

  /** A directory as a map from names to inodes, `.` and `..` included. */
  ghost function DirNames(geo: Geometry, leaves: map<Loc, Bytes>, d: nat, n: nat): map<Name, nat>
    requires geo.Sane()
  {
    if n == 0 then map[] else DirNames(geo, leaves, d, n - 1) + NamesIn(geo, leaves, d, n - 1)
  }

  lemma {:induction false} DirFrom(geo: Geometry, leaves: map<Loc, Bytes>, d: nat, n: nat, name: Name) returns (lb: nat)
    requires geo.Sane() && name in DirNames(geo, leaves, d, n)
    ensures lb < n && name in NamesIn(geo, leaves, d, lb)
            && NamesIn(geo, leaves, d, lb)[name] == DirNames(geo, leaves, d, n)[name]
  {
    hide NamesIn;
    if name in NamesIn(geo, leaves, d, n - 1) {
      lb := n - 1;
    } else {
      lb := DirFrom(geo, leaves, d, n - 1, name);
    }
  }

  lemma {:induction false} DirHas(geo: Geometry, leaves: map<Loc, Bytes>, d: nat, n: nat, up: nat, lb: nat, name: Name)
    requires geo.Sane() && DirOk(geo, leaves, d, n, up) && lb < n && name in NamesIn(geo, leaves, d, lb)
    ensures name in DirNames(geo, leaves, d, n)
            && DirNames(geo, leaves, d, n)[name] == NamesIn(geo, leaves, d, lb)[name]
  {
    hide NamesIn, BlockOk;
    if lb < n - 1 {
      DirHas(geo, leaves, d, n - 1, up, lb, name);
    }
  }

  /** The map of a directory is the one map whose names are those of its blocks. */
  lemma DirIs(geo: Geometry, leaves: map<Loc, Bytes>, d: nat, n: nat, up: nat, m: map<Name, nat>)
    requires geo.Sane() && DirOk(geo, leaves, d, n, up)
    requires forall lb: nat, name :: lb < n && name in NamesIn(geo, leaves, d, lb) ==>
             name in m && m[name] == NamesIn(geo, leaves, d, lb)[name]
    requires forall name :: name in m ==> exists lb: nat :: lb < n && name in NamesIn(geo, leaves, d, lb)
    ensures m == DirNames(geo, leaves, d, n)
  {
    hide NamesIn, BlockOk, DirNames, DirOk;
    var dir := DirNames(geo, leaves, d, n);
    forall name | name in m
      ensures name in dir && dir[name] == m[name]
    {
      var lb: nat :| lb < n && name in NamesIn(geo, leaves, d, lb);
      DirHas(geo, leaves, d, n, up, lb, name);
    }
    forall name | name in dir
      ensures name in m
    {
      var lb := DirFrom(geo, leaves, d, n, name);
    }
  }

  /** A directory whose blocks are as they were is as it was. */
  lemma {:induction false} DirSame(geo: Geometry, a: map<Loc, Bytes>, b: map<Loc, Bytes>, d: nat, n: nat)
    requires geo.Sane() && forall lb: nat :: lb < n ==> BlockOf(geo, b, d, lb) == BlockOf(geo, a, d, lb)
    ensures DirNames(geo, b, d, n) == DirNames(geo, a, d, n)
    ensures forall up :: DirOk(geo, a, d, n, up) ==> DirOk(geo, b, d, n, up)
  {
    hide BlockOf, BlockOk, BlockNames;
    if n > 0 { DirSame(geo, a, b, d, n - 1); }
    assert forall lb: nat :: lb < n ==> NamesIn(geo, b, d, lb) == NamesIn(geo, a, d, lb);
  }

  /** `.` and `..` of a directory. */
  lemma DirDots(geo: Geometry, leaves: map<Loc, Bytes>, d: nat, n: nat, up: nat)
    requires geo.Sane() && DirOk(geo, leaves, d, n, up)
    ensures var m := DirNames(geo, leaves, d, n);
            DOT in m && m[DOT] == d && DOTDOT in m && m[DOTDOT] == up && d != 0 && up != 0
  {
    var block := BlockOf(geo, leaves, d, 0);
    assert BlockOk(geo, block, Some((d, up))) by { assert DotsAt(d, up, 0) == Some((d, up)); }
    DotsListed(geo, block, d, up);
    DirHas(geo, leaves, d, n, up, 0, DOT);
    DirHas(geo, leaves, d, n, up, 0, DOTDOT);
  }

  lemma DotsListed(geo: Geometry, block: Bytes, d: nat, up: nat)
    requires BlockOk(geo, block, Some((d, up)))
    ensures var m := BlockNames(geo, block);
            DOT in m && m[DOT] == d && DOTDOT in m && m[DOTDOT] == up && d != 0 && up != 0
  {
    hide Records, Listing, NameOf, Lists, NamesOk;
    var es := Records(geo, block);
    var ps := Pairs(block, es);
    PairsAt(block, es, 0);
    PairsAt(block, es, 1);
    ListingHas(ps, 0);
    ListingHas(ps, 1);
  }

  // ----- one block of a directory changed -----

  /** Block `lb` of `d` now holds `data`. */
  lemma BlockSet(geo: Geometry, leaves: map<Loc, Bytes>, d: nat, lb: nat, data: Bytes, other: nat)
    requires geo.Sane() && lb < Reach(geo.P())
    ensures BlockOf(geo, leaves[LeafFor(d, lb, geo.P()) := data], d, other) ==
            if other == lb then data else BlockOf(geo, leaves, d, other)
  {
    hide Reach;
  }

  /** One more name, or another inode for a name, in block `lb`. */
  lemma DirPut(geo: Geometry, leaves: map<Loc, Bytes>, d: nat, n: nat, up: nat, up': nat, lb: nat, data: Bytes,
        name: Name, ino: nat)
    requires geo.Sane() && DirOk(geo, leaves, d, n, up) && lb < n && lb < Reach(geo.P())
    requires BlockOk(geo, data, DotsAt(d, up', lb)) && (lb > 0 ==> up' == up)
    requires BlockNames(geo, data) == NamesIn(geo, leaves, d, lb)[name := ino]
    requires name in NamesIn(geo, leaves, d, lb) || name !in DirNames(geo, leaves, d, n)
    ensures var leaves' := leaves[LeafFor(d, lb, geo.P()) := data];
            && DirNames(geo, leaves', d, n) == DirNames(geo, leaves, d, n)[name := ino]
            && DirOk(geo, leaves', d, n, up')
  {
    hide BlockOf, BlockOk, BlockNames, DirNames, Reach, LeafFor;
    var leaves' := leaves[LeafFor(d, lb, geo.P()) := data];
    var m := DirNames(geo, leaves, d, n);
    forall other: nat
      ensures BlockOf(geo, leaves', d, other) == if other == lb then data else BlockOf(geo, leaves, d, other)
    {
      BlockSet(geo, leaves, d, lb, data, other);
    }
    forall other: nat | other < n && other != lb
      ensures name !in NamesIn(geo, leaves, d, other)
    {
      if name in NamesIn(geo, leaves, d, other) { DirHas(geo, leaves, d, n, up, other, name); }
    }
    assert forall other: nat :: other < n ==>
      NamesIn(geo, leaves', d, other) ==
          if other == lb then NamesIn(geo, leaves, d, lb)[name := ino] else NamesIn(geo, leaves, d, other);
    DirOne(geo, leaves, leaves', d, n, up, up', lb, name, m[name := ino]);
  }

  lemma DirOne(geo: Geometry, leaves: map<Loc, Bytes>, leaves': map<Loc, Bytes>, d: nat, n: nat, up: nat, up': nat,
        lb: nat, name: Name, m': map<Name, nat>)
    requires geo.Sane() && DirOk(geo, leaves, d, n, up) && DirOk(geo, leaves', d, n, up') && lb < n
    requires forall other: nat :: other < n && other != lb ==>
             NamesIn(geo, leaves', d, other) == NamesIn(geo, leaves, d, other)
    requires forall x :: x != name ==>
      && (x in NamesIn(geo, leaves', d, lb) <==> x in NamesIn(geo, leaves, d, lb))
      && (x in NamesIn(geo, leaves, d, lb) ==> NamesIn(geo, leaves', d, lb)[x] == NamesIn(geo, leaves, d, lb)[x])
    requires forall other: nat :: other < n && other != lb ==> name !in NamesIn(geo, leaves, d, other)
    requires forall x :: x != name ==>
      && (x in m' <==> x in DirNames(geo, leaves, d, n)) && (x in m' ==> m'[x] == DirNames(geo, leaves, d, n)[x])
    requires (name in m' <==> name in NamesIn(geo, leaves', d, lb))
             && (name in m' ==> m'[name] == NamesIn(geo, leaves', d, lb)[name])
    ensures DirNames(geo, leaves', d, n) == m'
  {
    hide NamesIn, DirNames, DirOk;
    forall i: nat, x | i < n && x in NamesIn(geo, leaves', d, i)
      ensures x in m' && m'[x] == NamesIn(geo, leaves', d, i)[x]
    {
      if x != name { DirHas(geo, leaves, d, n, up, i, x); }
    }
    forall x | x in m'
      ensures exists i: nat :: i < n && x in NamesIn(geo, leaves', d, i)
    {
      if x != name {
        var i := DirFrom(geo, leaves, d, n, x);
        assert x in NamesIn(geo, leaves', d, i);
      }
    }
    DirIs(geo, leaves', d, n, up', m');
  }

  /** One name less in block `lb`. */
  lemma DirCut(geo: Geometry, leaves: map<Loc, Bytes>, d: nat, n: nat, up: nat, lb: nat, data: Bytes, name: Name)
    requires geo.Sane() && DirOk(geo, leaves, d, n, up) && lb < n && lb < Reach(geo.P())
    requires BlockOk(geo, data, DotsAt(d, up, lb)) && name in NamesIn(geo, leaves, d, lb)
    requires BlockNames(geo, data) == NamesIn(geo, leaves, d, lb) - {name}
    ensures var leaves' := leaves[LeafFor(d, lb, geo.P()) := data];
            && DirNames(geo, leaves', d, n) == DirNames(geo, leaves, d, n) - {name}
            && DirOk(geo, leaves', d, n, up)
  {
    hide BlockOf, BlockOk, BlockNames, DirNames, Reach, LeafFor;
    var leaves' := leaves[LeafFor(d, lb, geo.P()) := data];
    forall other: nat
      ensures BlockOf(geo, leaves', d, other) == if other == lb then data else BlockOf(geo, leaves, d, other)
    {
      BlockSet(geo, leaves, d, lb, data, other);
    }
    assert forall other: nat :: other < n ==>
      NamesIn(geo, leaves', d, other) ==
          if other == lb then NamesIn(geo, leaves, d, lb) - {name} else NamesIn(geo, leaves, d, other);
    DirOne(geo, leaves, leaves', d, n, up, up, lb, name, DirNames(geo, leaves, d, n) - {name});
  }

  /** An empty block at the end. */
  lemma DirGrow(geo: Geometry, leaves: map<Loc, Bytes>, d: nat, n: nat, up: nat)
    requires geo.Sane() && DirOk(geo, leaves, d, n, up) && n < Reach(geo.P())
    ensures var leaves' := leaves[LeafFor(d, n, geo.P()) := InitEmpty(geo.blockSize)];
            && DirNames(geo, leaves', d, n + 1) == DirNames(geo, leaves, d, n)
            && DirOk(geo, leaves', d, n + 1, up)
            && Records(geo, InitEmpty(geo.blockSize)) == [Entry(0, 0, geo.blockSize, 0)]
            && BlockOf(geo, leaves', d, n) == InitEmpty(geo.blockSize) && NamesIn(geo, leaves', d, n) == map[]
  {
    hide BlockOf, Reach, LeafFor, Sound, Records, Listing;
    var data := InitEmpty(geo.blockSize);
    var leaves' := leaves[LeafFor(d, n, geo.P()) := data];
    forall other: nat
      ensures BlockOf(geo, leaves', d, other) == if other == n then data else BlockOf(geo, leaves, d, other)
    {
      BlockSet(geo, leaves, d, n, data, other);
    }
    EmptyBlock(geo);
    DirSame(geo, leaves, leaves', d, n);
    assert DirNames(geo, leaves', d, n + 1) == DirNames(geo, leaves', d, n) + map[];
  }

  lemma EmptyBlock(geo: Geometry)
    requires geo.Sane()
    ensures var data := InitEmpty(geo.blockSize);
            && BlockOk(geo, data, None) && BlockNames(geo, data) == map[]
            && Records(geo, data) == [Entry(0, 0, geo.blockSize, 0)]
  {
    hide Records, InitEmpty;
    var data, es := InitEmpty(geo.blockSize), [Entry(0, 0, geo.blockSize, 0)];
    SoundEmpty(geo.blockSize, geo.filetype, geo.inodesCount);
    InitEmptyOk(geo.blockSize, geo.filetype, geo.inodesCount);
    RecordsAre(geo, data, es);
    assert |data| == geo.blockSize;
  }
}

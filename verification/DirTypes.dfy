/** The type bytes of the entries of all directories of a volume: what a step of an operation does to them, and
    the invariant that every entry has the type of the inode it names. */
module DirTypes {
  import opened Wrappers
  import opened Le
  import opened Arith
  import opened BlockPath
  import opened Volume
  import opened FileData
  import Dirent
  import opened Directory
  import opened DirOps
  import opened EntryTypes
  import opened Namespace
  import opened NameTree

  // ----- one directory -----

  lemma NotIn(geo: Geometry, leaves: map<Loc, Bytes>, d: nat, n: nat, up: nat, lb: nat, name: Dirent.Name, t: byte)
    requires geo.Sane() && DirOk(geo, leaves, d, n, up) && lb < n && name !in NamesIn(geo, leaves, d, lb)
    ensures TypedIn(geo, BlockOf(geo, leaves, d, lb), name, t)
  {
    hide Records, BlockOf, Dirent.NameOf, IsNamed, TypeAt, BlockNames, Dirent.Lists, Dirent.NamesOk;
    var block := BlockOf(geo, leaves, d, lb);
    assert BlockOk(geo, block, DotsAt(d, up, lb));
    forall k: nat ensures !IsNamed(geo, block, k, name) {
      NotNamed(geo, block, name, k);
    }
  }

  /** What block `lb` becoming `data` does to the types of directory `d`. */
  lemma BlockTyped(geo: Geometry, a: map<Loc, Bytes>, d: nat, n: nat, lb: nat, data: Bytes, name: Dirent.Name, t: byte)
    requires geo.Sane() && lb < Reach(geo.P()) && TypedIn(geo, data, name, t)
    requires forall other: nat :: other < n && other != lb ==> TypedIn(geo, BlockOf(geo, a, d, other), name, t)
    ensures Typed(geo, a[LeafFor(d, lb, geo.P()) := data], d, n, name, t)
  {
    hide BlockOf, TypedIn, Reach, LeafFor;
    var b := a[LeafFor(d, lb, geo.P()) := data];
    forall other: nat | other < n
      ensures TypedIn(geo, BlockOf(geo, b, d, other), name, t)
    {
      BlockSet(geo, a, d, lb, data, other);
    }
  }

  lemma SoundBlock(geo: Geometry, leaves: map<Loc, Bytes>, d: nat, n: nat, up: nat, lb: nat)
    requires geo.Sane() && DirOk(geo, leaves, d, n, up) && lb < n
    ensures var block := BlockOf(geo, leaves, d, lb);
            && |block| == geo.blockSize && Dirent.Lists(block, Records(geo, block), geo.filetype, geo.inodesCount)
            && Dirent.DistinctNames(Dirent.Pairs(block, Records(geo, block)))
  {
    hide Records, BlockOf, Dirent.Lists, Dirent.DistinctNames, Dirent.NamesOk, Dirent.Dots;
    assert BlockOk(geo, BlockOf(geo, leaves, d, lb), DotsAt(d, up, lb));
  }

  /** An entry put in a directory has its type, and the others keep theirs. */
  lemma PutTyped(geo: Geometry, a: map<Loc, Bytes>, b: map<Loc, Bytes>, d: nat, n: nat, up: nat, name: Dirent.Name,
        ino: nat, t: byte, m: Dirent.Name, u: byte)
    requires geo.Sane() && geo.filetype && DirOk(geo, a, d, n, up) && name !in DirNames(geo, a, d, n)
    requires 0 < ino <= geo.inodesCount && EntryPut(geo, a, b, d, n, name, ino, Some(t))
    requires m != name ==> Typed(geo, a, d, n, m, u)
    ensures Typed(geo, b, d, n, name, t) && (m != name ==> Typed(geo, b, d, n, m, u))
  {
    hide BlockOf, TypedIn, Reach, LeafFor, Records, DirNames, DirOk, BlockNames, Dirent.CanInsert, Dirent.Insert,
         FirstRoom, Dirent.Lists, Dirent.DistinctNames;
    var lb: nat, k: nat :| FirstRoom(geo, a, d, lb, k, |name|) && lb < n && lb < Reach(geo.P())
        && EntryPutAt(geo, a, b, d, lb, k, name, ino, Some(t));
    var block := BlockOf(geo, a, d, lb);
    forall other: nat | other < n
      ensures name !in NamesIn(geo, a, d, other)
    {
      if name in NamesIn(geo, a, d, other) { DirHas(geo, a, d, n, up, other, name); }
    }
    SoundBlock(geo, a, d, n, up, lb);
    assert name !in NamesIn(geo, a, d, lb);
    InsertTyped(geo, block, k, name, ino, t, m, u);
    var data := Dirent.Insert(block, Records(geo, block)[k], name, ino, Some(t));
    forall other: nat | other < n && other != lb
      ensures TypedIn(geo, BlockOf(geo, a, d, other), name, t)
    {
      NotIn(geo, a, d, n, up, other, name, t);
    }
    BlockTyped(geo, a, d, n, lb, data, name, t);
    if m != name { BlockTyped(geo, a, d, n, lb, data, m, u); }
  }

  /** A new empty block has no entry. */
  lemma RoomTyped(geo: Geometry, a: map<Loc, Bytes>, d: nat, n: nat, m: Dirent.Name, u: byte)
    requires geo.Sane() && n < Reach(geo.P()) && Typed(geo, a, d, n, m, u)
    ensures Typed(geo, a[LeafFor(d, n, geo.P()) := Dirent.InitEmpty(geo.blockSize)], d, n + 1, m, u)
  {
    hide BlockOf, Reach, LeafFor, Records, Dirent.InitEmpty, BlockOk, BlockNames;
    EmptyBlock(geo);
    BlockTyped(geo, a, d, n + 1, n, Dirent.InitEmpty(geo.blockSize), m, u);
  }

  /** An entry cut from a directory; the others keep their types. */
  lemma CutTyped(geo: Geometry, a: map<Loc, Bytes>, b: map<Loc, Bytes>, d: nat, n: nat, up: nat, lb: nat, k: nat,
        m: Dirent.Name, u: byte)
    requires geo.Sane() && geo.filetype && DirOk(geo, a, d, n, up) && lb < n && lb < Reach(geo.P())
    requires EntryCutAt(geo, a, b, d, lb, k) && Records(geo, BlockOf(geo, a, d, lb))[k].inode != 0
    requires Typed(geo, a, d, n, m, u)
    ensures Typed(geo, b, d, n, m, u)
  {
    hide BlockOf, TypedIn, Reach, LeafFor, Records, DirOk, Dirent.Remove, Dirent.Lists, Dirent.DistinctNames;
    var block := BlockOf(geo, a, d, lb);
    SoundBlock(geo, a, d, n, up, lb);
    RemoveTyped(geo, block, k, m, u);
    BlockTyped(geo, a, d, n, lb, Dirent.Remove(block, Records(geo, block), k), m, u);
  }

  /** An entry pointed elsewhere has its new type, and the others keep theirs. */
  lemma SetTyped(geo: Geometry, a: map<Loc, Bytes>, b: map<Loc, Bytes>, d: nat, n: nat, up: nat, lb: nat, k: nat,
        ino: nat, t: byte, m: Dirent.Name, u: byte)
    requires geo.Sane() && geo.filetype && DirOk(geo, a, d, n, up) && lb < n && lb < Reach(geo.P())
    requires 0 < ino <= geo.inodesCount && EntrySetAt(geo, a, b, d, lb, k, ino, Some(t))
             && Records(geo, BlockOf(geo, a, d, lb))[k].inode != 0
    requires var block := BlockOf(geo, a, d, lb);
             m != Dirent.NameOf(block, Records(geo, block)[k]) ==> Typed(geo, a, d, n, m, u)
    ensures var block := BlockOf(geo, a, d, lb);
            var name := Dirent.NameOf(block, Records(geo, block)[k]);
            Typed(geo, b, d, n, name, t) && (m != name ==> Typed(geo, b, d, n, m, u))
  {
    hide BlockOf, TypedIn, Reach, LeafFor, Records, DirOk, Dirent.Retarget, Dirent.Lists, Dirent.DistinctNames,
         Dirent.NameOf, BlockNames;
    var block := BlockOf(geo, a, d, lb);
    var name := Dirent.NameOf(block, Records(geo, block)[k]);
    SoundBlock(geo, a, d, n, up, lb);
    RetargetTyped(geo, block, k, ino, t, m, u);
    var data := Dirent.Retarget(block, Records(geo, block)[k], ino, Some(t));
    EntryListed(geo, a, d, n, up, lb, k);
    forall other: nat | other < n && other != lb
      ensures TypedIn(geo, BlockOf(geo, a, d, other), name, t)
    {
      OnlyHere(geo, a, d, n, up, lb, other, name);
      NotIn(geo, a, d, n, up, other, name, t);
    }
    BlockTyped(geo, a, d, n, lb, data, name, t);
    if m != name { BlockTyped(geo, a, d, n, lb, data, m, u); }
  }

  lemma OnlyHere(geo: Geometry, leaves: map<Loc, Bytes>, d: nat, n: nat, up: nat, lb: nat, other: nat,
        name: Dirent.Name)
    requires geo.Sane() && DirOk(geo, leaves, d, n, up) && lb < n && other < n && other != lb
    requires name in NamesIn(geo, leaves, d, lb)
    ensures name !in NamesIn(geo, leaves, d, other)
  {
    hide NamesIn, BlockOk;
  }

  /** `.` and `..` of a directory of one block have the type of directories. */
  ghost predicate DotsTyped(geo: Geometry, leaves: map<Loc, Bytes>, d: nat)
    requires geo.Sane()
  {
    geo.filetype ==>
      && Typed(geo, leaves, d, 1, Dirent.DOT, Dirent.TypeByte(Directory))
      && Typed(geo, leaves, d, 1, Dirent.DOTDOT, Dirent.TypeByte(Directory))
  }

  lemma NewDirTyped(geo: Geometry, leaves: map<Loc, Bytes>, d: nat, up: nat)
    requires geo.Sane() && 0 < d <= geo.inodesCount && 0 < up <= geo.inodesCount
    requires BlockOf(geo, leaves, d, 0) == Dirent.InitDir(geo.blockSize, d, up, geo.filetype)
    ensures DotsTyped(geo, leaves, d)
  {
    hide BlockOf, Records, Dirent.InitDir;
    if geo.filetype {
      var block := BlockOf(geo, leaves, d, 0);
      var es := [Dirent.Entry(0, d, 12, 1), Dirent.Entry(12, up, geo.blockSize - 12, 2)];
      Dirent.InitDirOk(geo.blockSize, d, up, true, geo.inodesCount);
      RecordsAre(geo, block, es);
      InitDirTypes(geo.blockSize, d, up);
    }
  }

  lemma InitDirTypes(n: nat, d: u32, up: u32)
    requires 24 <= n <= U16_MAX
    ensures var block := Dirent.InitDir(n, d, up, true);
            block[7] == Dirent.TypeByte(Directory) && block[19] == Dirent.TypeByte(Directory)
  {
    hide Dirent.RecordBytes;
    var t := Some(Dirent.TypeByte(Directory));
    RecordType(12, Dirent.DOT, d, t.value);
    RecordType(n - 12, Dirent.DOTDOT, up, t.value);
  }

  // ----- all directories -----

  /** The entry `d`/`m`, if there is one, has type byte `t`. */
  ghost predicate TypeIs(geo: Geometry, leaves: map<Loc, Bytes>, live: map<nat, Inode>, d: nat, m: Dirent.Name, t: byte)
    requires geo.Sane() && d in live
  {
    Typed(geo, leaves, d, Lb(geo, live[d].size), m, t)
  }

  /** A step gave the entries in `put` the type bytes of these kinds, and left every other entry its own. */
  ghost predicate TypesStep(geo: Geometry, a: map<Loc, Bytes>, b: map<Loc, Bytes>, live: map<nat, Inode>,
        live': map<nat, Inode>, put: map<Place, FileType>)
    requires geo.Sane()
  {
    geo.filetype ==>
      forall d: nat, m: Dirent.Name, u: byte :: TypeStep(geo, a, b, live, live', put, d, m, u)
  }

  ghost predicate TypeStep(geo: Geometry, a: map<Loc, Bytes>, b: map<Loc, Bytes>, live: map<nat, Inode>,
        live': map<nat, Inode>, put: map<Place, FileType>, d: nat, m: Dirent.Name, u: byte)
    requires geo.Sane()
  {
    IsDir(live', d) ==>
      if (d, m) in put then TypeIs(geo, b, live', d, m, Dirent.TypeByte(put[(d, m)]))
      else IsDir(live, d) && TypeIs(geo, a, live, d, m, u) ==> TypeIs(geo, b, live', d, m, u)
  }

  /** Directory `d` has the size and the blocks it had. */
  ghost predicate DirStays(a: map<Loc, Bytes>, b: map<Loc, Bytes>, live: map<nat, Inode>, live': map<nat, Inode>,
        d: nat) {
    && IsDir(live, d) && IsDir(live', d) && live'[d].size == live[d].size
    && forall l: Loc :: l.Ino() == d ==> (l in a <==> l in b) && (l in a ==> b[l] == a[l])
  }

  lemma TypeStays(geo: Geometry, a: map<Loc, Bytes>, b: map<Loc, Bytes>, live: map<nat, Inode>,
        live': map<nat, Inode>, put: map<Place, FileType>, d: nat, m: Dirent.Name, u: byte)
    requires geo.Sane() && DirStays(a, b, live, live', d) && (d, m) !in put
    ensures TypeStep(geo, a, b, live, live', put, d, m, u)
  {
    hide TypedIn, LeafFor, Reach, Lb;
    forall lb: nat ensures BlockOf(geo, b, d, lb) == BlockOf(geo, a, d, lb) {
    }
  }

  /** No directory changed. */
  lemma NoneStep(geo: Geometry, a: map<Loc, Bytes>, b: map<Loc, Bytes>, live: map<nat, Inode>, live': map<nat, Inode>)
    requires geo.Sane() && forall d :: IsDir(live', d) ==> DirStays(a, b, live, live', d)
    ensures TypesStep(geo, a, b, live, live', map[])
  {
    hide TypeStep, DirStays;
    forall d: nat, m: Dirent.Name, u: byte
      ensures TypeStep(geo, a, b, live, live', map[], d, m, u)
    {
      if IsDir(live', d) {
        TypeStays(geo, a, b, live, live', map[], d, m, u);
      } else {
        NoDir(geo, a, b, live, live', map[], d, m, u);
      }
    }
  }

  lemma NoDir(geo: Geometry, a: map<Loc, Bytes>, b: map<Loc, Bytes>, live: map<nat, Inode>, live': map<nat, Inode>,
        put: map<Place, FileType>, d: nat, m: Dirent.Name, u: byte)
    requires geo.Sane() && !IsDir(live', d)
    ensures TypeStep(geo, a, b, live, live', put, d, m, u)
  {
  }

  /** Directory `d` changed, and no other. */
  lemma OneStep(geo: Geometry, a: map<Loc, Bytes>, b: map<Loc, Bytes>, live: map<nat, Inode>, live': map<nat, Inode>,
        put: map<Place, FileType>, d: nat)
    requires geo.Sane() && OthersKept(a, b, d)
             && forall x :: x != d && IsDir(live', x) ==> x in live && live'[x] == live[x]
    requires forall k :: k in put ==> k.0 == d
    requires geo.filetype ==> forall m: Dirent.Name, u: byte :: TypeStep(geo, a, b, live, live', put, d, m, u)
    ensures TypesStep(geo, a, b, live, live', put)
  {
    hide TypeStep;
    if geo.filetype {
      forall x: nat, m: Dirent.Name, u: byte
        ensures TypeStep(geo, a, b, live, live', put, x, m, u)
      {
        if x != d {
          if IsDir(live', x) {
            TypeStays(geo, a, b, live, live', put, x, m, u);
          } else {
            NoDir(geo, a, b, live, live', put, x, m, u);
          }
        }
      }
    }
  }

  /** Two steps are one; the directories at the end were there in between. */
  lemma StepTrans(geo: Geometry, a: map<Loc, Bytes>, b: map<Loc, Bytes>, c: map<Loc, Bytes>, live: map<nat, Inode>,
        live': map<nat, Inode>, live'': map<nat, Inode>, put: map<Place, FileType>, put': map<Place, FileType>)
    requires geo.Sane() && TypesStep(geo, a, b, live, live', put) && TypesStep(geo, b, c, live', live'', put')
    requires forall d :: IsDir(live'', d) ==> IsDir(live', d)
    ensures TypesStep(geo, a, c, live, live'', put + put')
  {
    hide TypeIs;
    if geo.filetype {
      forall d: nat, m: Dirent.Name, u: byte
        ensures TypeStep(geo, a, c, live, live'', put + put', d, m, u)
      {
        assert TypeStep(geo, a, b, live, live', put, d, m, u);
        assert TypeStep(geo, b, c, live', live'', put', d, m,
               if (d, m) in put then Dirent.TypeByte(put[(d, m)]) else u);
      }
    }
  }

  /** The same with one more entry put, or none. */
  lemma StepPut(geo: Geometry, a: map<Loc, Bytes>, b: map<Loc, Bytes>, c: map<Loc, Bytes>, live: map<nat, Inode>,
        live': map<nat, Inode>, live'': map<nat, Inode>, put: map<Place, FileType>, at: Place, kind: FileType)
    requires geo.Sane() && TypesStep(geo, a, b, live, live', put)
             && TypesStep(geo, b, c, live', live'', map[at := kind])
    requires forall d :: IsDir(live'', d) ==> IsDir(live', d)
    ensures TypesStep(geo, a, c, live, live'', put[at := kind])
  {
    hide TypesStep;
    StepTrans(geo, a, b, c, live, live', live'', put, map[at := kind]);
    assert put + map[at := kind] == put[at := kind];
  }

  lemma StepNone(geo: Geometry, a: map<Loc, Bytes>, b: map<Loc, Bytes>, c: map<Loc, Bytes>, live: map<nat, Inode>,
        live': map<nat, Inode>, live'': map<nat, Inode>, put: map<Place, FileType>)
    requires geo.Sane() && TypesStep(geo, a, b, live, live', put) && TypesStep(geo, b, c, live', live'', map[])
    requires forall d :: IsDir(live'', d) ==> IsDir(live', d)
    ensures TypesStep(geo, a, c, live, live'', put)
  {
    hide TypesStep;
    StepTrans(geo, a, b, c, live, live', live'', put, map[]);
    assert put + map[] == put;
  }

  lemma SelfStep(geo: Geometry, a: map<Loc, Bytes>, live: map<nat, Inode>)
    requires geo.Sane()
    ensures TypesStep(geo, a, a, live, live, map[])
  {
    hide TypesStep;
    NoneStep(geo, a, a, live, live);
  }

  // ----- the steps of the operations -----

  lemma PutStep(geo: Geometry, a: map<Loc, Bytes>, b: map<Loc, Bytes>, live: map<nat, Inode>, dir: Inode,
        dir': Inode, up: nat, name: Dirent.Name, ino: nat, kind: FileType)
    requires geo.Sane() && IsDir(live, dir.ino) && live[dir.ino] == dir && dir'.ino == dir.ino
    requires DirOk(geo, a, dir.ino, Lb(geo, dir.size), up) && Times(Lb(geo, dir.size), geo.blockSize) == dir.size
    requires DirOk(geo, b, dir.ino, Lb(geo, dir'.size), up)
    requires dir'.size == dir.size || dir'.size == dir.size + geo.blockSize
    requires name !in DirNames(geo, a, dir.ino, Lb(geo, dir.size)) && 0 < ino <= geo.inodesCount
    requires EntryPut(geo, Room(geo, a, dir, dir'), b, dir.ino, Lb(geo, dir'.size), name, ino, TypeOf(geo, kind))
    requires OthersKept(a, b, dir.ino)
    ensures TypesStep(geo, a, b, live, live[dir.ino := dir'], map[(dir.ino, name) := kind])
  {
    hide DirOk, DirNames, EntryPut, OthersKept, TypeStep, Room, Lb, TypesStep;
    var d, live', put := dir.ino, live[dir.ino := dir'], map[(dir.ino, name) := kind];
    if geo.filetype {
      forall m: Dirent.Name, u: byte
        ensures TypeStep(geo, a, b, live, live', put, d, m, u)
      {
        PutStepAt(geo, a, b, live, dir, dir', up, name, ino, kind, m, u);
      }
    }
    OneStep(geo, a, b, live, live', put, d);
  }

  lemma PutStepAt(geo: Geometry, a: map<Loc, Bytes>, b: map<Loc, Bytes>, live: map<nat, Inode>, dir: Inode,
        dir': Inode, up: nat, name: Dirent.Name, ino: nat, kind: FileType, m: Dirent.Name, u: byte)
    requires geo.Sane() && geo.filetype && IsDir(live, dir.ino) && live[dir.ino] == dir && dir'.ino == dir.ino
    requires DirOk(geo, a, dir.ino, Lb(geo, dir.size), up) && Times(Lb(geo, dir.size), geo.blockSize) == dir.size
    requires DirOk(geo, b, dir.ino, Lb(geo, dir'.size), up)
    requires dir'.size == dir.size || dir'.size == dir.size + geo.blockSize
    requires name !in DirNames(geo, a, dir.ino, Lb(geo, dir.size)) && 0 < ino <= geo.inodesCount
    requires EntryPut(geo, Room(geo, a, dir, dir'), b, dir.ino, Lb(geo, dir'.size), name, ino, TypeOf(geo, kind))
    ensures TypeStep(geo, a, b, live, live[dir.ino := dir'], map[(dir.ino, name) := kind], dir.ino, m,
                     u)
  {
    hide DirOk, DirNames, EntryPut, Typed, Lb, Reach, LeafFor, Dirent.InitEmpty;
    var d, n, n', t := dir.ino, Lb(geo, dir.size), Lb(geo, dir'.size), Dirent.TypeByte(kind);
    var c := Room(geo, a, dir, dir');
    if dir'.size != dir.size {
      NextBlock(geo, dir.size);
      InReach(geo, b, d, n', up, n);
      DirGrow(geo, a, d, n, up);
      if Typed(geo, a, d, n, m, u) { RoomTyped(geo, a, d, n, m, u); }
    }
    if m == name || Typed(geo, c, d, n', m, u) {
      PutTyped(geo, c, b, d, n', up, name, ino, t, m, u);
    }
  }

  lemma InReach(geo: Geometry, leaves: map<Loc, Bytes>, d: nat, n: nat, up: nat, lb: nat)
    requires geo.Sane() && DirOk(geo, leaves, d, n, up) && lb < n
    ensures lb < Reach(geo.P())
  {
    hide Dirent.Sound, Records, Reach, LeafFor;
    assert BlockOk(geo, BlockOf(geo, leaves, d, lb), DotsAt(d, up, lb));
  }

  lemma DropStep(geo: Geometry, a: map<Loc, Bytes>, b: map<Loc, Bytes>, live: map<nat, Inode>, d: nat, up: nat, lb: nat,
        k: nat)
    requires geo.Sane() && IsDir(live, d) && DirOk(geo, a, d, Lb(geo, live[d].size), up)
    requires lb < Lb(geo, live[d].size) && lb < Reach(geo.P()) && EntryCutAt(geo, a, b, d, lb, k)
             && Records(geo, BlockOf(geo, a, d, lb))[k].inode != 0
    requires OthersKept(a, b, d)
    ensures TypesStep(geo, a, b, live, live, map[])
  {
    hide DirOk, EntryCutAt, Typed, Lb, Reach, Records, BlockOf, OthersKept;
    if geo.filetype {
      forall m: Dirent.Name, u: byte
        ensures TypeStep(geo, a, b, live, live, map[], d, m, u)
      {
        if TypeIs(geo, a, live, d, m, u) { CutTyped(geo, a, b, d, Lb(geo, live[d].size), up, lb, k, m, u); }
      }
    }
    OneStep(geo, a, b, live, live, map[], d);
  }

  lemma SetStep(geo: Geometry, a: map<Loc, Bytes>, b: map<Loc, Bytes>, live: map<nat, Inode>, d: nat, up: nat, lb: nat,
        k: nat, name: Dirent.Name, ino: nat, kind: FileType)
    requires geo.Sane() && IsDir(live, d) && DirOk(geo, a, d, Lb(geo, live[d].size), up)
    requires 0 < ino <= geo.inodesCount && lb < Lb(geo, live[d].size) && lb < Reach(geo.P())
             && EntrySetAt(geo, a, b, d, lb, k, ino, TypeOf(geo, kind))
    requires var block := BlockOf(geo, a, d, lb);
             Records(geo, block)[k].inode != 0 && Dirent.NameOf(block, Records(geo, block)[k]) == name
    requires OthersKept(a, b, d)
    ensures TypesStep(geo, a, b, live, live, map[(d, name) := kind])
  {
    hide DirOk, EntrySetAt, Typed, Lb, Reach, Records, BlockOf, OthersKept, Dirent.NameOf;
    var put := map[(d, name) := kind];
    if geo.filetype {
      forall m: Dirent.Name, u: byte
        ensures TypeStep(geo, a, b, live, live, put, d, m, u)
      {
        if m == name || TypeIs(geo, a, live, d, m, u) {
          SetTyped(geo, a, b, d, Lb(geo, live[d].size), up, lb, k, ino, Dirent.TypeByte(kind), m, u);
        }
      }
    }
    OneStep(geo, a, b, live, live, put, d);
  }

  /** Another link count. */
  lemma RelinkStep(geo: Geometry, a: map<Loc, Bytes>, live: map<nat, Inode>, inode: Inode)
    requires geo.Sane() && inode.ino in live && live[inode.ino].InUse()
             && inode == live[inode.ino].(links := inode.links)
    ensures TypesStep(geo, a, a, live, live[inode.ino := inode], map[])
  {
    hide TypesStep;
    NoneStep(geo, a, a, live, live[inode.ino := inode]);
  }

  /** A change to what is no directory afterwards. */
  lemma FileStep(geo: Geometry, a: map<Loc, Bytes>, b: map<Loc, Bytes>, live: map<nat, Inode>, inode: Inode)
    requires geo.Sane() && OthersKept(a, b, inode.ino) && !(inode.InUse() && inode.kind == Directory)
    ensures TypesStep(geo, a, b, live, live[inode.ino := inode], map[])
  {
    hide TypesStep;
    NoneStep(geo, a, b, live, live[inode.ino := inode]);
  }

  /** What a new directory's first block puts. */
  function DotTypes(x: nat): map<Place, FileType> {
    map[(x, Dirent.DOT) := Directory, (x, Dirent.DOTDOT) := Directory]
  }

  function KindOf(dir: bool): FileType {
    if dir then Directory else Regular
  }

  function NewTypes(x: nat, dir: bool): map<Place, FileType> {
    if dir then DotTypes(x) else map[]
  }

  /** What creating puts: the entry, and `.` and `..` of a directory. */
  function MadeTypes(at: Place, x: nat, dir: bool): map<Place, FileType> {
    NewTypes(x, dir)[at := KindOf(dir)]
  }

  lemma NewDirStep(geo: Geometry, a: map<Loc, Bytes>, b: map<Loc, Bytes>, live: map<nat, Inode>, inode: Inode)
    requires geo.Sane() && OthersKept(a, b, inode.ino) && !IsDir(live, inode.ino) && inode.size == geo.blockSize
    requires DotsTyped(geo, b, inode.ino)
    ensures TypesStep(geo, a, b, live, live[inode.ino := inode], DotTypes(inode.ino))
  {
    hide TypesStep, Typed, OthersKept;
    var live' := live[inode.ino := inode];
    if geo.filetype {
      QuotOf(1, geo.blockSize, 0);
      assert Lb(geo, geo.blockSize) == 1;
      forall m: Dirent.Name, u: byte
        ensures TypeStep(geo, a, b, live, live', DotTypes(inode.ino), inode.ino, m, u)
      {
      }
    }
    OneStep(geo, a, b, live, live', DotTypes(inode.ino), inode.ino);
  }

  // ----- every entry has the type of its inode -----

  ghost predicate TypesOk(geo: Geometry, leaves: map<Loc, Bytes>, live: map<nat, Inode>)
    requires geo.Sane()
  {
    geo.filetype ==> forall d: nat, m: Dirent.Name :: EntryTyped(geo, leaves, live, d, m)
  }

  ghost predicate EntryTyped(geo: Geometry, leaves: map<Loc, Bytes>, live: map<nat, Inode>, d: nat, m: Dirent.Name)
    requires geo.Sane()
  {
    IsDir(live, d) && m in DirEntries(geo, leaves, live, d) ==>
      var x := DirEntries(geo, leaves, live, d)[m];
      x in live && TypeIs(geo, leaves, live, d, m, Dirent.TypeByte(live[x].kind))
  }

  /** The kinds put are those of the inodes named, and no entry without one is new. */
  ghost predicate PutsFit(ns: Ns, ns': Ns, put: map<Place, FileType>) {
    && (forall k: Place :: k in put && Dirent.Dotted(k.1) ==> put[k] == Directory)
    && (forall d: nat :: d in ns'.up && d !in ns.up ==> (d, Dirent.DOT) in put && (d, Dirent.DOTDOT) in put)
    && (forall k: Place :: k in ns'.names ==> PutFits(ns, ns', put, k))
  }

  ghost predicate PutFits(ns: Ns, ns': Ns, put: map<Place, FileType>, k: Place)
    requires k in ns'.names
  {
    var x := ns'.names[k];
    && x in ns'.kind
    && if k in put then put[k] == ns'.kind[x]
       else k in ns.names && ns.names[k] == x && x in ns.kind && ns.kind[x] == ns'.kind[x]
  }

  /** An entry named like a file. */
  lemma NameTyped(geo: Geometry, a: map<Loc, Bytes>, b: map<Loc, Bytes>, live: map<nat, Inode>,
        live': map<nat, Inode>, put: map<Place, FileType>, d: nat, m: Dirent.Name)
    requires geo.Sane() && geo.filetype && TypesStep(geo, a, b, live, live', put)
    requires EntryTyped(geo, a, live, d, m) && !Dirent.Dotted(m)
    requires PutsFit(NsOf(geo, a, live), NsOf(geo, b, live'), put)
    ensures EntryTyped(geo, b, live', d, m)
  {
    hide DirEntries, Dirent.Dotted, NsOf, TypeIs, UpOf;
    var ns, ns' := NsOf(geo, a, live), NsOf(geo, b, live');
    if IsDir(live', d) && m in DirEntries(geo, b, live', d) {
      NsOfIs(geo, a, live, d);
      NsOfIs(geo, b, live', d);
      EntryAt(geo, a, live, ns, d, m);
      EntryAt(geo, b, live', ns', d, m);
      assert PutFits(ns, ns', put, (d, m));
      var x := ns'.names[(d, m)];
      NsOfIs(geo, a, live, x);
      NsOfIs(geo, b, live', x);
      assert TypeStep(geo, a, b, live, live', put, d, m, Dirent.TypeByte(live'[x].kind));
    }
  }

  /** `.` or `..` */
  lemma DotTyped(geo: Geometry, a: map<Loc, Bytes>, b: map<Loc, Bytes>, live: map<nat, Inode>,
        live': map<nat, Inode>, put: map<Place, FileType>, d: nat, m: Dirent.Name)
    requires geo.Sane() && geo.filetype && TypesStep(geo, a, b, live, live', put)
    requires DirsOk(geo, a, live) && DirsOk(geo, b, live')
    requires EntryTyped(geo, a, live, d, m) && Dirent.Dotted(m)
    requires var ns, ns' := NsOf(geo, a, live), NsOf(geo, b, live');
             PutsFit(ns, ns', put) && EntriesOk(ns) && EntriesOk(ns') && TreeUp(ns.up) && TreeUp(ns'.up)
    ensures EntryTyped(geo, b, live', d, m)
  {
    hide DirEntries, NsOf, TypeIs, DirSound, DirsOk, PutFits;
    if IsDir(live', d) {
      DotsName(geo, b, live', d);
      if IsDir(live, d) { DotsName(geo, a, live, d); }
      NsOfIs(geo, a, live, d);
      assert TypeStep(geo, a, b, live, live', put, d, m, Dirent.TypeByte(Directory));
    }
  }

  /** `.` and `..` of a directory name directories. */
  lemma DotsName(geo: Geometry, leaves: map<Loc, Bytes>, live: map<nat, Inode>, d: nat)
    requires geo.Sane() && DirsOk(geo, leaves, live) && IsDir(live, d)
    requires var ns := NsOf(geo, leaves, live); EntriesOk(ns) && TreeUp(ns.up)
    ensures var m := DirEntries(geo, leaves, live, d);
            && Dirent.DOT in m && m[Dirent.DOT] == d
            && Dirent.DOTDOT in m && IsDir(live, m[Dirent.DOTDOT])
            && d in NsOf(geo, leaves, live).up
  {
    hide NsOf, DirOk, DirNames, Rooted;
    var ns := NsOf(geo, leaves, live);
    DirDots(geo, leaves, d, Lb(geo, live[d].size), UpOf(geo, leaves, live, d));
    NsOfIs(geo, leaves, live, d);
    NsOfIs(geo, leaves, live, ns.up[d]);
  }

  /** Every entry has the type of its inode again. */
  lemma TypesFollow(geo: Geometry, a: map<Loc, Bytes>, b: map<Loc, Bytes>, live: map<nat, Inode>,
        live': map<nat, Inode>, put: map<Place, FileType>)
    requires geo.Sane() && TypesStep(geo, a, b, live, live', put) && TypesOk(geo, a, live)
    requires DirsOk(geo, a, live) && DirsOk(geo, b, live')
    requires NsOk(NsOf(geo, a, live)) && NsOk(NsOf(geo, b, live'))
    requires PutsFit(NsOf(geo, a, live), NsOf(geo, b, live'), put)
    ensures TypesOk(geo, b, live')
  {
    hide DirEntries, NsOf, EntryTyped, TypesStep, DirsOk, PutsFit, EntriesOk, TreeUp, DirsOnce, DirLinks, FileLinks,
         Dirent.Dotted;
    if geo.filetype {
      forall d: nat, m: Dirent.Name
        ensures EntryTyped(geo, b, live', d, m)
      {
        if Dirent.Dotted(m) {
          DotTyped(geo, a, b, live, live', put, d, m);
        } else {
          NameTyped(geo, a, b, live, live', put, d, m);
        }
      }
    }
  }

  lemma MadeFits(ns: Ns, at: Place, x: nat, dir: bool)
    requires NsOk(ns) && at.0 in ns.up && at !in ns.names && x !in ns.kind && !Dirent.Dotted(at.1)
    ensures PutsFit(ns, Made(ns, at, x, dir), MadeTypes(at, x, dir))
  {
    hide DirsOnce, TreeUp, DirLinks, FileLinks, Dirent.Dotted;
  }

  lemma UnlinkedFits(ns: Ns, at: Place)
    requires NsOk(ns) && at in ns.names && NsOk(Unlinked(ns, at))
    ensures PutsFit(ns, Unlinked(ns, at), map[])
  {
    hide TreeUp, DirLinks, FileLinks, DirsOnce, Dirent.Dotted;
  }

  lemma DirRemovedFits(ns: Ns, at: Place)
    requires NsOk(ns) && at in ns.names && NsOk(DirRemoved(ns, at))
    ensures PutsFit(ns, DirRemoved(ns, at), map[])
  {
    hide TreeUp, DirLinks, FileLinks, DirsOnce, Dirent.Dotted;
  }

  /** What renaming puts: the new entry, and `..` of a directory in another one. */
  ghost function MovedTypes(ns: Ns, from: Place, to: Place): map<Place, FileType>
    requires NsOk(ns) && from in ns.names
  {
    var x := ns.names[from];
    var put := map[to := ns.kind[x]];
    if x in ns.up && from.0 != to.0 then put[(x, Dirent.DOTDOT) := Directory] else put
  }

  /** No name is `.` or `..`. */
  ghost predicate Plain(names: map<Place, nat>) {
    forall k: Place :: k in names ==> !Dirent.Dotted(k.1)
  }

  lemma AllPlain(geo: Geometry, leaves: map<Loc, Bytes>, live: map<nat, Inode>)
    requires geo.Sane()
    ensures Plain(NsOf(geo, leaves, live).names)
  {
    hide Dirent.Dotted, DirEntries;
    forall k: Place | k in NsOf(geo, leaves, live).names
      ensures !Dirent.Dotted(k.1)
    {
      assert k == (k.0, k.1);
    }
  }

  lemma RenamedFits(ns: Ns, from: Place, to: Place)
    requires NsOk(ns) && from in ns.names && from != to && NsOk(Renamed(ns, from, to)) && !Dirent.Dotted(to.1)
    requires Plain(ns.names)
    ensures PutsFit(ns, Renamed(ns, from, to), MovedTypes(ns, from, to))
  {
    hide TreeUp, DirLinks, FileLinks, DirsOnce, Dirent.Dotted, PutFits, MovedTypes, EntriesOk;
    var ns', put, x := Renamed(ns, from, to), MovedTypes(ns, from, to), ns.names[from];
    RenamedNames(ns, from, to);
    forall k: Place | k in ns'.names
      ensures PutFits(ns, ns', put, k)
    {
      MovedFits(ns, from, to, k);
    }
    DotsMoved(ns, from, to);
  }

  lemma DotsMoved(ns: Ns, from: Place, to: Place)
    requires NsOk(ns) && from in ns.names && !Dirent.Dotted(to.1)
    ensures forall k: Place :: k in MovedTypes(ns, from, to) && Dirent.Dotted(k.1) ==>
              MovedTypes(ns, from, to)[k] == Directory
  {
    hide TreeUp, DirLinks, FileLinks, DirsOnce;
  }

  /** `m` is `ns` with some of it gone. */
  ghost predicate Part(ns: Ns, m: Ns) {
    && m.up.Keys <= ns.up.Keys
    && (forall k :: k in m.names ==> k in ns.names && ns.names[k] == m.names[k])
    && (forall y :: y in m.kind ==> y in ns.kind && ns.kind[y] == m.kind[y])
  }

  /** Renaming leaves the other names, and the kind of what stays. */
  ghost predicate Kept(ns: Ns, ns': Ns, from: Place, to: Place)
    requires from in ns.names
  {
    && (forall d :: d in ns'.up ==> d in ns.up)
    && (forall k :: k in ns'.names && k != to ==> k in ns.names && ns.names[k] == ns'.names[k])
    && to in ns'.names && ns'.names[to] == ns.names[from]
    && (forall y :: y in ns'.kind ==> y in ns.kind && ns.kind[y] == ns'.kind[y])
    && (forall k :: k in ns'.names ==> ns'.names[k] in ns'.kind)
  }

  lemma RelocatedKept(ns: Ns, m: Ns, from: Place, to: Place)
    requires Part(ns, m) && from in m.names && EntriesOk(Relocated(m, from, to))
    ensures from in ns.names && Kept(ns, Relocated(m, from, to), from, to)
  {
    hide Bump;
    var ns', x := Relocated(m, from, to), m.names[from];
    assert forall k :: k in ns'.names && k != to ==> k in m.names && m.names[k] == ns'.names[k];
    assert ns'.kind == m.kind && ns'.up.Keys <= m.up.Keys + {x};
  }

  lemma RenamedNames(ns: Ns, from: Place, to: Place)
    requires NsOk(ns) && from in ns.names && from != to && NsOk(Renamed(ns, from, to))
    ensures Kept(ns, Renamed(ns, from, to), from, to)
  {
    hide TreeUp, DirLinks, FileLinks, DirsOnce, Bump, Relocated, Kept, EntriesOk;
    var m := if to !in ns.names then ns else if ns.names[to] in ns.up then DirRemoved(ns, to) else Unlinked(ns, to);
    assert Renamed(ns, from, to) == Relocated(m, from, to);
    assert Part(ns, m);
    RelocatedKept(ns, m, from, to);
  }

  lemma MovedFits(ns: Ns, from: Place, to: Place, k: Place)
    requires NsOk(ns) && from in ns.names && from != to && NsOk(Renamed(ns, from, to)) && !Dirent.Dotted(to.1)
    requires Plain(ns.names)
    requires k in Renamed(ns, from, to).names
    ensures PutFits(ns, Renamed(ns, from, to), MovedTypes(ns, from, to), k)
  {
    hide Renamed, TreeUp, DirLinks, FileLinks, DirsOnce;
    RenamedNames(ns, from, to);
  }

  /** Writing or cutting a file leaves all types. */
  lemma WrittenTypes(geo: Geometry, a: map<Loc, Bytes>, b: map<Loc, Bytes>, live: map<nat, Inode>,
        live': map<nat, Inode>, x: nat)
    requires geo.Sane() && TypesOk(geo, a, live) && OthersKept(a, b, x) && x in live && x in live' && !IsDir(live', x)
    requires live'.Keys == live.Keys && forall y :: y in live && y != x ==> live'[y] == live[y]
    requires DirsOk(geo, a, live) && DirsOk(geo, b, live')
    requires NsOk(NsOf(geo, a, live)) && NsOf(geo, b, live') == NsOf(geo, a, live)
    ensures TypesOk(geo, b, live')
  {
    hide TypesOk, NsOf, TypesStep, NsOk, PutsFit, DirsOk;
    assert live' == live[x := live'[x]];
    NoneStep(geo, a, b, live, live');
    SameFits(NsOf(geo, a, live));
    TypesFollow(geo, a, b, live, live', map[]);
  }

  lemma SameFits(ns: Ns)
    requires NsOk(ns)
    ensures PutsFit(ns, ns, map[])
  {
    hide TreeUp, DirLinks, FileLinks, DirsOnce, Dirent.Dotted;
  }

  /** Then the type byte of each entry tells what the inode it names is. */
  lemma TypeTells(geo: Geometry, leaves: map<Loc, Bytes>, live: map<nat, Inode>, d: nat, lb: nat, k: nat)
    requires geo.Sane() && geo.filetype && TypesOk(geo, leaves, live) && DirsOk(geo, leaves, live) && IsDir(live, d)
    requires var block := BlockOf(geo, leaves, d, lb);
             lb < Lb(geo, live[d].size) && k < |Records(geo, block)| && Records(geo, block)[k].inode != 0
    ensures var block := BlockOf(geo, leaves, d, lb);
            var e := Records(geo, block)[k];
            && e.inode in live && e.offset + 7 < |block|
            && var t, kind := block[e.offset + 7], live[e.inode].kind;
            && t == Dirent.TypeByte(kind)
            && (t == 1 <==> kind == Regular) && (t == 2 <==> kind == Directory) && (t == 7 <==> kind == Symlink)
  {
    hide Records, BlockOf, DirOk, DirNames, Lb, Dirent.NameOf, Dirent.Listing, Dirent.Lists, Dirent.NamesOk;
    var block, n, up := BlockOf(geo, leaves, d, lb), Lb(geo, live[d].size), UpOf(geo, leaves, live, d);
    var name := Dirent.NameOf(block, Records(geo, block)[k]);
    EntryListed(geo, leaves, d, n, up, lb, k);
    Dirent.PairsAt(block, Records(geo, block), k);
    Dirent.ListingHas(Dirent.Pairs(block, Records(geo, block)), k);
    DirHas(geo, leaves, d, n, up, lb, name);
    assert EntryTyped(geo, leaves, live, d, name);
    assert IsNamed(geo, block, k, name);
  }
}

/** Whole runs of a volume: any sequence of operations keeps every invariant and is, step by step,
    a run of a filesystem that is just a tree of names and a byte sequence for each file. */
module Run {
  import opened Wrappers
  import opened Le
  import opened Arith
  import opened Sets
  import opened BlockPath
  import opened FileLimit
  import opened Volume
  import opened Allocator
  import opened Trees
  import opened BlockMap
  import opened Freeing
  import opened FileData
  import opened FileOps
  import Dirent
  import opened Directory
  import opened DirOps
  import DirTypes
  import opened Namespace
  import opened NameTree
  import opened InodeAlloc
  import opened InodeUse
  import opened NameOps
  import opened Ops
  import opened Rename
  import opened Totals

  // ----- the simple filesystem -----

  /** Names, and the bytes of each regular file. */
  datatype State = State(ns: Ns, data: map<nat, Bytes>)

  /** A volume as a user can see it: names and bytes, free blocks and the sizes of the directories. */
  datatype View = View(state: State, free: nat, sizes: map<nat, nat>)

  /** What stays: the block size, the largest file, how many inodes names can lead to, and the kinds of the
      others in use, which are reserved. */
  datatype Limits = Limits(readOnly: bool, blockSize: nat, maxSize: int, numbers: int, reserved: map<nat, FileType>)

  datatype Op =
    | Create(at: Place, dir: bool)
    | Write(ino: nat, offset: nat, buf: Bytes)
    | Truncate(ino: nat, size: nat)
    | Unlink(at: Place)
    | RemoveDirectory(at: Place)
    | Move(from: Place, to: Place)

  datatype Info = Info(kind: FileType, links: nat, size: nat)

  /** A system call on the volume and its answer. */
  datatype Call = Change(op: Op) | Read(ino: nat, offset: nat, n: nat) | Stat(ino: nat) | Lookup(at: Place)

  datatype Answer =
    | Changed(count: Result<nat>)
    | Got(bytes: Result<Bytes>)
    | Said(info: Result<Info>)
    | Led(ino: Result<nat>)

  /** The bytes of the files still there. */
  ghost function Left(data: map<nat, Bytes>, ns: Ns, ns': Ns): map<nat, Bytes> {
    map f | f in data && (f in ns.kind ==> f in ns'.kind) :: data[f]
  }

  /** The target of a move that keeps the tree: nothing, the same inode, or something it may replace. */
  ghost predicate MayMove(ns: Ns, from: Place, to: Place) {
    && from in ns.names && to.0 in ns.up
    && var x := ns.names[from];
    || (to in ns.names && ns.names[to] == x)
    || (&& (x in ns.up ==> !Ancestor(ns.up, x, to.0))
        && (to in ns.names ==>
           (ns.names[to] in ns.up <==> x in ns.up) && (x in ns.up ==> Empty(ns.names, ns.names[to]))))
  }

  /** Directory `d` is as large as one gets. */
  predicate DirFull(v: View, d: nat, lim: Limits) {
    d in v.sizes && v.sizes[d] + lim.blockSize > U32_MAX
  }

  predicate LinksFull(ns: Ns, d: nat) {
    d in ns.links && ns.links[d] >= LINK_MAX
  }

  /** What kind of inode `x` is, if it is in use. */
  ghost function KindOf(ns: Ns, lim: Limits, x: nat): Option<FileType> {
    if x in ns.kind then Some(ns.kind[x]) else if x in lim.reserved then Some(lim.reserved[x]) else None
  }

  /** Why nothing can be changed at `at`. */
  ghost function DirError(ns: Ns, lim: Limits, at: Place): Option<Errno> {
    if KindOf(ns, lim, at.0).None? then Some(ENOENT)
    else if lim.readOnly then Some(EROFS)
    else if NameError(at.1).Some? then NameError(at.1)
    else if KindOf(ns, lim, at.0) != Some(Directory) then Some(ENOTDIR)
    else None
  }

  /** Why `ino` cannot be read, or changed. */
  ghost function FileError(ns: Ns, lim: Limits, ino: nat, change: bool): Option<Errno> {
    if KindOf(ns, lim, ino).None? then Some(ENOENT)
    else if change && lim.readOnly then Some(EROFS)
    else if KindOf(ns, lim, ino) == Some(Regular) then None
    else if KindOf(ns, lim, ino) == Some(Directory) then Some(EISDIR)
    else Some(EINVAL)
  }

  /** Why `from` cannot become `to`. */
  ghost function RenameError(ns: Ns, lim: Limits, from: Place, to: Place): Option<Errno> {
    if KindOf(ns, lim, from.0).None? || KindOf(ns, lim, to.0).None? then Some(ENOENT)
    else if lim.readOnly then Some(EROFS)
    else if NameError(from.1).Some? then NameError(from.1)
    else if NameError(to.1).Some? then NameError(to.1)
    else if KindOf(ns, lim, from.0) != Some(Directory) || KindOf(ns, lim, to.0) != Some(Directory) then Some(ENOTDIR)
    else if from !in ns.names then Some(ENOENT)
    else MoveError(ns, from, to, MAX_DEPTH)
  }

  /** The error `op` must answer, whatever space there is: names, kinds, sizes, links and depth decide it. */
  ghost function MustFail(op: Op, v: View, lim: Limits): Option<Errno> {
    var ns := v.state.ns;
    match op
    case Create(at, dir) =>
      if DirError(ns, lim, at).Some? then DirError(ns, lim, at)
      else if at in ns.names then Some(EEXIST)
      else if dir && LinksFull(ns, at.0) then Some(ENOSPC)
      else None
    case Write(ino, offset, buf) =>
      if FileError(ns, lim, ino, true).Some? then FileError(ns, lim, ino, true)
      else if buf != [] && offset + |buf| > lim.maxSize then Some(EFBIG)
      else None
    case Truncate(ino, size) =>
      if FileError(ns, lim, ino, true).Some? then FileError(ns, lim, ino, true)
      else if size > lim.maxSize then Some(EFBIG)
      else None
    case Unlink(at) =>
      if DirError(ns, lim, at).Some? then DirError(ns, lim, at)
      else if at !in ns.names then Some(ENOENT)
      else if ns.names[at] in ns.up then Some(EISDIR)
      else None
    case RemoveDirectory(at) =>
      if DirError(ns, lim, at).Some? then DirError(ns, lim, at)
      else if at !in ns.names then Some(ENOENT)
      else if ns.names[at] !in ns.up then Some(ENOTDIR)
      else if !Empty(ns.names, ns.names[at]) then Some(ENOTEMPTY)
      else None
    case Move(from, to) => RenameError(ns, lim, from, to)
  }

  /** When `op`, which makes sense, may fail with `ENOSPC`: inode numbers, blocks or a directory's size run out. */
  ghost predicate Cramped(op: Op, v: View, lim: Limits) {
    match op
    case Create(at, dir) =>
      |v.state.ns.kind| >= lim.numbers || v.free < (if dir then 5 else 4) || DirFull(v, at.0, lim)
    case Write(_, _, buf) => buf != [] && v.free < 4
    case Move(_, to) => to !in v.state.ns.names && (v.free < 4 || DirFull(v, to.0, lim))
    case _ => false
  }

  /** No directory shrank, or grew by more than `grow`. */
  ghost predicate Grows(sizes: map<nat, nat>, sizes': map<nat, nat>, grow: nat) {
    forall d :: d in sizes && d in sizes' ==> sizes[d] <= sizes'[d] <= sizes[d] + grow
  }

  /** What a successful `op` does to names and bytes. */
  ghost predicate Does(op: Op, s: State, s': State, n: nat) {
    match op
    case Create(at, dir) =>
      && at !in s.ns.names && n !in s.ns.kind && n !in s.data
      && s' == State(Made(s.ns, at, n, dir), if dir then s.data else s.data[n := []])
    case Write(ino, offset, buf) =>
      && ino in s.data && n <= |buf| && (buf != [] ==> n > 0)
      && s' == s.(data := s.data[ino := Writing(s.data[ino], offset, buf[..n])])
    case Truncate(ino, size) =>
      ino in s.data && s' == s.(data := s.data[ino := Resizing(s.data[ino], size)])
    case Unlink(at) =>
      && at in s.ns.names && s.ns.names[at] !in s.ns.up
      && s' == State(Unlinked(s.ns, at), Left(s.data, s.ns, Unlinked(s.ns, at)))
    case RemoveDirectory(at) =>
      at in s.ns.names && s.ns.names[at] in s.ns.up && Empty(s.ns.names, s.ns.names[at])
          && s' == s.(ns := DirRemoved(s.ns, at))
    case Move(from, to) =>
      && from in s.ns.names
      && if to in s.ns.names && s.ns.names[to] == s.ns.names[from] then s' == s
         else from != to && s' == State(Renamed(s.ns, from, to), Left(s.data, s.ns, Renamed(s.ns, from, to)))
  }

  /** What it does to the free blocks and the directories' sizes: no file gets larger than the largest,
      and a write stops short only without space. */
  ghost predicate Costs(op: Op, v: View, v': View, n: nat, lim: Limits) {
    match op
    case Create(_, dir) =>
      && v.free <= v'.free + 5 && Grows(v.sizes, v'.sizes, lim.blockSize)
      && (dir ==> n in v'.sizes && v'.sizes[n] == lim.blockSize)
    case Write(_, offset, buf) =>
      && v'.free <= v.free && v'.sizes == v.sizes
      && (buf != [] ==> offset + |buf| <= lim.maxSize) && (n < |buf| ==> v'.free < 4)
    case Truncate(_, size) => v'.free >= v.free && v'.sizes == v.sizes && size <= lim.maxSize
    case Unlink(_) => v'.free >= v.free && Grows(v.sizes, v'.sizes, 0)
    case RemoveDirectory(_) => v'.free >= v.free && Grows(v.sizes, v'.sizes, 0)
    case Move(_, _) => v.free <= v'.free + 4 && Grows(v.sizes, v'.sizes, lim.blockSize)
  }

  /** What `op` answers and does: the error it must, or `ENOSPC` only for want of space, either changing
      nothing, or success. */
  ghost predicate Step(op: Op, v: View, v': View, r: Result<nat>, lim: Limits) {
    if MustFail(op, v, lim).Some? then v' == v && r == Err(MustFail(op, v, lim).value)
    else if r.Err? then v' == v && r.error == ENOSPC && Cramped(op, v, lim)
    else Does(op, v.state, v'.state, r.value) && Costs(op, v, v', r.value, lim)
  }

  /** What a call may answer and do: a read gives the bytes there, a stat what names and bytes say, a
      lookup follows the names, and none of them changes anything. */
  ghost predicate Replies(c: Call, v: View, v': View, a: Answer, lim: Limits) {
    match c
    case Change(op) => a.Changed? && Step(op, v, v', a.count, lim)
    case Read(ino, offset, n) => a.Got? && v' == v && Gives(v.state, lim, ino, offset, n, a.bytes)
    case Stat(ino) => a.Said? && v' == v && Tells(v, ino, a.info, lim)
    case Lookup(at) => a.Led? && v' == v && Leads(v.state.ns, lim, at, a.ino)
  }

  /** A read gives the bytes of the file, or says what `ino` is instead. */
  ghost predicate Gives(s: State, lim: Limits, ino: nat, offset: nat, n: nat, r: Result<Bytes>) {
    if FileError(s.ns, lim, ino, false).Some? then r == Err(FileError(s.ns, lim, ino, false).value)
    else ino in s.data && r == Ok(Reading(s.data[ino], offset, n))
  }

  /** A lookup follows the tree of names, down, here and up. */
  ghost predicate Leads(ns: Ns, lim: Limits, at: Place, r: Result<nat>) {
    if at.0 !in ns.up then r == Err(if KindOf(ns, lim, at.0).None? then ENOENT else ENOTDIR)
    else if at.1 == Dirent.DOT then r == Ok(at.0)
    else if at.1 == Dirent.DOTDOT then r == Ok(ns.up[at.0])
    else r == if at in ns.names then Ok(ns.names[at]) else Err(ENOENT)
  }

  /** A stat agrees with names, bytes and sizes. */
  ghost predicate Tells(v: View, ino: nat, r: Result<Info>, lim: Limits) {
    var ns, data := v.state.ns, v.state.data;
    if KindOf(ns, lim, ino).None? then r == Err(ENOENT)
    else
      && r.Ok? && KindOf(ns, lim, ino) == Some(r.value.kind)
      && (ino in ns.kind ==> ino in ns.links && r.value.links == ns.links[ino])
      && (r.value.kind == Regular ==> ino in data && r.value.size == |data[ino]|)
      && (r.value.kind == Directory ==> ino in v.sizes && r.value.size == v.sizes[ino])
  }

  // ----- the simple filesystem a volume is -----

  ghost function StateOf(fs: Ext2): State
    requires Whole(fs)
    reads fs
  {
    StateFrom(fs.geo, Leaves(fs.disk, fs.tree), fs.live)
  }

  ghost function ViewOf(fs: Ext2): View
    requires Whole(fs)
    reads fs
  {
    View(StateOf(fs), fs.freeBlocksTotal, Sizes(fs.live))
  }

  ghost function Sizes(live: map<nat, Inode>): map<nat, nat> {
    map d | d in live && IsDir(live, d) :: live[d].size
  }

  ghost function LimitsOf(fs: Ext2): Limits
    requires Whole(fs)
    reads fs
  {
    LimitsFrom(fs.geo, fs.readOnly, fs.live)
  }

  ghost function LimitsFrom(geo: Geometry, readOnly: bool, live: map<nat, Inode>): Limits
    requires geo.Sane()
  {
    Limits(readOnly, geo.blockSize, MaxFileSize(geo.blockSize), geo.inodesCount + 2 - geo.firstIno,
           map x | x in live && live[x].InUse() && !Visible(geo, x) :: live[x].kind)
  }

  /** The kinds of the inodes in use are what names and limits say. */
  lemma KindsAre(fs: Ext2, x: nat)
    requires VolumeOk(fs)
    ensures var k := KindOf(NamesOn(fs), LimitsOf(fs), x);
            && (k.Some? <==> x in fs.inodes && fs.inodes[x].InUse()) && (k.Some? ==> k.value == fs.inodes[x].kind)
            && (k == Some(Directory) <==> x in NamesOn(fs).up)
  {
    hide Leaves, NsOf, DirsOk, NsOk, TreeOk, Conserved, InodesAgree, BlocksAgree, SizesFit, InsideSize;
    InodeHere(fs, x);
  }

  lemma ErrorsAre(fs: Ext2, at: Place, ino: nat)
    requires VolumeOk(fs)
    ensures ChangeError(fs.inodes, fs.readOnly, at.0, at.1) == DirError(NamesOn(fs), LimitsOf(fs), at)
    ensures Refusal(fs.inodes, ino) == FileError(NamesOn(fs), LimitsOf(fs), ino, false)
    ensures ChangeRefusal(fs.inodes, fs.readOnly, ino) == FileError(NamesOn(fs), LimitsOf(fs), ino, true)
  {
    hide Leaves, NsOf, DirsOk, NsOk, TreeOk, Conserved, InodesAgree, BlocksAgree, SizesFit, InsideSize, NameError,
         KindOf;
    KindsAre(fs, at.0);
    KindsAre(fs, ino);
  }

  lemma AllNumbers(fs: Ext2)
    requires VolumeOk(fs)
    ensures fs.live.Keys == Below(fs.geo.inodesCount + 1) - {0}
  {
    hide Leaves, NsOf, DirsOk, NsOk, TreeOk, Conserved, BlocksAgree, SizesFit, InsideSize, InodesAgree, Mapped;
    KeysAre(fs.geo, fs.disk, fs.freeInodes, fs.freeInodesTotal, fs.usedDirs, fs.live);
  }

  lemma KeysAre(geo: Geometry, disk: map<nat, Bytes>, free: seq<nat>, total: nat, dirs: seq<nat>,
        live: map<nat, Inode>)
    requires geo.Wf() && DiskOk(geo, disk) && InodesAgree(geo, disk, free, total, dirs, live)
    ensures live.Keys == Below(geo.inodesCount + 1) - {0}
  {
    hide InodeCountsOk, UsedInodes, Busy, DirsIn, DiskOk, Volume.Geometry.GroupsOk, Volume.Geometry.Sane;
  }

  /** What an operation that keeps the reserved inodes keeps. */
  lemma LimitsStay(geo: Geometry, readOnly: bool, live: map<nat, Inode>, live': map<nat, Inode>, grow: nat)
    requires geo.Sane() && Steady(geo, live, live', grow) && live'.Keys == live.Keys
    ensures LimitsFrom(geo, readOnly, live') == LimitsFrom(geo, readOnly, live)
  {
  }

  ghost function StateFrom(geo: Geometry, leaves: map<Loc, Bytes>, live: map<nat, Inode>): State
    requires geo.Sane()
  {
    State(NsOf(geo, leaves, live), map f | f in live && IsFile(live, f) && live[f].kind == Regular ::
        Contents(geo, leaves, f, live[f].size))
  }

  lemma DataFrom(geo: Geometry, leaves: map<Loc, Bytes>, live: map<nat, Inode>, f: nat)
    requires geo.Sane()
    ensures var s := StateFrom(geo, leaves, live);
            && (f in s.data <==> IsFile(live, f) && live[f].kind == Regular)
            && (f in s.data ==> s.data[f] == Contents(geo, leaves, f, live[f].size))
  {
    hide Contents, NsOf;
  }

  /** A file names can lead to is one of the namespace. */
  lemma DataNamed(geo: Geometry, leaves: map<Loc, Bytes>, live: map<nat, Inode>, f: nat)
    requires geo.Sane()
    ensures var ns := NsOf(geo, leaves, live);
            && (f in ns.kind ==> Visible(geo, f) && f in live && live[f].InUse() && ns.kind[f] == live[f].kind)
            && (IsFile(live, f) && Visible(geo, f) ==> f in ns.kind)
  {
    hide NsOf;
    NsOfIs(geo, leaves, live, f);
  }

  lemma SameContents(geo: Geometry, a: map<Loc, Bytes>, b: map<Loc, Bytes>, live: map<nat, Inode>,
        live': map<nat, Inode>, f: nat)
    requires geo.Sane() && f in live && f in live' && SameData(a, b, live, live', f)
    ensures Contents(geo, b, f, live'[f].size) == Contents(geo, a, f, live[f].size)
  {
    hide LeafFor, Reach, Lb, Within;
    forall i: nat
      ensures ByteAt(geo, b, f, i) == ByteAt(geo, a, f, i)
    {
    }
  }

  /** Files that kept their contents. */
  lemma DataKept(geo: Geometry, a: map<Loc, Bytes>, b: map<Loc, Bytes>, live: map<nat, Inode>,
        live': map<nat, Inode>, new_: set<nat>, f: nat)
    requires geo.Sane() && FilesSame(a, b, live, live', new_)
    requires f in StateFrom(geo, b, live').data && f !in new_
    ensures f in StateFrom(geo, a, live).data && StateFrom(geo, b, live').data[f] == StateFrom(geo, a, live).data[f]
  {
    hide Contents, NsOf, SameData, StateFrom;
    DataFrom(geo, b, live', f);
    assert IsFile(live, f) && SameData(a, b, live, live', f);
    SameContents(geo, a, b, live, live', f);
    DataSize(a, b, live, live', f);
    DataFrom(geo, a, live, f);
  }

  lemma DataSize(a: map<Loc, Bytes>, b: map<Loc, Bytes>, live: map<nat, Inode>, live': map<nat, Inode>, f: nat)
    requires f in live && f in live' && SameData(a, b, live, live', f)
    ensures live'[f].kind == live[f].kind
  {
  }

  lemma NsFrom(geo: Geometry, leaves: map<Loc, Bytes>, live: map<nat, Inode>)
    requires geo.Sane()
    ensures StateFrom(geo, leaves, live).ns == NsOf(geo, leaves, live)
  {
    hide Contents, NsOf;
  }

  /** A file that is reserved, or still named as what it was, still has bytes. */
  lemma DataStays(geo: Geometry, a: map<Loc, Bytes>, b: map<Loc, Bytes>, live: map<nat, Inode>,
        live': map<nat, Inode>, grow: nat, f: nat)
    requires geo.Sane() && Steady(geo, live, live', grow) && f in StateFrom(geo, a, live).data
    requires var ns, ns' := NsOf(geo, a, live), NsOf(geo, b, live');
             f in ns.kind ==> f in ns'.kind && ns'.kind[f] == ns.kind[f]
    ensures f in StateFrom(geo, b, live').data
  {
    hide Contents, NsOf, StateFrom;
    DataFrom(geo, a, live, f);
    DataFrom(geo, b, live', f);
    DataNamed(geo, a, live, f);
    DataNamed(geo, b, live', f);
  }

  /** After an operation on names the files left have their bytes. */
  lemma NamesStep(geo: Geometry, a: map<Loc, Bytes>, b: map<Loc, Bytes>, live: map<nat, Inode>,
        live': map<nat, Inode>, grow: nat)
    requires geo.Sane() && FilesSame(a, b, live, live', {}) && Steady(geo, live, live', grow)
    requires var ns, ns' := NsOf(geo, a, live), NsOf(geo, b, live');
             forall f :: f in ns.kind && f in ns'.kind ==> ns'.kind[f] == ns.kind[f]
    ensures var ns, ns' := NsOf(geo, a, live), NsOf(geo, b, live');
            StateFrom(geo, b, live') == State(ns', Left(StateFrom(geo, a, live).data, ns, ns'))
  {
    hide Contents, NsOf, FilesSame, StateFrom, Steady;
    var s, s' := StateFrom(geo, a, live), StateFrom(geo, b, live');
    NsFrom(geo, a, live);
    NsFrom(geo, b, live');
    forall f
      ensures f in s'.data <==> f in Left(s.data, s.ns, s'.ns)
      ensures f in s'.data ==> s'.data[f] == Left(s.data, s.ns, s'.ns)[f]
    {
      if f in s'.data {
        DataKept(geo, a, b, live, live', {}, f);
        DataFrom(geo, b, live', f);
        DataNamed(geo, a, live, f);
        DataNamed(geo, b, live', f);
      } else if f in Left(s.data, s.ns, s'.ns) {
        DataStays(geo, a, b, live, live', grow, f);
      }
    }
    assert s'.data == Left(s.data, s.ns, s'.ns);
  }

  // ----- each operation is a step -----

  lemma SizesGrow(geo: Geometry, live: map<nat, Inode>, live': map<nat, Inode>, grow: nat)
    requires Steady(geo, live, live', grow)
    ensures Grows(Sizes(live), Sizes(live'), grow)
  {
  }

  /** A directory without a place for a name cannot grow: three indirect blocks and one of data, or its
      size, are too much. */
  lemma NoPlaceWhy(geo: Geometry, a: Space, d: Inode, n: nat, free: nat)
    requires geo.Sane() && NoPlace(geo, Leaves(a.disk, a.tree), a.tree, d.ino, d.size, n, free)
    ensures free < 4 || d.size + geo.blockSize > U32_MAX
  {
    hide FullFor, Short, Leaves;
    if d.size + geo.blockSize <= U32_MAX { ShortOfFour(geo, a.tree, d.ino, d.size, free); }
  }

  lemma LinkWhy(geo: Geometry, a: Space, d: Inode, n: nat, dir: bool)
    requires geo.Sane() && CannotLink(geo, a, d, n, dir)
    ensures a.free < (if dir then 5 else 4) || d.size + geo.blockSize > U32_MAX
  {
    hide NoPlace, Leaves;
    if !dir || a.free > 0 { NoPlaceWhy(geo, a, d, n, if dir then a.free - 1 else a.free); }
  }

  lemma DirsLinked(ns: Ns, d: nat)
    requires NsOk(ns) && d in ns.up
    ensures d in ns.links
  {
    hide DirsOnce, TreeUp, DirLinks, FileLinks;
  }

  /** Why a name that may be made cannot be. */
  lemma MakeCramped(fs: Ext2, at: Place, dir: bool)
    requires VolumeOk(fs) && ChangeError(fs.inodes, fs.readOnly, at.0, at.1).None?
    ensures at.0 in fs.inodes && (fs.inodes[at.0].links >= LINK_MAX <==> LinksFull(NamesOn(fs), at.0))
    ensures NoSpace(fs.geo, SpaceOf(fs), fs.inodes[at.0], |at.1|, dir, fs.freeInodesTotal) ==>
              Cramped(Create(at, dir), ViewOf(fs), LimitsOf(fs))
  {
    hide Leaves, NsOf, DirsOk, NsOk, TreeOk, Conserved, Dirent.Ordinary, CannotLink, StateFrom, DirEntries, UpOf,
         InodesAgree, BlocksAgree;
    ChangeAllowed(fs, at);
    NsFrom(fs.geo, Leaves(fs.disk, fs.tree), fs.live);
    InodeHere(fs, at.0);
    DirsLinked(NamesOn(fs), at.0);
    NumbersLeft(fs);
    InoIs(fs.geo, fs.disk, fs.live, fs.tree, at.0);
    if CannotLink(fs.geo, SpaceOf(fs), fs.inodes[at.0], |at.1|, dir) {
      LinkWhy(fs.geo, SpaceOf(fs), fs.inodes[at.0], |at.1|, dir);
    }
  }

  lemma CreateStep(geo: Geometry, a: map<Loc, Bytes>, b: map<Loc, Bytes>, live: map<nat, Inode>,
        live': map<nat, Inode>, at: Place, ino: nat, dir: bool, grow: nat)
    requires geo.Sane() && FilesSame(a, b, live, live', {ino}) && Steady(geo, live, live', grow)
    requires ino !in NsOf(geo, a, live).kind && Visible(geo, ino)
    requires NsOf(geo, b, live') == Made(NsOf(geo, a, live), at, ino, dir)
    requires !dir ==> ino in live' && live'[ino].size == 0
    ensures var s := StateFrom(geo, a, live);
            StateFrom(geo, b, live') == State(Made(s.ns, at, ino, dir), if dir then s.data else s.data[ino := []])
    ensures ino !in StateFrom(geo, a, live).data && (dir ==> IsDir(live', ino))
  {
    hide Contents, NsOf, FilesSame, StateFrom, Steady;
    var s, s' := StateFrom(geo, a, live), StateFrom(geo, b, live');
    NsFrom(geo, a, live);
    NsFrom(geo, b, live');
    var want := if dir then s.data else s.data[ino := []];
    DataFrom(geo, a, live, ino);
    DataNamed(geo, a, live, ino);
    DataFrom(geo, b, live', ino);
    DataNamed(geo, b, live', ino);
    forall f
      ensures f in s'.data <==> f in want
      ensures f in s'.data ==> s'.data[f] == want[f]
    {
      if f != ino {
        if f in s'.data {
          DataKept(geo, a, b, live, live', {ino}, f);
        } else if f in s.data {
          DataStays(geo, a, b, live, live', grow, f);
        }
      }
    }
    assert s'.data == want;
  }

  lemma SizeIs(live: map<nat, Inode>, d: nat)
    requires IsDir(live, d)
    ensures d in Sizes(live) && Sizes(live)[d] == live[d].size
  {
  }

  method DoCreate(fs: Ext2, at: Place, dir: bool) returns (r: Result<nat>)
    requires VolumeOk(fs)
    modifies fs`disk, fs`freeBlocks, fs`freeBlocksTotal, fs`live, fs`tree, fs`inodes, fs`freeInodes,
             fs`freeInodesTotal, fs`usedDirs
    ensures VolumeOk(fs) && Step(Create(at, dir), old(ViewOf(fs)), ViewOf(fs), r, LimitsOf(fs))
    ensures LimitsOf(fs) == old(LimitsOf(fs)) && (old(TypesOn(fs)) ==> TypesOn(fs))
  {
    hide DirTypes.TypesOk, DirTypes.TypesStep, DirTypes.MadeTypes, DirTypes.MovedTypes, TreeOk, Bounded, BlocksAgree,
         BlockCountsOk, DirOk, Leaves, InsideSize, DirNames, DirsOk, NsOf, MetaKept, OthersKept, InodesAgree,
         FileLimit.MaxBlocks, Lb, SizesFit, DirSound, DirEntries, NsOk, Conserved, FilesSame, Dirent.Ordinary,
         Dirent.Dotted, Contents, StateFrom, LimitsFrom, DirError, FileError, NameError, Made, NoSpace, CannotLink,
         Picked, Busy, Steady, Sizes, Grows, Cramped;
    ghost var a, live, v := Leaves(fs.disk, fs.tree), fs.live, ViewOf(fs);
    NsFrom(fs.geo, a, live);
    ErrorsAre(fs, at, 0);
    LimitsAre(fs.geo, fs.readOnly, live);
    AllNumbers(fs);
    if ChangeError(fs.inodes, fs.readOnly, at.0, at.1).None? { MakeCramped(fs, at, dir); }
    r := Make(fs, at.0, at.1, dir);
    assert (at.0, at.1) == at;
    AllNumbers(fs);
    LimitsStay(fs.geo, fs.readOnly, live, fs.live, fs.geo.blockSize);
    if r.Ok? {
      if !dir { assert |Data(fs, r.value)| == 0; }
      CreateStep(fs.geo, a, Leaves(fs.disk, fs.tree), live, fs.live, at, r.value, dir, fs.geo.blockSize);
      SizesGrow(fs.geo, live, fs.live, fs.geo.blockSize);
      if dir { SizeIs(fs.live, r.value); }
    }
  }

  method DoUnlink(fs: Ext2, at: Place) returns (r: Result<nat>)
    requires VolumeOk(fs)
    modifies fs`disk, fs`freeBlocks, fs`freeBlocksTotal, fs`live, fs`tree, fs`inodes, fs`freeInodes,
             fs`freeInodesTotal, fs`usedDirs
    ensures VolumeOk(fs) && Step(Unlink(at), old(ViewOf(fs)), ViewOf(fs), r, LimitsOf(fs))
    ensures LimitsOf(fs) == old(LimitsOf(fs)) && (old(TypesOn(fs)) ==> TypesOn(fs))
  {
    hide DirTypes.TypesOk, DirTypes.TypesStep, DirTypes.MadeTypes, DirTypes.MovedTypes, TreeOk, Bounded, BlocksAgree,
         BlockCountsOk, DirOk, Leaves, InsideSize, DirNames, DirsOk, NsOf, MetaKept, OthersKept, InodesAgree,
         FileLimit.MaxBlocks, Lb, SizesFit, DirSound, DirEntries, NsOk, Conserved, FilesSame, Dirent.Ordinary,
         Dirent.Dotted, Contents, StateFrom, LimitsFrom, DirError, FileError, NameError, Left;
    ghost var a, live := Leaves(fs.disk, fs.tree), fs.live;
    NsFrom(fs.geo, a, live);
    ErrorsAre(fs, at, 0);
    AllNumbers(fs);
    var done := RemoveFile(fs, at.0, at.1);
    assert (at.0, at.1) == at;
    AllNumbers(fs);
    LimitsStay(fs.geo, fs.readOnly, live, fs.live, 0);
    if done.Err? {
      return Err(done.error);
    }
    NamesStep(fs.geo, a, Leaves(fs.disk, fs.tree), live, fs.live, 0);
    SizesGrow(fs.geo, live, fs.live, 0);
    return Ok(0);
  }

  method DoRemoveDir(fs: Ext2, at: Place) returns (r: Result<nat>)
    requires VolumeOk(fs)
    modifies fs`disk, fs`freeBlocks, fs`freeBlocksTotal, fs`live, fs`tree, fs`inodes, fs`freeInodes,
             fs`freeInodesTotal, fs`usedDirs
    ensures VolumeOk(fs) && Step(RemoveDirectory(at), old(ViewOf(fs)), ViewOf(fs), r, LimitsOf(fs))
    ensures LimitsOf(fs) == old(LimitsOf(fs)) && (old(TypesOn(fs)) ==> TypesOn(fs))
  {
    hide DirTypes.TypesOk, DirTypes.TypesStep, DirTypes.MadeTypes, DirTypes.MovedTypes, TreeOk, Bounded, BlocksAgree,
         BlockCountsOk, DirOk, Leaves, InsideSize, DirNames, DirsOk, NsOf, MetaKept, OthersKept, InodesAgree,
         FileLimit.MaxBlocks, Lb, SizesFit, DirSound, DirEntries, NsOk, Conserved, FilesSame, Dirent.Ordinary,
         Dirent.Dotted, Contents, StateFrom, LimitsFrom, DirError, FileError, NameError, Left, Empty;
    ghost var a, live, s := Leaves(fs.disk, fs.tree), fs.live, StateOf(fs);
    NsFrom(fs.geo, a, live);
    ErrorsAre(fs, at, 0);
    AllNumbers(fs);
    var done := RemoveDir(fs, at.0, at.1);
    assert (at.0, at.1) == at;
    AllNumbers(fs);
    LimitsStay(fs.geo, fs.readOnly, live, fs.live, 0);
    if done.Err? {
      return Err(done.error);
    }
    NamesStep(fs.geo, a, Leaves(fs.disk, fs.tree), live, fs.live, 0);
    SizesGrow(fs.geo, live, fs.live, 0);
    DirsHoldNoData(fs.geo, a, live, at);
    return Ok(0);
  }

  lemma DirsHoldNoData(geo: Geometry, a: map<Loc, Bytes>, live: map<nat, Inode>, at: Place)
    requires geo.Sane() && at in NsOf(geo, a, live).names && NsOf(geo, a, live).names[at] in NsOf(geo, a, live).up
             && NsOk(NsOf(geo, a, live))
    ensures var s := StateFrom(geo, a, live);
            s.ns == NsOf(geo, a, live) && Left(s.data, s.ns, DirRemoved(s.ns, at)) == s.data
  {
    hide Contents, NsOf, StateFrom, DirsOnce, TreeUp, DirLinks, FileLinks;
    NsFrom(geo, a, live);
    var s := StateFrom(geo, a, live);
    forall f | f in s.data
      ensures f != s.ns.names[at]
    {
      DataFrom(geo, a, live, f);
      DataNamed(geo, a, live, f);
    }
  }

  /** A move is refused at once for what names and kinds say, and a move that keeps the tree only for its depth or
      for links. */
  lemma MoveErrorsAre(fs: Ext2, from: Place, to: Place)
    requires VolumeOk(fs)
    ensures var e := PlacesError(fs.inodes, fs.readOnly, from, to);
            RenameError(NamesOn(fs), LimitsOf(fs), from, to) ==
            if e.Some? then e else if from !in NamesOn(fs).names then Some(ENOENT)
            else MoveError(NamesOn(fs), from, to, WalkLimit(fs.geo, fs.freeInodesTotal))
  {
    hide Leaves, NsOf, DirsOk, NsOk, TreeOk, Conserved, NameError, TooDeep, Ancestor, Empty, WalkLimit, KindOf,
         LimitsFrom, InodesAgree, BlocksAgree, SizesFit, InsideSize;
    LimitsAre(fs.geo, fs.readOnly, fs.live);
    KindsAre(fs, from.0);
    KindsAre(fs, to.0);
    if to.0 in NamesOn(fs).up && from in NamesOn(fs).names { WalkReaches(fs, NamesOn(fs).names[from], to.0); }
  }

  /** Of moves in directories, exactly those that would break the tree are refused for what they are. */
  lemma MoveRefused(ns: Ns, from: Place, to: Place, limit: nat)
    requires from in ns.names && to.0 in ns.up
    ensures var e := MoveError(ns, from, to, limit);
            if MayMove(ns, from, to) then
              && (e == Some(EIO) ==> ns.names[from] in ns.up && TooDeep(ns.up, ns.names[from], to.0, limit))
              && (e == Some(ENOSPC) ==> to !in ns.names && ns.names[from] in ns.up && LinksFull(ns, to.0))
              && (e.None? || e == Some(EIO) || e == Some(ENOSPC))
            else e.Some? && e != Some(ENOSPC)
  {
    hide TooDeep, Ancestor, Empty;
  }

  /** There is no place for a new name only where blocks or the directory's size run out. */
  lemma MoveCramped(fs: Ext2, from: Place, to: Place)
    requires VolumeOk(fs) && PlacesError(fs.inodes, fs.readOnly, from, to).None? && to !in NamesOn(fs).names
    requires NoPlaceAt(fs.geo, SpaceOf(fs), fs.inodes[to.0], |to.1|)
    ensures Cramped(Move(from, to), ViewOf(fs), LimitsOf(fs))
  {
    hide Leaves, NsOf, DirsOk, NsOk, TreeOk, Conserved, NameError, NoPlace, StateFrom, InodesAgree, BlocksAgree,
         LimitsFrom;
    NsFrom(fs.geo, Leaves(fs.disk, fs.tree), fs.live);
    InoIs(fs.geo, fs.disk, fs.live, fs.tree, to.0);
    NoPlaceWhy(fs.geo, SpaceOf(fs), fs.inodes[to.0], |to.1|, fs.freeBlocksTotal);
    assert LimitsOf(fs).blockSize == fs.geo.blockSize by { LimitsAre(fs.geo, fs.readOnly, fs.live); }
  }

  lemma LimitsAre(geo: Geometry, readOnly: bool, live: map<nat, Inode>)
    requires geo.Sane()
    ensures var lim := LimitsFrom(geo, readOnly, live);
            lim.readOnly == readOnly && lim.blockSize == geo.blockSize && lim.maxSize == MaxFileSize(geo.blockSize)
  {
  }

  method DoMove(fs: Ext2, from: Place, to: Place) returns (r: Result<nat>)
    requires VolumeOk(fs)
    modifies fs`disk, fs`freeBlocks, fs`freeBlocksTotal, fs`live, fs`tree, fs`inodes, fs`freeInodes,
             fs`freeInodesTotal, fs`usedDirs
    ensures VolumeOk(fs) && Step(Move(from, to), old(ViewOf(fs)), ViewOf(fs), r, LimitsOf(fs))
    ensures LimitsOf(fs) == old(LimitsOf(fs)) && (old(TypesOn(fs)) ==> TypesOn(fs))
  {
    hide DirTypes.TypesOk, DirTypes.TypesStep, DirTypes.MadeTypes, DirTypes.MovedTypes, TreeOk, Bounded, BlocksAgree,
         BlockCountsOk, DirOk, Leaves, InsideSize, DirNames, DirsOk, NsOf, MetaKept, OthersKept, InodesAgree,
         FileLimit.MaxBlocks, Lb, SizesFit, DirSound, DirEntries, NsOk, Conserved, FilesSame, Dirent.Ordinary,
         Dirent.Dotted, Contents, StateFrom, LimitsFrom, DirError, FileError, NameError, Left, MoveError, Renamed,
         Steady, TooDeep, Ancestor, Empty, NoPlace, WalkLimit, Grows, Sizes, RenameError, DirFull;
    ghost var a, live, ns := Leaves(fs.disk, fs.tree), fs.live, NamesOn(fs);
    NsFrom(fs.geo, a, live);
    MoveErrorsAre(fs, from, to);
    LimitsAre(fs.geo, fs.readOnly, live);
    AllNumbers(fs);
    if PlacesError(fs.inodes, fs.readOnly, from, to).None? && to !in ns.names &&
       NoPlaceAt(fs.geo, SpaceOf(fs), fs.inodes[to.0], |to.1|) { MoveCramped(fs, from, to); }
    var done := MoveEntry(fs, from, to);
    AllNumbers(fs);
    LimitsStay(fs.geo, fs.readOnly, live, fs.live, fs.geo.blockSize);
    if done.Err? {
      return Err(done.error);
    }
    if !(to in ns.names && ns.names[to] == ns.names[from]) {
      KindsKept(ns, from, to);
      NamesStep(fs.geo, a, Leaves(fs.disk, fs.tree), live, fs.live, fs.geo.blockSize);
    }
    SizesGrow(fs.geo, live, fs.live, fs.geo.blockSize);
    return Ok(0);
  }

  lemma KindsKept(ns: Ns, from: Place, to: Place)
    requires from in ns.names && from != to
    ensures forall f :: f in ns.kind && f in Renamed(ns, from, to).kind ==> Renamed(ns, from, to).kind[f] == ns.kind[f]
  {
    hide Bump;
  }

  // ----- reading and writing files -----

  /** A change to one regular file keeps the rest of the volume. */
  lemma FileStep(geo: Geometry, a: Space, b: Space, free: seq<nat>, total: nat, dirs: seq<nat>,
        live: map<nat, Inode>, live': map<nat, Inode>, x: nat)
    requires geo.Wf() && DiskOk(geo, a.disk) && DiskOk(geo, b.disk) && MetaKept(geo, a.disk, b.disk)
             && InodesAgree(geo, a.disk, free, total, dirs, live)
    requires OthersKept(Leaves(a.disk, a.tree), Leaves(b.disk, b.tree), x) && DirsOk(geo, Leaves(a.disk, a.tree), live)
    requires x in live && live'.Keys == live.Keys && (forall y :: y in live && y != x ==> live'[y] == live[y])
    requires live[x].InUse() && live[x].kind != Directory && live'[x].kind == live[x].kind
             && live'[x].links == live[x].links && live'[x].ino == x
    ensures InodesAgree(geo, b.disk, free, total, dirs, live') && DirsOk(geo, Leaves(b.disk, b.tree), live')
    ensures NsOf(geo, Leaves(b.disk, b.tree), live') == NsOf(geo, Leaves(a.disk, a.tree), live)
    ensures FilesSame(Leaves(a.disk, a.tree), Leaves(b.disk, b.tree), live, live', {x})
    ensures NsOk(NsOf(geo, Leaves(a.disk, a.tree), live)) && DirTypes.TypesOk(geo, Leaves(a.disk, a.tree), live) ==>
            DirTypes.TypesOk(geo, Leaves(b.disk, b.tree), live')
  {
    hide NsOk, DirTypes.TypesOk, InodesAgree, NsOf, DirsOk, Leaves, MetaKept;
    assert live' == live[x := live'[x]];
    MetaFrame(geo, a.disk, b.disk, free, total, dirs, live);
    SameUse(geo, b.disk, free, total, dirs, live, live'[x]);
    FileChanged(geo, Leaves(a.disk, a.tree), Leaves(b.disk, b.tree), live, live', x);
    if NsOk(NsOf(geo, Leaves(a.disk, a.tree), live)) && DirTypes.TypesOk(geo, Leaves(a.disk, a.tree), live) {
      DirTypes.WrittenTypes(geo, Leaves(a.disk, a.tree), Leaves(b.disk, b.tree), live, live', x);
    }
  }

  lemma WriteStep(geo: Geometry, a: map<Loc, Bytes>, b: map<Loc, Bytes>, live: map<nat, Inode>,
        live': map<nat, Inode>, x: nat)
    requires geo.Sane() && FilesSame(a, b, live, live', {x}) && NsOf(geo, b, live') == NsOf(geo, a, live)
    requires IsFile(live, x) && live[x].kind == Regular && IsFile(live', x) && live'[x].kind == Regular
    requires live'.Keys == live.Keys && (forall y :: y in live && y != x ==> live'[y] == live[y])
    ensures var s := StateFrom(geo, a, live);
            && x in s.data && s.data[x] == Contents(geo, a, x, live[x].size)
            && StateFrom(geo, b, live') == s.(data := s.data[x := Contents(geo, b, x, live'[x].size)])
    ensures Sizes(live') == Sizes(live)
  {
    hide Contents, NsOf, FilesSame, StateFrom;
    var s, s' := StateFrom(geo, a, live), StateFrom(geo, b, live');
    NsFrom(geo, a, live);
    NsFrom(geo, b, live');
    DataFrom(geo, a, live, x);
    DataFrom(geo, b, live', x);
    var want := s.data[x := Contents(geo, b, x, live'[x].size)];
    forall f
      ensures f in s'.data <==> f in want
      ensures f in s'.data ==> s'.data[f] == want[f]
    {
      DataFrom(geo, a, live, f);
      DataFrom(geo, b, live', f);
      if f in s'.data && f != x { DataKept(geo, a, b, live, live', {x}, f); }
    }
    assert s'.data == want;
    assert forall d :: IsDir(live', d) <==> IsDir(live, d);
  }

  /** A volume is sound for operations on files. */
  lemma VolumeFiles(fs: Ext2)
    requires VolumeOk(fs)
    ensures FilesOk(fs) && SizesFit(fs.geo, fs.inodes)
  {
    hide TreeOk, Bounded, BlocksAgree, BlockCountsOk, InsideSize, DirsOk, NsOf, InodesAgree, FileLimit.MaxBlocks,
         NsOk, Conserved;
  }

  /** The regular files are those with bytes. */
  lemma FileAllowed(fs: Ext2, ino: nat)
    requires VolumeOk(fs)
    ensures ino in StateOf(fs).data <==> KindOf(NamesOn(fs), LimitsOf(fs), ino) == Some(Regular)
    ensures StateOf(fs).ns == NamesOn(fs)
    ensures Refusal(fs.inodes, ino) == FileError(NamesOn(fs), LimitsOf(fs), ino, false)
    ensures ChangeRefusal(fs.inodes, fs.readOnly, ino) == FileError(NamesOn(fs), LimitsOf(fs), ino, true)
  {
    hide TreeOk, Leaves, DirsOk, NsOf, NsOk, Conserved, Contents, StateFrom, LimitsFrom, FileError, KindOf;
    KindsAre(fs, ino);
    ErrorsAre(fs, (0, []), ino);
    NsFrom(fs.geo, Leaves(fs.disk, fs.tree), fs.live);
    DataFrom(fs.geo, Leaves(fs.disk, fs.tree), fs.live, ino);
  }

  method DoWrite(fs: Ext2, ino: nat, offset: nat, buf: Bytes) returns (r: Result<nat>)
    requires VolumeOk(fs)
    modifies fs`disk, fs`freeBlocks, fs`freeBlocksTotal, fs`live, fs`tree, fs`inodes, fs`freeInodes,
             fs`freeInodesTotal, fs`usedDirs
    ensures VolumeOk(fs) && Step(Write(ino, offset, buf), old(ViewOf(fs)), ViewOf(fs), r, LimitsOf(fs))
    ensures LimitsOf(fs) == old(LimitsOf(fs)) && (old(TypesOn(fs)) ==> TypesOn(fs))
  {
    hide DirTypes.TypesOk, Volume.Geometry.GroupsOk, DiskOk, Appended, KindOf, Nodes, UpIn, TreeOk, Bounded,
         BlocksAgree, BlockCountsOk, DirOk, Leaves, InsideSize, DirNames, DirsOk, NsOf, MetaKept, OthersKept,
         InodesAgree, FileLimit.MaxBlocks, Lb, SizesFit, DirSound, DirEntries, NsOk, Conserved, FilesSame,
         Dirent.Ordinary, Dirent.Dotted, Contents, StateFrom, LimitsFrom, DirError, FileError, NameError, Writing,
         Short, Sizes, Missing, Reach, LeafFor, Grows;
    ghost var a, live := SpaceOf(fs), fs.live;
    VolumeFiles(fs);
    ghost var refused := ChangeRefusal(fs.inodes, fs.readOnly, ino);
    FileAllowed(fs, ino);
    LimitsAre(fs.geo, fs.readOnly, fs.live);
    r := FileWrite(fs, ino, offset, buf);
    KindsStay(fs.geo, fs.readOnly, live, fs.live);
    if refused.None? {
      InoIs(fs.geo, fs.disk, fs.live, fs.tree, ino);
      FileStep(fs.geo, a, SpaceOf(fs), fs.freeInodes, fs.freeInodesTotal, fs.usedDirs, live, fs.live, ino);
      WriteStep(fs.geo, Leaves(a.disk, a.tree), Leaves(fs.disk, fs.tree), live, fs.live, ino);
      SameAgain(StateFrom(fs.geo, Leaves(a.disk, a.tree), live).data, ino);
      if r.Ok? && r.value < |buf| { ShortOfFour(fs.geo, fs.tree, ino, offset + r.value, fs.freeBlocksTotal); }
    }
  }

  lemma KindsStay(geo: Geometry, readOnly: bool, live: map<nat, Inode>, live': map<nat, Inode>)
    requires geo.Sane() && live'.Keys == live.Keys
    requires forall x :: x in live ==> live'[x].kind == live[x].kind && live'[x].links == live[x].links
    ensures LimitsFrom(geo, readOnly, live') == LimitsFrom(geo, readOnly, live)
  {
  }

  lemma SameAgain(data: map<nat, Bytes>, f: nat)
    requires f in data
    ensures data[f := data[f]] == data
  {
  }

  method DoTruncate(fs: Ext2, ino: nat, size: nat) returns (r: Result<nat>)
    requires VolumeOk(fs)
    modifies fs`disk, fs`freeBlocks, fs`freeBlocksTotal, fs`live, fs`tree, fs`inodes, fs`freeInodes,
             fs`freeInodesTotal, fs`usedDirs
    ensures VolumeOk(fs) && Step(Truncate(ino, size), old(ViewOf(fs)), ViewOf(fs), r, LimitsOf(fs))
    ensures LimitsOf(fs) == old(LimitsOf(fs)) && (old(TypesOn(fs)) ==> TypesOn(fs))
  {
    hide DirTypes.TypesOk, TreeOk, Bounded, BlocksAgree, BlockCountsOk, DirOk, Leaves, InsideSize, DirNames, DirsOk,
         NsOf, MetaKept, OthersKept, InodesAgree, FileLimit.MaxBlocks, Lb, SizesFit, DirSound, DirEntries, NsOk,
         Conserved, FilesSame, Dirent.Ordinary, Dirent.Dotted, Contents, StateFrom, LimitsFrom, DirError, FileError,
         NameError, Resizing;
    ghost var a, live := SpaceOf(fs), fs.live;
    VolumeFiles(fs);
    ghost var refused := ChangeRefusal(fs.inodes, fs.readOnly, ino);
    FileAllowed(fs, ino);
    LimitsAre(fs.geo, fs.readOnly, fs.live);
    var done := FileTruncate(fs, ino, size);
    KindsStay(fs.geo, fs.readOnly, live, fs.live);
    if refused.None? {
      InoIs(fs.geo, fs.disk, fs.live, fs.tree, ino);
      FileStep(fs.geo, a, SpaceOf(fs), fs.freeInodes, fs.freeInodesTotal, fs.usedDirs, live, fs.live, ino);
      WriteStep(fs.geo, Leaves(a.disk, a.tree), Leaves(fs.disk, fs.tree), live, fs.live, ino);
      SameAgain(StateFrom(fs.geo, Leaves(a.disk, a.tree), live).data, ino);
    }
    return if done.Err? then Err(done.error) else Ok(0);
  }

  /** A read answers from the byte sequence the file is, whatever run came before. */
  method DoRead(fs: Ext2, ino: nat, offset: nat, n: nat) returns (r: Result<Bytes>)
    requires VolumeOk(fs)
    ensures Gives(StateOf(fs), LimitsOf(fs), ino, offset, n, r)
  {
    hide TreeOk, Bounded, BlocksAgree, BlockCountsOk, Leaves, InsideSize, DirsOk, NsOf, InodesAgree,
         FileLimit.MaxBlocks, Lb, SizesFit, NsOk, Conserved, Contents, StateFrom, Reading, LimitsFrom;
    VolumeFiles(fs);
    FileAllowed(fs, ino);
    r := FileRead(fs, ino, offset, n);
    DataFrom(fs.geo, Leaves(fs.disk, fs.tree), fs.live, ino);
  }

  /** What is known of an inode. */
  method DoStat(fs: Ext2, ino: nat) returns (r: Result<Info>)
    requires VolumeOk(fs)
    ensures Tells(ViewOf(fs), ino, r, LimitsOf(fs))
  {
    hide TreeOk, Bounded, BlocksAgree, BlockCountsOk, Leaves, InsideSize, DirsOk, NsOf, InodesAgree,
         FileLimit.MaxBlocks, Lb, NsOk, Conserved, StateFrom, Contents, LimitsFrom, KindOf;
    ghost var leaves := Leaves(fs.disk, fs.tree);
    NsFrom(fs.geo, leaves, fs.live);
    DataFrom(fs.geo, leaves, fs.live, ino);
    InodeHere(fs, ino);
    KindsAre(fs, ino);
    var got := GetInode(fs, ino);
    if got.Err? {
      return Err(got.error);
    }
    ContentsSize(fs.geo, leaves, ino, got.value.size);
    return Ok(Info(got.value.kind, got.value.links, got.value.size));
  }

  method DoLookup(fs: Ext2, at: Place) returns (r: Result<nat>)
    requires VolumeOk(fs)
    ensures Leads(NamesOn(fs), LimitsOf(fs), at, r)
  {
    hide TreeOk, Bounded, BlocksAgree, BlockCountsOk, Leaves, InsideSize, DirsOk, NsOf, InodesAgree,
         FileLimit.MaxBlocks, Lb, NsOk, Conserved, DirOk, DirNames, DirEntries, DirSound, NamesOf;
    InodeHere(fs, at.0);
    KindsAre(fs, at.0);
    var got := GetInode(fs, at.0);
    if got.Err? {
      return Err(got.error);
    }
    var dir := got.value;
    if dir.kind != Directory {
      return Err(ENOTDIR);
    }
    if at.1 == Dirent.DOT {
      return Ok(at.0);
    }
    InoIs(fs.geo, fs.disk, fs.live, fs.tree, at.0);
    DirHere(fs, dir);
    if at.1 != Dirent.DOTDOT { EntriesHere(fs, dir, at.1); }
    assert (at.0, at.1) == at;
    var found, lb, k := FindEntry(fs, dir, at.1, UpIn(fs, at.0));
    return if found.value.Some? then Ok(found.value.value.entry.inode) else Err(ENOENT);
  }

  lemma ContentsSize(geo: Geometry, leaves: map<Loc, Bytes>, ino: nat, size: nat)
    requires geo.Sane()
    ensures |Contents(geo, leaves, ino, size)| == size
  {
  }

  // ----- runs -----

  method Apply(fs: Ext2, op: Op) returns (r: Result<nat>)
    requires VolumeOk(fs)
    modifies fs`disk, fs`freeBlocks, fs`freeBlocksTotal, fs`live, fs`tree, fs`inodes, fs`freeInodes,
             fs`freeInodesTotal, fs`usedDirs
    ensures VolumeOk(fs) && Step(op, old(ViewOf(fs)), ViewOf(fs), r, LimitsOf(fs))
    ensures LimitsOf(fs) == old(LimitsOf(fs)) && (old(TypesOn(fs)) ==> TypesOn(fs))
  {
    hide TypesOn, VolumeOk, Step, Whole, StateFrom, ViewOf, StateOf, LimitsOf;
    match op
    case Create(at, dir) => r := DoCreate(fs, at, dir);
    case Write(ino, offset, buf) => r := DoWrite(fs, ino, offset, buf);
    case Truncate(ino, size) => r := DoTruncate(fs, ino, size);
    case Unlink(at) => r := DoUnlink(fs, at);
    case RemoveDirectory(at) => r := DoRemoveDir(fs, at);
    case Move(from, to) => r := DoMove(fs, from, to);
  }

  /** `views` is a run of the simple filesystem through `calls` with these answers. */
  ghost predicate IsRun(calls: seq<Call>, answers: seq<Answer>, views: seq<View>, lim: Limits) {
    && |answers| == |calls| && |views| == |calls| + 1
    && forall i :: 0 <= i < |calls| ==> Replies(calls[i], views[i], views[i + 1], answers[i], lim)
  }

  method Answered(fs: Ext2, c: Call) returns (a: Answer)
    requires VolumeOk(fs)
    modifies fs`disk, fs`freeBlocks, fs`freeBlocksTotal, fs`live, fs`tree, fs`inodes, fs`freeInodes,
             fs`freeInodesTotal, fs`usedDirs
    ensures VolumeOk(fs) && Replies(c, old(ViewOf(fs)), ViewOf(fs), a, LimitsOf(fs))
    ensures LimitsOf(fs) == old(LimitsOf(fs)) && (old(TypesOn(fs)) ==> TypesOn(fs))
  {
    hide DirTypes.TypesOk, Step, StateFrom, LimitsFrom, NsOk, Reading, Tells, Leads, Gives, NsOf, Leaves, DirsOk,
         TreeOk, Conserved, SizesFit, InsideSize;
    match c
    case Change(op) =>
      var count := Apply(fs, op);
      a := Changed(count);
    case Read(ino, offset, n) =>
      var bytes := DoRead(fs, ino, offset, n);
      a := Got(bytes);
    case Stat(ino) =>
      var info := DoStat(fs, ino);
      a := Said(info);
    case Lookup(at) =>
      NsFrom(fs.geo, Leaves(fs.disk, fs.tree), fs.live);
      var ino := DoLookup(fs, at);
      a := Led(ino);
  }

  /** Every run of calls on a sound volume ends in a sound volume, and is a run of the simple
      filesystem. */
  method RunAll(fs: Ext2, calls: seq<Call>) returns (answers: seq<Answer>, ghost views: seq<View>)
    requires VolumeOk(fs)
    modifies fs`disk, fs`freeBlocks, fs`freeBlocksTotal, fs`live, fs`tree, fs`inodes, fs`freeInodes,
             fs`freeInodesTotal, fs`usedDirs
    ensures VolumeOk(fs) && IsRun(calls, answers, views, LimitsOf(fs)) && LimitsOf(fs) == old(LimitsOf(fs))
    ensures old(TypesOn(fs)) ==> TypesOn(fs)
    ensures views[0] == old(ViewOf(fs)) && views[|calls|] == ViewOf(fs)
  {
    hide TypesOn, Replies, Whole, StateFrom, StateOf, ViewOf, LimitsOf, NsOk, NamesOn;
    answers, views := [], [ViewOf(fs)];
    for i := 0 to |calls|
      invariant VolumeOk(fs) && IsRun(calls[..i], answers, views, LimitsOf(fs)) && LimitsOf(fs) == old(LimitsOf(fs))
      invariant old(TypesOn(fs)) ==> TypesOn(fs)
      invariant views[0] == old(ViewOf(fs)) && views[i] == ViewOf(fs)
    {
      var a := Answered(fs, calls[i]);
      RunMore(calls[..i], answers, views, calls[i], a, ViewOf(fs), LimitsOf(fs));
      assert calls[..i] + [calls[i]] == calls[..i + 1];
      answers, views := answers + [a], views + [ViewOf(fs)];
    }
    assert calls[..|calls|] == calls;
  }

  lemma RunMore(calls: seq<Call>, answers: seq<Answer>, views: seq<View>, c: Call, a: Answer, v: View, lim: Limits)
    requires IsRun(calls, answers, views, lim) && Replies(c, views[|calls|], v, a, lim)
    ensures IsRun(calls + [c], answers + [a], views + [v], lim)
  {
    hide Replies;
    var calls', answers', views' := calls + [c], answers + [a], views + [v];
    forall i | 0 <= i < |calls'|
      ensures Replies(calls'[i], views'[i], views'[i + 1], answers'[i], lim)
    {
      if i < |calls| {
        assert Replies(calls[i], views[i], views[i + 1], answers[i], lim);
      }
    }
  }

  predicate Writes(c: Call, f: nat) {
    c.Change? && ((c.op.Write? && c.op.ino == f) || (c.op.Truncate? && c.op.ino == f))
  }

  /** Over a whole run, a file that stays and that no call writes keeps its bytes. */
  lemma {:induction false} BytesStay(calls: seq<Call>, answers: seq<Answer>, views: seq<View>, lim: Limits, f: nat)
    requires IsRun(calls, answers, views, lim)
    requires forall i :: 0 <= i < |views| ==> f in views[i].state.data
    requires forall i :: 0 <= i < |calls| ==> !Writes(calls[i], f)
    ensures views[|calls|].state.data[f] == views[0].state.data[f]
    decreases |calls|
  {
    hide Replies;
    if calls != [] {
      var n := |calls| - 1;
      assert IsRun(calls[..n], answers[..n], views[..n + 1], lim);
      BytesStay(calls[..n], answers[..n], views[..n + 1], lim, f);
      StepKeeps(calls[n], views[n], views[n + 1], answers[n], lim, f);
    }
  }

  lemma StepKeeps(c: Call, v: View, v': View, a: Answer, lim: Limits, f: nat)
    requires Replies(c, v, v', a, lim) && f in v.state.data && f in v'.state.data && !Writes(c, f)
    ensures v'.state.data[f] == v.state.data[f]
  {
    hide MustFail, Cramped, Costs, Made, Unlinked, DirRemoved, Renamed, Tells, Leads, Gives;
  }
}

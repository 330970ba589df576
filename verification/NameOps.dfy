/** The steps creating, removing and renaming are made of, each on the records of a directory, an
    inode and the bitmaps, and each a change to the namespace the volume holds. */
module NameOps {
  import opened Wrappers
  import opened Le
  import opened Arith
  import opened BlockPath
  import opened FileLimit
  import opened Volume
  import opened Allocator
  import opened Trees
  import opened BlockMap
  import opened Freeing
  import opened FileData
  import opened FileOps
  import Dirent
  import opened Directory
  import opened DirOps
  import opened DirTypes
  import opened Namespace
  import opened NameTree
  import opened InodeAlloc
  import opened InodeUse

  /** The namespace of the volume. */
  ghost function NamesOn(fs: Ext2): Ns
    requires fs.geo.Sane()
    reads fs
  {
    NsOf(fs.geo, Leaves(fs.disk, fs.tree), fs.live)
  }

  /** What every step of an operation keeps: blocks, inodes and directories each sound. */
  ghost predicate Whole(fs: Ext2)
    reads fs
  {
    && fs.geo.Sane() && Mapped(fs) && Accounted(fs)
    && InsideSize(fs.geo, fs.live, fs.tree) && SizesFit(fs.geo, fs.live)
    && DirsOk(fs.geo, Leaves(fs.disk, fs.tree), fs.live)
  }

  /** Between operations: everything is stored, and the names form a tree. */
  ghost predicate VolumeOk(fs: Ext2)
    reads fs
  {
    Whole(fs) && fs.live == fs.inodes && NsOk(NamesOn(fs))
  }

  /** The entries in `put` got the type bytes of these kinds, and every other entry kept its own. */
  twostate predicate Retyped(fs: Ext2, new put: map<Place, FileType>)
    requires fs.geo.Sane()
    reads fs
  {
    TypesStep(fs.geo, old(Leaves(fs.disk, fs.tree)), Leaves(fs.disk, fs.tree), old(fs.live), fs.live, put)
  }

  /** Every directory entry has the type byte of the inode it names. */
  ghost predicate TypesOn(fs: Ext2)
    reads fs
  {
    fs.geo.Sane() && TypesOk(fs.geo, Leaves(fs.disk, fs.tree), fs.live)
  }

  /** Reserved inodes are as they were, and no directory shrank or grew by more than `grow`. */
  ghost predicate Steady(geo: Geometry, live: map<nat, Inode>, live': map<nat, Inode>, grow: nat) {
    && (forall x :: x in live && !Visible(geo, x) ==> x in live' && live'[x] == live[x])
    && (forall d :: IsDir(live, d) && IsDir(live', d) ==> live[d].size <= live'[d].size <= live[d].size + grow)
  }

  lemma SteadySelf(geo: Geometry, live: map<nat, Inode>, grow: nat)
    ensures Steady(geo, live, live, grow)
  {
  }

  lemma SteadyTrans(geo: Geometry, a: map<nat, Inode>, b: map<nat, Inode>, c: map<nat, Inode>, grow: nat)
    requires Steady(geo, a, b, grow) && Steady(geo, b, c, 0) && SameDirs(b, c)
    ensures Steady(geo, a, c, grow)
  {
  }

  lemma SteadyLess(geo: Geometry, live: map<nat, Inode>, live': map<nat, Inode>, grow: nat)
    requires Steady(geo, live, live', 0)
    ensures Steady(geo, live, live', grow)
  {
  }

  ghost predicate SameDirs(live: map<nat, Inode>, live': map<nat, Inode>) {
    forall d :: IsDir(live', d) <==> IsDir(live, d)
  }

  /** What inode `inode` may become. */
  ghost predicate MayBecome(geo: Geometry, live: map<nat, Inode>, inode: Inode, grow: nat) {
    && Visible(geo, inode.ino)
    && (IsDir(live, inode.ino) && inode.InUse() && inode.kind == Directory ==>
          live[inode.ino].size <= inode.size <= live[inode.ino].size + grow)
  }

  /** Two inodes changed. */
  lemma SteadyTwo(geo: Geometry, live: map<nat, Inode>, x: Inode, y: Inode, grow: nat)
    requires MayBecome(geo, live, x, grow) && MayBecome(geo, live, y, grow)
    ensures Steady(geo, live, live[x.ino := x][y.ino := y], grow)
  {
  }

  /** One inode changed, not a reserved one. */
  lemma SteadyOne(geo: Geometry, live: map<nat, Inode>, inode: Inode, grow: nat)
    requires MayBecome(geo, live, inode, grow)
    ensures Steady(geo, live, live[inode.ino := inode], grow)
  {
  }

  /** The data blocks of every file outside `s` are as they were. */
  ghost predicate KeptBut(a: map<Loc, Bytes>, b: map<Loc, Bytes>, s: set<nat>) {
    forall l: Loc :: l.Ino() !in s ==> (l in a <==> l in b) && (l in a ==> b[l] == a[l])
  }

  ghost predicate IsFile(live: map<nat, Inode>, f: nat) {
    f in live && live[f].InUse() && live[f].kind != Directory
  }

  /** File `f` has the same size, kind and data blocks. */
  ghost predicate SameData(a: map<Loc, Bytes>, b: map<Loc, Bytes>, live: map<nat, Inode>, live': map<nat, Inode>,
        f: nat)
    requires f in live && f in live'
  {
    && live'[f].size == live[f].size && live'[f].kind == live[f].kind
    && forall l: Loc :: l.Ino() == f ==> (l in a <==> l in b) && (l in a ==> b[l] == a[l])
  }

  /** Every file there is was there, with the same contents, but for `new`. */
  ghost predicate FilesSame(a: map<Loc, Bytes>, b: map<Loc, Bytes>, live: map<nat, Inode>, live': map<nat, Inode>,
        new_: set<nat>) {
    forall f :: IsFile(live', f) && f !in new_ ==> IsFile(live, f) && SameData(a, b, live, live', f)
  }

  lemma FilesSelf(a: map<Loc, Bytes>, live: map<nat, Inode>)
    ensures FilesSame(a, a, live, live, {})
  {
  }

  lemma FilesTrans(a: map<Loc, Bytes>, b: map<Loc, Bytes>, c: map<Loc, Bytes>, live: map<nat, Inode>,
        live': map<nat, Inode>, live'': map<nat, Inode>)
    requires FilesSame(a, b, live, live', {}) && FilesSame(b, c, live', live'', {})
    ensures FilesSame(a, c, live, live'', {})
  {
  }

  /** A change to what is no file, before or after. */
  lemma FilesApart(a: map<Loc, Bytes>, b: map<Loc, Bytes>, live: map<nat, Inode>, inode: Inode)
    requires OthersKept(a, b, inode.ino) && inode.ino in live && !(inode.InUse() && inode.kind != Directory)
    ensures FilesSame(a, b, live, live[inode.ino := inode], {})
  {
  }

  /** Another link count leaves a file's contents. */
  lemma FilesRelinked(a: map<Loc, Bytes>, live: map<nat, Inode>, inode: Inode)
    requires inode.ino in live && live[inode.ino].InUse() && inode == live[inode.ino].(links := inode.links)
    ensures FilesSame(a, a, live, live[inode.ino := inode], {})
  {
  }

  // ----- a directory of the volume -----

  ghost function UpIn(fs: Ext2, d: nat): nat
    requires fs.geo.Sane()
    reads fs
  {
    UpOf(fs.geo, Leaves(fs.disk, fs.tree), fs.live, d)
  }

  lemma DirHere(fs: Ext2, dir: Inode)
    requires Whole(fs) && IsDir(fs.live, dir.ino) && fs.live[dir.ino] == dir
    ensures DirAt(fs, dir, UpIn(fs, dir.ino)) && Visible(fs.geo, dir.ino) && 1 <= dir.ino <= fs.geo.inodesCount
    ensures NamesOf(fs, dir) == DirEntries(fs.geo, Leaves(fs.disk, fs.tree), fs.live, dir.ino)
    ensures Dirent.DOTDOT in NamesOf(fs, dir) && NamesOf(fs, dir)[Dirent.DOTDOT] == UpIn(fs, dir.ino)
  {
    hide MappedBut, DirOk, Leaves, InsideSize, SizesFit, DirNames;
    DirDots(fs.geo, Leaves(fs.disk, fs.tree), dir.ino, Lb(fs.geo, dir.size), UpIn(fs, dir.ino));
  }

  /** The namespace has the entries of `dir`. */
  lemma EntriesHere(fs: Ext2, dir: Inode, name: Dirent.Name)
    requires Whole(fs) && IsDir(fs.live, dir.ino) && fs.live[dir.ino] == dir && !Dirent.Dotted(name)
    ensures dir.ino in NamesOn(fs).up && NamesOn(fs).up[dir.ino] == UpIn(fs, dir.ino)
    ensures (dir.ino, name) in NamesOn(fs).names <==> name in NamesOf(fs, dir)
    ensures name in NamesOf(fs, dir) ==> NamesOn(fs).names[(dir.ino, name)] == NamesOf(fs, dir)[name]
  {
    hide MappedBut, Mapped, Accounted, DirOk, Leaves, InsideSize, SizesFit, DirNames, DirsOk, Dirent.Dotted;
    NsOfIs(fs.geo, Leaves(fs.disk, fs.tree), fs.live, dir.ino);
    EntryAt(fs.geo, Leaves(fs.disk, fs.tree), fs.live, NamesOn(fs), dir.ino, name);
  }

  /** The namespace has an inode in use as it is. */
  lemma InodeHere(fs: Ext2, x: nat)
    requires fs.geo.Sane()
    ensures x in NamesOn(fs).kind <==> Named(fs.geo, fs.live, x)
    ensures x in NamesOn(fs).links <==> Named(fs.geo, fs.live, x)
    ensures Named(fs.geo, fs.live, x) ==>
            NamesOn(fs).kind[x] == fs.live[x].kind && NamesOn(fs).links[x] == fs.live[x].links
    ensures x in NamesOn(fs).up <==> IsDir(fs.live, x)
    ensures x in NamesOn(fs).up ==> NamesOn(fs).up[x] == UpIn(fs, x)
  {
    hide Leaves, DirEntries, Dirent.Dotted, NsOf;
    NsOfIs(fs.geo, Leaves(fs.disk, fs.tree), fs.live, x);
  }

  /** A changed directory leaves the rest of the volume sound. */
  lemma DirStep(geo: Geometry, a: Space, b: Space, free: seq<nat>, total: nat, dirs: seq<nat>, live: map<nat, Inode>,
        dir': Inode)
    requires geo.Wf() && DiskOk(geo, a.disk) && DiskOk(geo, b.disk)
    requires InodesAgree(geo, a.disk, free, total, dirs, live) && SizesFit(geo, live) && MetaKept(geo, a.disk, b.disk)
    requires dir'.ino in live && dir'.kind == live[dir'.ino].kind && dir'.links == live[dir'.ino].links
             && dir'.size <= MaxFileSize(geo.blockSize)
    ensures InodesAgree(geo, b.disk, free, total, dirs, live[dir'.ino := dir']) && SizesFit(geo, live[dir'.ino := dir'])
  {
    hide InodesAgree, FileLimit.MaxBlocks;
    MetaFrame(geo, a.disk, b.disk, free, total, dirs, live);
    SameUse(geo, b.disk, free, total, dirs, live, dir');
  }

  lemma SoundAgain(geo: Geometry, leaves: map<Loc, Bytes>, live: map<nat, Inode>, d: nat, up: nat)
    requires geo.Sane() && d in live && Times(Lb(geo, live[d].size), geo.blockSize) == live[d].size
    requires DirOk(geo, leaves, d, Lb(geo, live[d].size), up)
    ensures DirSound(geo, leaves, live, d) && UpOf(geo, leaves, live, d) == up
  {
    hide DirOk, DirNames;
    DirDots(geo, leaves, d, Lb(geo, live[d].size), up);
  }

  /** `add_entry` on a volume: one more name, or `ENOSPC` with nothing changed. */
  method Enter(fs: Ext2, dir: Inode, name: Dirent.Name, ino: nat, kind: FileType) returns (r: Result<()>, dir': Inode)
    requires Whole(fs) && IsDir(fs.live, dir.ino) && fs.live[dir.ino] == dir && Dirent.Ordinary(name)
             && 0 < ino <= fs.geo.inodesCount
    requires (dir.ino, name) !in NamesOn(fs).names
    modifies fs`disk, fs`freeBlocks, fs`freeBlocksTotal, fs`live, fs`tree
    ensures r.Err? ==>
              && r.error == ENOSPC && dir' == dir && fs.live == old(fs.live) && fs.tree == old(fs.tree)
              && fs.disk == old(fs.disk) && fs.freeBlocks == old(fs.freeBlocks)
              && fs.freeBlocksTotal == old(fs.freeBlocksTotal)
    ensures r.Err? ==> CannotGrow(fs.geo, dir.size, fs.freeBlocksTotal)
    ensures r.Err? <==>
            NoPlace(fs.geo, old(Leaves(fs.disk, fs.tree)), old(fs.tree), dir.ino, dir.size, |name|,
            old(fs.freeBlocksTotal))
    ensures old(fs.freeBlocksTotal) <= fs.freeBlocksTotal + 4
    ensures r.Ok? ==>
              && Whole(fs) && fs.live == old(fs.live)[dir.ino := dir'] && IsDir(fs.live, dir.ino)
              && dir'.ino == dir.ino && dir'.links == dir.links
              && dir.size <= dir'.size <= dir.size + fs.geo.blockSize
              && NamesOn(fs) == old(NamesOn(fs)).(names := old(NamesOn(fs)).names[(dir.ino, name) := ino])
              && OthersKept(old(Leaves(fs.disk, fs.tree)), Leaves(fs.disk, fs.tree), dir.ino)
              && Retyped(fs, map[(dir.ino, name) := kind])
  {
    hide TypesStep, EntryPut, Room, NoPlace, TreeOk, Conserved, Bounded, BlocksAgree, BlockCountsOk, DirOk, Leaves,
         InsideSize, DirNames, DirsOk, NsOf, MetaKept, OthersKept, InodesAgree, FileLimit.MaxBlocks, Lb;
    ghost var before, live, up := SpaceOf(fs), fs.live, UpIn(fs, dir.ino);
    DirHere(fs, dir);
    OrdinaryName(name);
    EntriesHere(fs, dir, name);
    r, dir' := AddEntry(fs, dir, name, ino, kind, up);
    if r.Err? {
      return;
    }
    DirLimit(fs.geo, dir'.size);
    DirStep(fs.geo, before, SpaceOf(fs), fs.freeInodes, fs.freeInodesTotal, fs.usedDirs, live, dir');
    SoundAgain(fs.geo, Leaves(fs.disk, fs.tree), fs.live, dir.ino, up);
    NamePut(fs.geo, Leaves(before.disk, before.tree), Leaves(fs.disk, fs.tree), live, fs.live, dir.ino, name, ino);
    PutStep(fs.geo, Leaves(before.disk, before.tree), Leaves(fs.disk, fs.tree), live, dir, dir', up, name, ino, kind);
  }

  lemma OrdinaryName(name: Dirent.Name)
    requires Dirent.Ordinary(name)
    ensures !Dirent.Dotted(name)
  {
  }

  lemma DirLimit(geo: Geometry, size: nat)
    requires geo.Sane()
    ensures size <= U32_MAX ==> size <= MaxFileSize(geo.blockSize)
  {
    MaxBlocksAre();
  }

  /** `remove_entry` on a volume: one name less. */
  method Leave(fs: Ext2, dir: Inode, found: Found, ghost lb: nat, ghost k: nat, ghost name: Dirent.Name)
    requires Whole(fs) && IsDir(fs.live, dir.ino) && fs.live[dir.ino] == dir && FoundAt(fs, dir, found, lb, k, name)
             && !Dirent.Dotted(name)
    modifies fs`disk
    ensures Whole(fs) && NamesOn(fs) == old(NamesOn(fs)).(names := old(NamesOn(fs)).names - {(dir.ino, name)})
    ensures OthersKept(old(Leaves(fs.disk, fs.tree)), Leaves(fs.disk, fs.tree), dir.ino)
    ensures Retyped(fs, map[])
  {
    hide TypesStep, EntryCutAt, TreeOk, Conserved, Bounded, BlocksAgree, BlockCountsOk, DirOk, Leaves, InsideSize,
         DirNames, DirsOk, NsOf, MetaKept, OthersKept, InodesAgree, FileLimit.MaxBlocks, Lb;
    ghost var before, up := SpaceOf(fs), UpIn(fs, dir.ino);
    DirHere(fs, dir);
    RemoveEntry(fs, dir, found, lb, k, name, up);
    DirStep(fs.geo, before, SpaceOf(fs), fs.freeInodes, fs.freeInodesTotal, fs.usedDirs, fs.live, dir);
    SoundAgain(fs.geo, Leaves(fs.disk, fs.tree), fs.live, dir.ino, up);
    NameCut(fs.geo, Leaves(before.disk, before.tree), Leaves(fs.disk, fs.tree), fs.live, fs.live, dir.ino, name);
    DropStep(fs.geo, Leaves(before.disk, before.tree), Leaves(fs.disk, fs.tree), fs.live, dir.ino, up, lb, k);
  }

  /** An entry pointed at another inode. */
  method Point(fs: Ext2, dir: Inode, found: Found, ino: nat, kind: FileType, ghost lb: nat, ghost k: nat,
        ghost name: Dirent.Name)
    requires Whole(fs) && IsDir(fs.live, dir.ino) && fs.live[dir.ino] == dir && FoundAt(fs, dir, found, lb, k, name)
             && !Dirent.Dotted(name)
    requires 0 < ino <= fs.geo.inodesCount
    modifies fs`disk
    ensures Whole(fs) && NamesOn(fs) == old(NamesOn(fs)).(names := old(NamesOn(fs)).names[(dir.ino, name) := ino])
    ensures OthersKept(old(Leaves(fs.disk, fs.tree)), Leaves(fs.disk, fs.tree), dir.ino)
    ensures Retyped(fs, map[(dir.ino, name) := kind])
  {
    hide TypesStep, EntrySetAt, TreeOk, Conserved, Bounded, BlocksAgree, BlockCountsOk, DirOk, Leaves, InsideSize,
         DirNames, DirsOk, NsOf, MetaKept, OthersKept, InodesAgree, FileLimit.MaxBlocks, Lb;
    ghost var before, up := SpaceOf(fs), UpIn(fs, dir.ino);
    DirHere(fs, dir);
    RetargetEntry(fs, dir, found, ino, kind, lb, k, name, up);
    DirStep(fs.geo, before, SpaceOf(fs), fs.freeInodes, fs.freeInodesTotal, fs.usedDirs, fs.live, dir);
    SoundAgain(fs.geo, Leaves(fs.disk, fs.tree), fs.live, dir.ino, up);
    NamePut(fs.geo, Leaves(before.disk, before.tree), Leaves(fs.disk, fs.tree), fs.live, fs.live, dir.ino, name, ino);
    SetStep(fs.geo, Leaves(before.disk, before.tree), Leaves(fs.disk, fs.tree), fs.live, dir.ino, up, lb, k, name, ino,
        kind);
  }

  /** The `..` of a moved directory pointed at its new parent. */
  method Reparent(fs: Ext2, dir: Inode, found: Found, ino: nat, ghost lb: nat, ghost k: nat)
    requires Whole(fs) && IsDir(fs.live, dir.ino) && fs.live[dir.ino] == dir
             && FoundAt(fs, dir, found, lb, k, Dirent.DOTDOT)
    requires 0 < ino <= fs.geo.inodesCount
    modifies fs`disk
    ensures Whole(fs) && NamesOn(fs) == old(NamesOn(fs)).(up := old(NamesOn(fs)).up[dir.ino := ino])
    ensures OthersKept(old(Leaves(fs.disk, fs.tree)), Leaves(fs.disk, fs.tree), dir.ino)
    ensures Retyped(fs, map[(dir.ino, Dirent.DOTDOT) := Directory])
  {
    hide TypesStep, EntrySetAt, TreeOk, Conserved, Bounded, BlocksAgree, BlockCountsOk, DirOk, Leaves, InsideSize,
         DirNames, DirsOk, NsOf, MetaKept, OthersKept, InodesAgree, FileLimit.MaxBlocks, Lb;
    ghost var before, up := SpaceOf(fs), UpIn(fs, dir.ino);
    DirHere(fs, dir);
    RetargetEntry(fs, dir, found, ino, Directory, lb, k, Dirent.DOTDOT, up);
    DirStep(fs.geo, before, SpaceOf(fs), fs.freeInodes, fs.freeInodesTotal, fs.usedDirs, fs.live, dir);
    SoundAgain(fs.geo, Leaves(fs.disk, fs.tree), fs.live, dir.ino, ino);
    UpPut(fs.geo, Leaves(before.disk, before.tree), Leaves(fs.disk, fs.tree), fs.live, fs.live, dir.ino, ino);
    SetStep(fs.geo, Leaves(before.disk, before.tree), Leaves(fs.disk, fs.tree), fs.live, dir.ino, up, lb, k,
        Dirent.DOTDOT, ino, Directory);
  }

  /** `set_links` on an inode in use. */
  method SetLinks(fs: Ext2, inode: Inode, links: nat) returns (inode': Inode)
    requires Whole(fs) && inode.ino in fs.live && fs.live[inode.ino] == inode && inode.InUse()
             && Visible(fs.geo, inode.ino) && links > 0
    modifies fs`live
    ensures Whole(fs) && inode' == inode.(links := links) && fs.live == old(fs.live)[inode.ino := inode']
    ensures NamesOn(fs) == old(NamesOn(fs)).(links := old(NamesOn(fs)).links[inode.ino := links])
    ensures Retyped(fs, map[])
  {
    hide TypesStep, Conserved, Bounded, BlockCountsOk, DirOk, Leaves, DirNames, NsOf, InodesAgree,
         FileLimit.MaxBlocks, Lb, DirsOk, TreeOk, Loc.Base, Loc.Valid;
    inode' := inode.(links := links);
    Relinked(fs.geo, fs.disk, fs.live, fs.tree, inode');
    SameUse(fs.geo, fs.disk, fs.freeInodes, fs.freeInodesTotal, fs.usedDirs, fs.live, inode');
    LinksPut(fs.geo, Leaves(fs.disk, fs.tree), fs.live, inode');
    fs.live := fs.live[inode.ino := inode'];
    RelinkStep(fs.geo, Leaves(fs.disk, fs.tree), old(fs.live), inode');
  }

  lemma Relinked(geo: Geometry, disk: map<nat, Bytes>, live: map<nat, Inode>, tree: map<Loc, nat>, inode: Inode)
    requires geo.Wf() && DiskOk(geo, disk) && TreeOk(geo, disk, live, tree, None) && BlocksAgree(geo, live, tree)
    requires inode.ino in live && inode.InUse() && live[inode.ino].InUse()
             && inode == live[inode.ino].(links := inode.links)
    ensures TreeOk(geo, disk, live[inode.ino := inode], tree, None) && BlocksAgree(geo, live[inode.ino := inode], tree)
  {
    hide Ptr, EntriesAgree, Shape, Distinct, Volume.Geometry.IsMetadata, Volume.Geometry.GroupsOk;
  }

  // ----- release_inode -----

  /** Cut at its start, a file keeps no block. */
  lemma {:induction false} AllDead(tree: map<Loc, nat>, l: Loc, p: nat)
    requires p > 0 && Shape(p, tree) && l in tree && l.Valid(p)
    ensures Dead(tree, l, 0, p)
    decreases if l.Rest() > 0 then l.Rest() else 0
  {
    PowPositive(p, l.Rest());
    if l.Rest() > 0 {
      forall i: nat | i < p && Sub(l, i) in tree
        ensures Dead(tree, Sub(l, i), 0, p)
      {
        AllDead(tree, Sub(l, i), p);
      }
    }
  }

  /** The places of `ino` are gone, the others as they were. */
  ghost predicate Stripped(tree: map<Loc, nat>, tree': map<Loc, nat>, ino: nat) {
    && (forall l :: l in tree' ==> l in tree && l.Ino() != ino && tree'[l] == tree[l])
    && (forall l :: l in tree && l.Ino() != ino ==> l in tree')
  }

  lemma CutWhole(tree: map<Loc, nat>, tree': map<Loc, nat>, ino: nat, p: nat)
    requires p > 0 && Shape(p, tree) && Cut(tree, tree', ino, 0, p)
    ensures Bare(tree', ino) && Stripped(tree, tree', ino)
  {
    hide Dead;
    forall l | l in tree
      ensures Dead(tree, l, 0, p)
    {
      AllDead(tree, l, p);
    }
  }

  /** Frees all blocks of an inode. */
  method FreeAll(fs: Ext2, inode: Inode) returns (inode': Inode)
    requires Mapped(fs) && inode.ino in fs.live && fs.live[inode.ino] == inode && inode.InUse()
    modifies fs`disk, fs`freeBlocks, fs`freeBlocksTotal, fs`live, fs`tree
    ensures Mapped(fs) && Bare(fs.tree, inode.ino) && fs.live == old(fs.live)[inode.ino := inode']
            && SameFile(inode', inode)
    ensures MetaKept(fs.geo, old(fs.disk), fs.disk)
    ensures OthersKept(old(Leaves(fs.disk, fs.tree)), Leaves(fs.disk, fs.tree), inode.ino)
    ensures Stripped(old(fs.tree), fs.tree, inode.ino)
    ensures fs.freeBlocksTotal + |fs.tree| == old(fs.freeBlocksTotal + |fs.tree|)
    ensures fs.freeBlocksTotal >= old(fs.freeBlocksTotal)
  {
    hide Conserved, Bounded, BlocksAgree, BlockCountsOk, EntriesAgree, RootsAgree, Distinct, InodesShaped, MetaKept,
         OthersKept, Leaves, LeavesKept, Dead, Ptr, Stripped, Bare, Volume.Geometry.IsMetadata,
         Volume.Geometry.GroupsOk;
    ghost var before := SpaceOf(fs);
    inode' := inode;
    if inode.kind == Regular || inode.kind == Directory {
      inode' := FreeFrom(fs, inode, 0);
      CutWhole(before.tree, fs.tree, inode.ino, fs.geo.P());
      CutLeaves(fs.geo, before, SpaceOf(fs), inode.ino, 0);
    } else {
      KeptNone(fs.geo, before, inode.ino);
      NothingStripped(fs.geo, fs.live, fs.tree, inode.ino);
      assert fs.live == fs.live[inode.ino := inode];
    }
  }

  lemma NothingStripped(geo: Geometry, live: map<nat, Inode>, tree: map<Loc, nat>, ino: nat)
    requires geo.Sane() && Owned(geo, live, tree) && ino in live && !live[ino].HasTree()
    ensures Bare(tree, ino) && Stripped(tree, tree, ino)
  {
  }

  lemma BareInside(geo: Geometry, live: map<nat, Inode>, tree: map<Loc, nat>, tree': map<Loc, nat>, inode: Inode)
    requires geo.Sane() && InsideSize(geo, live, tree) && Stripped(tree, tree', inode.ino)
    ensures InsideSize(geo, live[inode.ino := inode], tree')
  {
  }

  lemma OneInode(a: map<Loc, Bytes>, b: map<Loc, Bytes>, live: map<nat, Inode>, inode: Inode)
    requires OthersKept(a, b, inode.ino) && inode.ino in live
    ensures OnlyInode(a, b, live, live[inode.ino := inode], inode.ino)
  {
    hide OthersKept;
  }

  lemma GoneFits(geo: Geometry, live: map<nat, Inode>, inode: Inode)
    requires geo.Sane() && SizesFit(geo, live) && !inode.InUse()
    ensures SizesFit(geo, live[inode.ino := inode])
  {
  }

  /** The volume without inode `inode.ino`, which is no longer in use and has no blocks. */
  lemma GoneWhole(geo: Geometry, a: Space, b: Space, live: map<nat, Inode>, inode: Inode)
    requires geo.Sane() && InsideSize(geo, live, a.tree) && SizesFit(geo, live)
             && DirsOk(geo, Leaves(a.disk, a.tree), live)
    requires inode.ino in live && !inode.InUse() && Stripped(a.tree, b.tree, inode.ino)
    requires OthersKept(Leaves(a.disk, a.tree), Leaves(b.disk, b.tree), inode.ino)
    requires IsDir(live, inode.ino) ==>
             forall n :: n in DirEntries(geo, Leaves(a.disk, a.tree), live, inode.ino) ==> Dirent.Dotted(n)
    ensures var live' := live[inode.ino := inode];
            && InsideSize(geo, live', b.tree) && SizesFit(geo, live') && DirsOk(geo, Leaves(b.disk, b.tree), live')
            && var ns := NsOf(geo, Leaves(a.disk, a.tree), live);
            NsOf(geo, Leaves(b.disk, b.tree), live') ==
                Ns(ns.kind - {inode.ino}, ns.links - {inode.ino}, ns.up - {inode.ino}, ns.names)
  {
    hide Leaves, InsideSize, DirsOk, NsOf, OthersKept, SizesFit, Stripped, OnlyInode, DirEntries, Dirent.Dotted;
    BareInside(geo, live, a.tree, b.tree, inode);
    GoneFits(geo, live, inode);
    OneInode(Leaves(a.disk, a.tree), Leaves(b.disk, b.tree), live, inode);
    InodeWent(geo, Leaves(a.disk, a.tree), Leaves(b.disk, b.tree), live, live[inode.ino := inode], inode.ino);
  }

  /** Frees an inode that lost its last link, and what it owns: its blocks and its number. */
  method ReleaseInode(fs: Ext2, inode: Inode)
    requires Whole(fs) && inode.ino in fs.live && fs.live[inode.ino] == inode && inode.InUse()
             && inode.ino >= fs.geo.firstIno
    requires IsDir(fs.live, inode.ino) ==> Empty(NamesOn(fs).names, inode.ino)
    modifies fs`disk, fs`freeBlocks, fs`freeBlocksTotal, fs`live, fs`tree, fs`inodes, fs`freeInodes,
             fs`freeInodesTotal, fs`usedDirs
    ensures Whole(fs) && inode.ino in fs.live && !fs.live[inode.ino].InUse()
    ensures fs.live == old(fs.live)[inode.ino := fs.live[inode.ino]]
            && fs.inodes == old(fs.inodes)[inode.ino := fs.live[inode.ino]]
    ensures var ns := old(NamesOn(fs));
            NamesOn(fs) == Ns(ns.kind - {inode.ino}, ns.links - {inode.ino}, ns.up - {inode.ino}, ns.names)
    ensures OthersKept(old(Leaves(fs.disk, fs.tree)), Leaves(fs.disk, fs.tree), inode.ino)
    // Its blocks and its number are free again.
    ensures Bare(fs.tree, inode.ino) && fs.freeBlocksTotal + |fs.tree| == old(fs.freeBlocksTotal + |fs.tree|)
    ensures fs.freeInodesTotal == old(fs.freeInodesTotal) + 1
    ensures fs.freeBlocksTotal >= old(fs.freeBlocksTotal)
    ensures Retyped(fs, map[])
  {
    hide TypesStep, Conserved, Bounded, BlocksAgree, BlockCountsOk, DirOk, Leaves, InsideSize, DirNames, DirsOk,
         NsOf, MetaKept, OthersKept, InodesAgree, FileLimit.MaxBlocks, Lb, RootsAgree, EntriesAgree, Distinct, Shape,
         Owned, SizesFit, Bare, Stripped, OnlyInode, Empty, DirEntries, Dirent.Dotted, Volume.Geometry.GroupsOk,
         Volume.Geometry.Sane, DiskOk, InodeCountsOk, UpIn, Nodes;
    ghost var before, live, x := SpaceOf(fs), fs.live, inode.ino;
    EmptyEntries(fs, inode);
    var inode' := FreeAll(fs, inode);
    MetaFrame(fs.geo, before.disk, fs.disk, fs.freeInodes, fs.freeInodesTotal, fs.usedDirs, live);
    SameUse(fs.geo, fs.disk, fs.freeInodes, fs.freeInodesTotal, fs.usedDirs, live, inode');
    inode' := inode'.(size := 0, links := 0);
    fs.inodes := fs.inodes[inode.ino := inode'];
    ReturnInode(fs, inode', inode.kind == Directory);
    assert fs.live == live[x := inode'];
    GoneWhole(fs.geo, before, SpaceOf(fs), live, inode');
    FileStep(fs.geo, Leaves(before.disk, before.tree), Leaves(fs.disk, fs.tree), live, inode');
  }

  /** A directory nothing is entered in holds only `.` and `..`. */
  lemma EmptyEntries(fs: Ext2, dir: Inode)
    requires fs.geo.Sane() && (IsDir(fs.live, dir.ino) ==> Empty(NamesOn(fs).names, dir.ino))
    ensures IsDir(fs.live, dir.ino) ==>
            forall n :: n in DirEntries(fs.geo, Leaves(fs.disk, fs.tree), fs.live, dir.ino) ==> Dirent.Dotted(n)
  {
    hide Leaves, DirEntries, Dirent.Dotted, NsOf;
    if IsDir(fs.live, dir.ino) {
      NsOfIs(fs.geo, Leaves(fs.disk, fs.tree), fs.live, dir.ino);
      forall n | n in DirEntries(fs.geo, Leaves(fs.disk, fs.tree), fs.live, dir.ino)
        ensures Dirent.Dotted(n)
      {
        EntryAt(fs.geo, Leaves(fs.disk, fs.tree), fs.live, NamesOn(fs), dir.ino, n);
      }
    }
  }
}

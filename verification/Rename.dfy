/** Rename (crates/ext2/src/rename.rs): a moved entry, with the target it replaces, against the
    namespace. */
module Rename {
  import opened Wrappers
  import opened Le
  import opened Arith
  import opened BlockPath
  import opened FileLimit
  import opened Volume
  import opened Allocator
  import opened Trees
  import opened BlockMap
  import opened Freeing
  import opened FileData
  import opened FileOps
  import Dirent
  import opened Directory
  import opened DirOps
  import opened DirTypes
  import opened Namespace
  import opened NameTree
  import opened InodeAlloc
  import opened InodeUse
  import opened NameOps
  import opened Ops

  /** The deepest directory rename walks up from. */
  const MAX_DEPTH: nat := 4096

  // ----- is_ancestor -----

  /** How many levels `is_ancestor` climbs: no more than there are inodes in use. */
  function WalkLimit(geo: Geometry, freeInodesTotal: nat): nat {
    var used := geo.inodesCount - (if freeInodesTotal < geo.inodesCount then freeInodesTotal else geo.inodesCount);
    if used < MAX_DEPTH then used else MAX_DEPTH
  }

  /** Neither `a` nor the root is within `limit` levels above `d`. */
  ghost predicate TooDeep(up: map<nat, nat>, a: nat, d: nat, limit: nat) {
    forall k: nat :: k <= limit ==> Climb(up, d, k) != a && Climb(up, d, k) != ROOT
  }

  lemma {:induction false} ClimbNext(up: map<nat, nat>, d: nat, k: nat)
    requires Climb(up, d, k) in up
    ensures Climb(up, d, k + 1) == up[Climb(up, d, k)]
  {
    ClimbMore(up, d, k, 1);
    assert Climb(up, Climb(up, d, k), 1) == Climb(up, up[Climb(up, d, k)], 0);
  }

  /** From the root the walk goes no further. */
  lemma AboveRoot(up: map<nat, nat>, a: nat, d: nat, k: nat)
    requires TreeUp(up) && Climb(up, d, k) == ROOT && a != ROOT && forall j: nat :: j < k ==> Climb(up, d, j) != a
    ensures !Ancestor(up, a, d)
  {
    forall j: nat
      ensures Climb(up, d, j) != a
    {
      if j >= k {
        ClimbMore(up, d, k, j - k);
        RootStays(up, j - k);
      }
    }
  }

  /** Whether directory `ancestor` is `dir` or above it, walking `..` up to the root. */
  method IsAncestor(fs: Ext2, ancestor: nat, dir: nat) returns (r: Result<bool>)
    requires VolumeOk(fs) && dir in NamesOn(fs).up
    ensures r.Ok? ==> (r.value <==> Ancestor(NamesOn(fs).up, ancestor, dir))
    ensures r.Err? ==> r.error == EIO
    ensures r.Err? <==> TooDeep(NamesOn(fs).up, ancestor, dir, WalkLimit(fs.geo, fs.freeInodesTotal))
  {
    hide TreeOk, Bounded, BlocksAgree, BlockCountsOk, DirOk, Leaves, InsideSize, DirNames, DirsOk, NsOf, MetaKept,
         OthersKept, InodesAgree, FileLimit.MaxBlocks, Lb, SizesFit, DirSound, DirEntries, TreeUp, DirsOnce,
         DirLinks, FileLinks, EntriesOk, Ancestor, Climb, Conserved, FilesSame, Dirent.Ordinary, Dirent.Dotted,
         FoundAt, NamesOf;
    ghost var up := NamesOn(fs).up;
    var limit := WalkLimit(fs.geo, fs.freeInodesTotal);
    var here := dir;
    ClimbStart(up, dir);
    for i := 0 to limit + 1
      invariant here == Climb(up, dir, i) && here in up
      invariant forall j: nat :: j < i ==> Climb(up, dir, j) != ancestor && Climb(up, dir, j) != ROOT
    {
      if here == ancestor {
        assert Ancestor(up, ancestor, dir) by { AncestorAt(up, ancestor, dir, i); }
        return Ok(true);
      }
      if here == ROOT {
        AboveRoot(up, ancestor, dir, i);
        return Ok(false);
      }
      InodeHere(fs, here);
      FitsOne(fs.geo, fs.inodes, here);
      var got := GetInode(fs, here);
      var inode := got.value;
      if inode.kind != Directory {
        return Err(ENOTDIR);
      }
      InoIs(fs.geo, fs.disk, fs.live, fs.tree, here);
      DirHere(fs, inode);
      var parent, lb, k := FindEntry(fs, inode, Dirent.DOTDOT, UpIn(fs, here));
      if parent.value.None? {
        return Err(EIO);
      }
      ClimbNext(up, dir, i);
      UpStays(up, here);
      here := parent.value.value.entry.inode;
    }
    return Err(EIO);
  }

  lemma FitsOne(geo: Geometry, inodes: map<nat, Inode>, x: nat)
    requires geo.Sane() && SizesFit(geo, inodes) && x in inodes && inodes[x].InUse()
    ensures inodes[x].size <= MaxFileSize(geo.blockSize)
  {
  }

  lemma ClimbStart(up: map<nat, nat>, d: nat)
    ensures Climb(up, d, 0) == d
  {
  }

  lemma UpStays(up: map<nat, nat>, d: nat)
    requires TreeUp(up) && d in up
    ensures up[d] in up
  {
  }

  lemma AncestorAt(up: map<nat, nat>, a: nat, d: nat, k: nat)
    requires Climb(up, d, k) == a
    ensures Ancestor(up, a, d)
  {
  }

  /** On a volume with at most `MAX_DEPTH` directories the walk always finds the root. */
  lemma NeverTooDeep(up: map<nat, nat>, a: nat, d: nat, limit: nat)
    requires TreeUp(up) && d in up && |up| <= limit + 1
    ensures !TooDeep(up, a, d, limit)
  {
    DepthBound(up, d);
  }

  // ----- the three parts of a move -----

  /** The namespace after what `to` named is gone. */
  ghost function Replaced(ns: Ns, to: Place): Ns {
    if to !in ns.names then ns
    else if ns.names[to] in ns.up then DirRemoved(ns, to)
    else Unlinked(ns, to)
  }

  /** There is no place for a name of `n` bytes in directory `d`. */
  ghost predicate NoPlaceAt(geo: Geometry, a: Space, d: Inode, n: nat)
    requires geo.Sane()
  {
    NoPlace(geo, Leaves(a.disk, a.tree), a.tree, d.ino, d.size, n, a.free)
  }

  /** An existing target's entry pointed at the moved inode; what it named goes. */
  method Overwrite(fs: Ext2, dst: Inode, to: Dirent.Name, src: nat, kind: FileType, target: Found, old_: Inode,
        ghost lb: nat, ghost k: nat)
    requires VolumeOk(fs) && IsDir(fs.live, dst.ino) && fs.live[dst.ino] == dst && Dirent.Ordinary(to)
             && 0 < src <= fs.geo.inodesCount
    requires (dst.ino, to) in NamesOn(fs).names && FoundAt(fs, dst, target, lb, k, to)
    requires NamesOn(fs).names[(dst.ino, to)] == old_.ino && old_.ino in fs.live && fs.live[old_.ino] == old_
             && (old_.kind == Directory ==> Empty(NamesOn(fs).names, old_.ino))
    modifies fs`disk, fs`freeBlocks, fs`freeBlocksTotal, fs`live, fs`tree, fs`inodes, fs`freeInodes,
             fs`freeInodesTotal, fs`usedDirs
    ensures old(fs.freeBlocksTotal) <= fs.freeBlocksTotal + 4
    ensures Steady(fs.geo, old(fs.live), fs.live, fs.geo.blockSize)
    ensures Whole(fs) && fs.live == fs.inodes
    ensures NamesOn(fs) == Replaced(old(NamesOn(fs)), (dst.ino, to)).(names :=
              Replaced(old(NamesOn(fs)), (dst.ino, to)).names[(dst.ino, to) := src])
    ensures FilesSame(old(Leaves(fs.disk, fs.tree)), Leaves(fs.disk, fs.tree), old(fs.live), fs.live, {})
    ensures Retyped(fs, map[(dst.ino, to) := kind])
  {
    hide TypesStep, Volume.Geometry.GroupsOk, Volume.Geometry.Sane, DiskOk, UpIn, NoPlace, Steady, TreeOk, Bounded,
         BlocksAgree, BlockCountsOk, DirOk, Leaves, InsideSize, DirNames, DirsOk, NsOf, MetaKept, OthersKept,
         InodesAgree, FileLimit.MaxBlocks, Lb, SizesFit, DirSound, DirEntries, NsOk, Conserved, FilesSame,
         DirRemoved, Unlinked, Empty, Dirent.Ordinary, Dirent.Dotted, FoundAt, NamesOf;
    ghost var a, ns, at, live := SpaceOf(fs), NamesOn(fs), (dst.ino, to), fs.live;
    OrdinaryName(to);
    DirHere(fs, dst);
    Target(fs, at);
    InodeHere(fs, old_.ino);
    Point(fs, dst, target, src, kind, lb, k, to);
    ghost var mid, now := SpaceOf(fs), fs.live;
    if old_.kind == Directory {
      DirRemovedIs(ns, at);
      PointedEmpty(ns.names, at, src, old_.ino);
      var dst' := SetLinks(fs, dst, dst.links - 1);
      fs.inodes := fs.inodes[dst.ino := dst'];
      now := fs.live;
      StepNone(fs.geo, Leaves(a.disk, a.tree), Leaves(mid.disk, mid.tree), Leaves(mid.disk, mid.tree), live, live, now,
          map[at := kind]);
      FilesApart(Leaves(a.disk, a.tree), Leaves(mid.disk, mid.tree), live, dst');
      ReleaseInode(fs, old_);
      InoIs(fs.geo, fs.disk, fs.live, fs.tree, old_.ino);
      FilesApart(Leaves(mid.disk, mid.tree), Leaves(fs.disk, fs.tree), now, fs.live[old_.ino]);
      SteadyTwo(fs.geo, live, dst', fs.live[old_.ino], fs.geo.blockSize);
    } else {
      UnlinkedIs(ns, at);
      fs.inodes := fs.inodes[dst.ino := dst];
      FilesApart(Leaves(a.disk, a.tree), Leaves(mid.disk, mid.tree), live, dst);
      assert live[dst.ino := dst] == live;
      DropLink(fs, old_);
      SteadyLess(fs.geo, live, fs.live, fs.geo.blockSize);
    }
    FilesTrans(Leaves(a.disk, a.tree), Leaves(mid.disk, mid.tree), Leaves(fs.disk, fs.tree), live, now, fs.live);
    StepNone(fs.geo, Leaves(a.disk, a.tree), Leaves(mid.disk, mid.tree), Leaves(fs.disk, fs.tree), live, now, fs.live,
        map[at := kind]);
    SwappedName(ns.names, at, src);
  }

  /** The new name: an existing target's entry is pointed at the moved inode, and what it named goes;
      otherwise the entry is added, the only step that can fail. */
  method NewName(fs: Ext2, dst: Inode, to: Dirent.Name, src: nat, kind: FileType, target: Option<Found>,
        old_: Option<Inode>, ghost lb: nat, ghost k: nat) returns (r: Result<()>)
    requires VolumeOk(fs) && IsDir(fs.live, dst.ino) && fs.live[dst.ino] == dst && Dirent.Ordinary(to)
             && 0 < src <= fs.geo.inodesCount
    requires (target.Some? <==> (dst.ino, to) in NamesOn(fs).names) && (target.Some? <==> old_.Some?)
    requires target.Some? ==>
               && FoundAt(fs, dst, target.value, lb, k, to) && NamesOn(fs).names[(dst.ino, to)] == old_.value.ino
               && old_.value.ino in fs.live && fs.live[old_.value.ino] == old_.value
               && (old_.value.kind == Directory ==> Empty(NamesOn(fs).names, old_.value.ino))
    modifies fs`disk, fs`freeBlocks, fs`freeBlocksTotal, fs`live, fs`tree, fs`inodes, fs`freeInodes,
             fs`freeInodesTotal, fs`usedDirs
    ensures r.Err? ==> r.error == ENOSPC && Untouched(fs) && CannotGrow(fs.geo, dst.size, fs.freeBlocksTotal)
    ensures r.Err? <==> target.None? && NoPlaceAt(fs.geo, old(SpaceOf(fs)), dst, |to|)
    ensures old(fs.freeBlocksTotal) <= fs.freeBlocksTotal + 4
    ensures Steady(fs.geo, old(fs.live), fs.live, fs.geo.blockSize)
    ensures r.Ok? ==>
              && Whole(fs) && fs.live == fs.inodes
              && NamesOn(fs) == Replaced(old(NamesOn(fs)), (dst.ino, to)).(names :=
                 Replaced(old(NamesOn(fs)), (dst.ino, to)).names[(dst.ino, to) := src])
              && FilesSame(old(Leaves(fs.disk, fs.tree)), Leaves(fs.disk, fs.tree), old(fs.live), fs.live, {})
              && Retyped(fs, map[(dst.ino, to) := kind])
  {
    hide TypesStep, Volume.Geometry.GroupsOk, Volume.Geometry.Sane, DiskOk, UpIn, NoPlace, Steady, TreeOk, Bounded,
         BlocksAgree, BlockCountsOk, DirOk, Leaves, InsideSize, DirNames, DirsOk, NsOf, MetaKept, OthersKept,
         InodesAgree, FileLimit.MaxBlocks, Lb, SizesFit, DirSound, DirEntries, NsOk, Conserved, FilesSame,
         DirRemoved, Unlinked, Empty, Dirent.Ordinary, Dirent.Dotted, FoundAt, NamesOf;
    ghost var a, ns, at, live := SpaceOf(fs), NamesOn(fs), (dst.ino, to), fs.live;
    OrdinaryName(to);
    DirHere(fs, dst);
    if target.None? {
      var dst';
      SteadySelf(fs.geo, live, fs.geo.blockSize);
      r, dst' := Enter(fs, dst, to, src, kind);
      if r.Ok? {
        fs.inodes := fs.inodes[dst.ino := dst'];
        FilesApart(Leaves(a.disk, a.tree), Leaves(fs.disk, fs.tree), live, dst');
        SteadyOne(fs.geo, live, dst', fs.geo.blockSize);
      }
      return;
    }
    Overwrite(fs, dst, to, src, kind, target.value, old_.value, lb, k);
    return Ok(());
  }

  lemma PointedEmpty(names: map<Place, nat>, at: Place, x: nat, d: nat)
    requires Empty(names, d) && at in names
    ensures Empty(names[at := x], d)
  {
  }

  lemma SwappedName(names: map<Place, nat>, at: Place, x: nat)
    ensures (names - {at})[at := x] == names[at := x]
  {
  }

  /** The old name goes; a directory that moves no longer counts for its old parent. */
  method OldName(fs: Ext2, fromDir: nat, from: Dirent.Name, movesDir: bool) returns (r: Result<()>)
    requires Whole(fs) && fs.live == fs.inodes && fromDir in NamesOn(fs).up && (fromDir, from) in NamesOn(fs).names
             && !Dirent.Dotted(from)
    requires fromDir in NamesOn(fs).links && (movesDir ==> NamesOn(fs).links[fromDir] > 1)
    modifies fs`disk, fs`live, fs`inodes
    ensures r.Ok? && Whole(fs) && fs.live == fs.inodes
    ensures var ns := old(NamesOn(fs));
            NamesOn(fs) == Ns(ns.kind, if movesDir then Bump(ns.links, fromDir, -1)
                else ns.links, ns.up, ns.names - {(fromDir, from)})
    ensures FilesSame(old(Leaves(fs.disk, fs.tree)), Leaves(fs.disk, fs.tree), old(fs.live), fs.live, {})
    ensures Retyped(fs, map[])
    ensures Steady(fs.geo, old(fs.live), fs.live, 0) && SameDirs(old(fs.live), fs.live)
  {
    hide TypesStep, Steady, TreeOk, Bounded, BlocksAgree, BlockCountsOk, DirOk, Leaves, InsideSize, DirNames, DirsOk,
         NsOf, MetaKept, OthersKept, InodesAgree, FileLimit.MaxBlocks, Lb, SizesFit, DirSound, DirEntries, NsOk,
         Conserved, FilesSame, Dirent.Ordinary, Dirent.Dotted, FoundAt, NamesOf;
    ghost var before, live := Leaves(fs.disk, fs.tree), fs.live;
    InodeHere(fs, fromDir);
    FitsOne(fs.geo, fs.inodes, fromDir);
    var got := GetInode(fs, fromDir);
    var parent := got.value;
    InoIs(fs.geo, fs.disk, fs.live, fs.tree, fromDir);
    DirHere(fs, parent);
    EntriesHere(fs, parent, from);
    var found, lb, k := FindEntry(fs, parent, from, UpIn(fs, fromDir));
    if found.value.None? {
      return Err(EIO);
    }
    Leave(fs, parent, found.value.value, lb, k, from);
    if movesDir {
      ghost var mid := Leaves(fs.disk, fs.tree);
      parent := SetLinks(fs, parent, parent.links - 1);
      StepNone(fs.geo, before, mid, mid, live, live, fs.live, map[]);
    }
    fs.inodes := fs.inodes[fromDir := parent];
    FilesApart(before, Leaves(fs.disk, fs.tree), live, parent);
    assert fs.live == live[fromDir := parent];
    SteadyOne(fs.geo, live, parent, 0);
    return Ok(());
  }

  /** A directory that moved counts for its new parent, and its `..` names it. */
  method Settle(fs: Ext2, x: nat, toDir: nat, movesDir: bool) returns (r: Result<()>)
    requires Whole(fs) && fs.live == fs.inodes && x in NamesOn(fs).kind && toDir in NamesOn(fs).up
    requires movesDir ==> x in NamesOn(fs).up && x != toDir
    modifies fs`disk, fs`live, fs`inodes
    ensures r.Ok? && Whole(fs) && fs.live == fs.inodes
    ensures var ns := old(NamesOn(fs));
            NamesOn(fs) == if movesDir then Ns(ns.kind, Bump(ns.links, toDir, 1), ns.up[x := toDir], ns.names) else ns
    ensures FilesSame(old(Leaves(fs.disk, fs.tree)), Leaves(fs.disk, fs.tree), old(fs.live), fs.live, {})
    ensures Retyped(fs, if movesDir then map[(x, Dirent.DOTDOT) := Directory] else map[])
    ensures Steady(fs.geo, old(fs.live), fs.live, 0) && SameDirs(old(fs.live), fs.live)
  {
    hide TypesStep, Steady, TreeOk, Bounded, BlocksAgree, BlockCountsOk, DirOk, Leaves, InsideSize, DirNames, DirsOk,
         NsOf, MetaKept, OthersKept, InodesAgree, FileLimit.MaxBlocks, Lb, SizesFit, DirSound, DirEntries, NsOk,
         Conserved, FilesSame, Dirent.Ordinary, Dirent.Dotted, FoundAt, NamesOf;
    ghost var before, live := Leaves(fs.disk, fs.tree), fs.live;
    FilesSelf(before, live);
    SelfStep(fs.geo, before, live);
    SteadySelf(fs.geo, live, 0);
    InodeHere(fs, x);
    InodeHere(fs, toDir);
    FitsOne(fs.geo, fs.inodes, x);
    FitsOne(fs.geo, fs.inodes, toDir);
    InoIs(fs.geo, fs.disk, fs.live, fs.tree, x);
    InoIs(fs.geo, fs.disk, fs.live, fs.tree, toDir);
    var got := GetInode(fs, x);
    var src := got.value;
    if movesDir {
      var gotDst := GetInode(fs, toDir);
      var dst := gotDst.value;
      DirHere(fs, dst);
      dst := SetLinks(fs, dst, dst.links + 1);
      fs.inodes := fs.inodes[toDir := dst];
      SteadyOne(fs.geo, live, dst, 0);
      DirHere(fs, src);
      var dotdot, lb, k := FindEntry(fs, src, Dirent.DOTDOT, UpIn(fs, x));
      if dotdot.value.None? {
        return Err(EIO);
      }
      FilesRelinked(before, live, dst);
      ghost var now := fs.live;
      Reparent(fs, src, dotdot.value.value, toDir, lb, k);
      StepPut(fs.geo, before, before, Leaves(fs.disk, fs.tree), live, now, fs.live, map[], (x, Dirent.DOTDOT),
          Directory);
      FilesApart(before, Leaves(fs.disk, fs.tree), fs.live, src);
      assert fs.live[x := src] == fs.live;
      FilesTrans(before, before, Leaves(fs.disk, fs.tree), live, fs.live, fs.live);
    }
    fs.inodes := fs.inodes[x := src];
    return Ok(());
  }

  // ----- move_entry -----

  /** Why the two places cannot be looked at: rules 1 to 4 of the contract. */
  function PlacesError(inodes: map<nat, Inode>, readOnly: bool, from: Place, to: Place): Option<Errno> {
    if from.0 !in inodes || !inodes[from.0].InUse() || to.0 !in inodes || !inodes[to.0].InUse() then Some(ENOENT)
    else if readOnly then Some(EROFS)
    else if NameError(from.1).Some? then NameError(from.1)
    else if NameError(to.1).Some? then NameError(to.1)
    else if inodes[from.0].kind != Directory || inodes[to.0].kind != Directory then Some(ENOTDIR)
    else None
  }

  /** Why `from`, which exists, cannot become `to`, in the contract's order. */
  ghost function MoveError(ns: Ns, from: Place, to: Place, limit: nat): Option<Errno>
    requires from in ns.names
  {
    var x := ns.names[from];
    if to in ns.names && ns.names[to] == x then None
    else if x in ns.up && TooDeep(ns.up, x, to.0, limit) then Some(EIO)
    else if x in ns.up && Ancestor(ns.up, x, to.0) then Some(EINVAL)
    else if to in ns.names && x in ns.up && ns.names[to] !in ns.up then Some(ENOTDIR)
    else if to in ns.names && x !in ns.up && ns.names[to] in ns.up then Some(EISDIR)
    else if to in ns.names && ns.names[to] in ns.up && !Empty(ns.names, ns.names[to]) then Some(ENOTEMPTY)
    else if to !in ns.names && x in ns.up && from.0 != to.0 && to.0 in ns.links
        && ns.links[to.0] >= LINK_MAX then Some(ENOSPC)
    else None
  }

  method CheckPlaces(fs: Ext2, from: Place, to: Place) returns (r: Result<(Inode, Inode)>)
    requires fs.geo.Sane() && SizesFit(fs.geo, fs.inodes)
    ensures PlacesError(fs.inodes, fs.readOnly, from, to).Some? ==>
            r == Err(PlacesError(fs.inodes, fs.readOnly, from, to).value)
    ensures PlacesError(fs.inodes, fs.readOnly, from, to).None? ==> r == Ok((fs.inodes[from.0], fs.inodes[to.0]))
  {
    var src := GetInode(fs, from.0);
    if src.Err? {
      return Err(src.error);
    }
    var dst := GetInode(fs, to.0);
    if dst.Err? {
      return Err(dst.error);
    }
    if fs.readOnly {
      return Err(EROFS);
    }
    if NameError(from.1).Some? {
      return Err(NameError(from.1).value);
    }
    if NameError(to.1).Some? {
      return Err(NameError(to.1).value);
    }
    if src.value.kind != Directory || dst.value.kind != Directory {
      return Err(ENOTDIR);
    }
    return Ok((src.value, dst.value));
  }

  /** What a move does to the namespace, part by part. */
  lemma RenamedParts(ns: Ns, from: Place, to: Place)
    requires NsOk(ns) && from in ns.names && from != to && to.0 in ns.up
    requires ns.names[from] in ns.up ==> !Ancestor(ns.up, ns.names[from], to.0)
    requires to in ns.names ==>
      && ns.names[to] != ns.names[from] && (ns.names[to] in ns.up <==> ns.names[from] in ns.up)
      && (ns.names[to] in ns.up ==> Empty(ns.names, ns.names[to]))
    ensures var m, x := Replaced(ns, to), ns.names[from];
            && NsOk(m) && from in m.names && m.names[from] == x && to !in m.names && to.0 in m.up && x in m.kind
            && (x in m.up <==> x in ns.up)
            && (x in m.up ==> !Ancestor(m.up, x, to.0))
            && Renamed(ns, from, to) == Relocated(m, from, to)
  {
    hide NsOk, Ancestor, Relocated;
    if to in ns.names {
      NsNode(ns, to);
      NsNode(ns, from);
      if ns.names[to] in ns.up {
        DirRemovedOk(ns, to);
        DirFacts(ns, to);
        StillNoAncestor(ns.up, ns.names[to], ns.names[from], to.0);
      } else {
        UnlinkedOk(ns, to);
      }
    } else {
      NsNode(ns, from);
    }
  }

  lemma NsNode(ns: Ns, at: Place)
    requires NsOk(ns) && at in ns.names
    ensures ns.names[at] in ns.kind && ns.names[at] in ns.links && at.0 in ns.up && at.0 in ns.links
  {
    hide DirsOnce, TreeUp, DirLinks, FileLinks;
  }

  lemma RelocatedParts(m: Ns, from: Place, to: Place)
    requires NsOk(m) && from in m.names && to !in m.names && to.0 in m.up
    requires m.names[from] in m.up ==> !Ancestor(m.up, m.names[from], to.0)
    ensures from.0 in m.links && to.0 in m.links
    ensures m.names[from] in m.up && from.0 != to.0 ==> m.links[from.0] > 2 && m.names[from] != to.0
    ensures Relocated(m, from, to) ==
            if m.names[from] in m.up && from.0 != to.0
            then Ns(m.kind, Bump(Bump(m.links, from.0, -1), to.0, 1), m.up[m.names[from] := to.0],
                m.names[to := m.names[from]] - {from})
            else Ns(m.kind, m.links, m.up, m.names[to := m.names[from]] - {from})
  {
    hide TreeUp, DirsOnce, FileLinks, DirLinks, EntriesOk, Ancestor;
    var x := m.names[from];
    FileIn(m, from);
    assert (m.names - {from})[to := x] == m.names[to := x] - {from};
    if x in m.up {
      DirFacts(m, from);
      assert x != to.0 by { if x == to.0 { AncestorAt(m.up, x, x, 0); } }
      if from.0 != to.0 { LinksMove(m.links, m.up, x, to.0); }
    }
  }

  lemma MovedStep(geo: Geometry, a: map<Loc, Bytes>, b: map<Loc, Bytes>, c: map<Loc, Bytes>, live: map<nat, Inode>,
        live': map<nat, Inode>, live'': map<nat, Inode>, ns: Ns, from: Place, to: Place)
    requires geo.Sane() && NsOk(ns) && from in ns.names && SameDirs(live', live'')
    requires ns.names[from] in ns.kind
    requires TypesStep(geo, a, b, live, live', map[to := ns.kind[ns.names[from]]])
    requires var x := ns.names[from];
             TypesStep(geo, b, c, live', live'',
                       if x in ns.up && from.0 != to.0 then map[(x, Dirent.DOTDOT) := Directory] else map[])
    ensures TypesStep(geo, a, c, live, live'', MovedTypes(ns, from, to))
  {
    hide TypesStep, NsOk;
    var x := ns.names[from];
    var put := map[to := ns.kind[x]];
    if x in ns.up && from.0 != to.0 {
      StepPut(geo, a, b, c, live, live', live'', put, (x, Dirent.DOTDOT), Directory);
    } else {
      StepNone(geo, a, b, c, live, live', live'', put);
    }
  }

  /** The part of `move_entry` after its checks. */
  method MoveChecked(fs: Ext2, from: Place, to: Place, dst: Inode, src: Inode, target: Option<Found>,
        old_: Option<Inode>, ghost lb: nat, ghost k: nat) returns (r: Result<()>)
    requires VolumeOk(fs) && IsDir(fs.live, to.0) && fs.live[to.0] == dst && dst.ino == to.0
             && Dirent.Ordinary(from.1) && Dirent.Ordinary(to.1) && from != to
    requires from in NamesOn(fs).names && NamesOn(fs).names[from] == src.ino && src.ino in fs.live
             && fs.live[src.ino] == src
    requires to.0 in NamesOn(fs).up && (src.ino in NamesOn(fs).up ==> !Ancestor(NamesOn(fs).up, src.ino, to.0))
    requires to in NamesOn(fs).names ==>
               && NamesOn(fs).names[to] != src.ino
               && (NamesOn(fs).names[to] in NamesOn(fs).up <==> src.ino in NamesOn(fs).up)
               && (NamesOn(fs).names[to] in NamesOn(fs).up ==> Empty(NamesOn(fs).names, NamesOn(fs).names[to]))
    requires (target.Some? <==> to in NamesOn(fs).names) && (target.Some? <==> old_.Some?)
    requires target.Some? ==>
               && FoundAt(fs, dst, target.value, lb, k, to.1) && NamesOn(fs).names[to] == old_.value.ino
               && old_.value.ino in fs.live && fs.live[old_.value.ino] == old_.value
    modifies fs`disk, fs`freeBlocks, fs`freeBlocksTotal, fs`live, fs`tree, fs`inodes, fs`freeInodes,
             fs`freeInodesTotal, fs`usedDirs
    ensures VolumeOk(fs)
    ensures r.Ok? ==>
            var ns := old(NamesOn(fs)); NamesOn(fs) == Renamed(ns, from, to) && Retyped(fs, MovedTypes(ns, from, to))
    ensures r.Ok? ==> FilesSame(old(Leaves(fs.disk, fs.tree)), Leaves(fs.disk, fs.tree), old(fs.live), fs.live, {})
    ensures old(TypesOn(fs)) ==> TypesOn(fs)
    ensures r.Err? ==> r.error == ENOSPC && Untouched(fs) && CannotGrow(fs.geo, dst.size, fs.freeBlocksTotal)
    ensures r.Err? <==> target.None? && NoPlaceAt(fs.geo, old(SpaceOf(fs)), dst, |to.1|)
    ensures old(fs.freeBlocksTotal) <= fs.freeBlocksTotal + 4
    ensures Steady(fs.geo, old(fs.live), fs.live, fs.geo.blockSize)
  {
    hide TypesStep, TypesOk, PutsFit, MovedTypes, Plain, NoPlace, Steady, TreeOk, Bounded, BlocksAgree,
         BlockCountsOk, DirOk, Leaves, InsideSize, DirNames, DirsOk, NsOf, MetaKept, OthersKept, InodesAgree,
         FileLimit.MaxBlocks, Lb, SizesFit, DirSound, DirEntries, NsOk, Conserved, FilesSame, Replaced, Renamed,
         Relocated, Empty, Ancestor, Bump, Dirent.Ordinary, Dirent.Dotted, FoundAt, NamesOf;
    ghost var ns := NamesOn(fs);
    ghost var m := Replaced(ns, to);
    ghost var l0, live0 := Leaves(fs.disk, fs.tree), fs.live;
    var srcIsDir := src.kind == Directory;
    var movesDir := srcIsDir && from.0 != to.0;
    Target(fs, from);
    InodeHere(fs, src.ino);
    NsNode(ns, from);
    if target.Some? { Target(fs, to); }
    RenamedParts(ns, from, to);
    RelocatedParts(m, from, to);
    RenamedOk(ns, from, to);
    OrdinaryName(from.1);
    r := NewName(fs, dst, to.1, src.ino, src.kind, target, old_, lb, k);
    if r.Err? {
      return;
    }
    ghost var l1, live1 := Leaves(fs.disk, fs.tree), fs.live;
    assert (to.0, to.1) == to && (from.0, from.1) == from;
    NsNode(m, from);
    r := OldName(fs, from.0, from.1, movesDir);
    ghost var l2, live2 := Leaves(fs.disk, fs.tree), fs.live;
    r := Settle(fs, src.ino, to.0, movesDir);
    FilesTrans(l0, l1, l2, live0, live1, live2);
    FilesTrans(l0, l2, Leaves(fs.disk, fs.tree), live0, live2, fs.live);
    SteadyTrans(fs.geo, live0, live1, live2, fs.geo.blockSize);
    SteadyTrans(fs.geo, live0, live2, fs.live, fs.geo.blockSize);
    StepNone(fs.geo, l0, l1, l2, live0, live1, live2, map[to := src.kind]);
    MovedStep(fs.geo, l0, l2, Leaves(fs.disk, fs.tree), live0, live2, fs.live, ns, from, to);
    if old(TypesOn(fs)) {
      OrdinaryName(to.1);
      AllPlain(fs.geo, l0, live0);
      RenamedFits(ns, from, to);
      TypesFollow(fs.geo, l0, Leaves(fs.disk, fs.tree), live0, fs.live, MovedTypes(ns, from, to));
    }
  }

  /** The checks on an existing target. */
  method CheckTarget(fs: Ext2, to: Place, t: Found, srcIsDir: bool) returns (r: Result<Inode>)
    requires VolumeOk(fs) && to in NamesOn(fs).names && t.entry.inode == NamesOn(fs).names[to]
    ensures var y, up := NamesOn(fs).names[to], NamesOn(fs).up;
            r == if srcIsDir && y !in up then Err(ENOTDIR)
                 else if !srcIsDir && y in up then Err(EISDIR)
                 else if y in up && !Empty(NamesOn(fs).names, y) then Err(ENOTEMPTY)
                 else if y in fs.live then Ok(fs.live[y]) else Err(EIO)
    ensures NamesOn(fs).names[to] in fs.live && fs.live[NamesOn(fs).names[to]].ino == NamesOn(fs).names[to]
  {
    hide TreeOk, Bounded, BlocksAgree, BlockCountsOk, DirOk, Leaves, InsideSize, DirNames, DirsOk, NsOf, MetaKept,
         OthersKept, InodesAgree, FileLimit.MaxBlocks, Lb, SizesFit, DirSound, DirEntries, NsOk, Conserved,
         FilesSame, Empty, Ancestor, Dirent.Ordinary, Dirent.Dotted, FoundAt, NamesOf;
    Target(fs, to);
    InodeHere(fs, NamesOn(fs).names[to]);
    var got := EntryInode(fs, t);
    var inode := got.value;
    var isDir := inode.kind == Directory;
    if isDir {
      DirFacts(NamesOn(fs), to);
      var checked := CheckParent(fs, inode, to.0);
      if checked.Err? {
        return Err(EIO);
      }
    }
    if srcIsDir && !isDir {
      return Err(ENOTDIR);
    }
    if !srcIsDir && isDir {
      return Err(EISDIR);
    }
    if isDir {
      var empty := HoldsNothing(fs, inode);
      if !empty.value {
        return Err(ENOTEMPTY);
      }
    }
    return Ok(inode);
  }

  /** Moves the entry `from` to `to`, replacing what is there. */
  method MoveEntry(fs: Ext2, from: Place, to: Place) returns (r: Result<()>)
    requires VolumeOk(fs)
    modifies fs`disk, fs`freeBlocks, fs`freeBlocksTotal, fs`live, fs`tree, fs`inodes, fs`freeInodes,
             fs`freeInodesTotal, fs`usedDirs
    ensures VolumeOk(fs)
    ensures var e := old(PlacesError(fs.inodes, fs.readOnly, from, to));
            && (e.Some? ==> r == Err(e.value))
            && (e.None? && from !in old(NamesOn(fs)).names ==> r == Err(ENOENT))
    ensures old(PlacesError(fs.inodes, fs.readOnly, from, to)).None? && from in old(NamesOn(fs)).names ==>
              var ns := old(NamesOn(fs));
              var e := MoveError(ns, from, to, old(WalkLimit(fs.geo, fs.freeInodesTotal)));
              if e.Some? then r == Err(e.value)
              else if to in ns.names && ns.names[to] == ns.names[from] then r == Ok(()) && Untouched(fs)
              else if to !in ns.names && NoPlaceAt(fs.geo, old(SpaceOf(fs)), old(fs.inodes)[to.0], |to.1|)
              then r == Err(ENOSPC) && CannotGrow(fs.geo, old(fs.inodes)[to.0].size, fs.freeBlocksTotal)
              else (from != to && r.Ok? && NamesOn(fs) == Renamed(ns, from, to)
                  && Retyped(fs, MovedTypes(ns, from, to)))
    ensures old(fs.freeBlocksTotal) <= fs.freeBlocksTotal + 4
    ensures Steady(fs.geo, old(fs.live), fs.live, fs.geo.blockSize)
    ensures FilesSame(old(Leaves(fs.disk, fs.tree)), Leaves(fs.disk, fs.tree), old(fs.live), fs.live, {})
    ensures r.Err? ==> Untouched(fs)
    ensures old(TypesOn(fs)) ==> TypesOn(fs)
  {
    hide TypesStep, TypesOk, MovedTypes, NoPlace, Steady, TreeOk, Bounded, BlocksAgree, BlockCountsOk, DirOk, Leaves,
         InsideSize, DirNames, DirsOk, NsOf, MetaKept, OthersKept, InodesAgree, FileLimit.MaxBlocks, Lb, SizesFit,
         DirSound, DirEntries, NsOk, Conserved, FilesSame, Empty, Ancestor, Renamed, TooDeep, Dirent.Ordinary,
         Dirent.Dotted, FoundAt, NamesOf;
    FilesSelf(Leaves(fs.disk, fs.tree), fs.live);
    SteadySelf(fs.geo, fs.live, fs.geo.blockSize);
    var places := CheckPlaces(fs, from, to);
    if places.Err? {
      return Err(places.error);
    }
    var (srcParent, dst) := places.value;
    ghost var ns := NamesOn(fs);
    InoIs(fs.geo, fs.disk, fs.live, fs.tree, from.0);
    InoIs(fs.geo, fs.disk, fs.live, fs.tree, to.0);
    OrdinaryName(from.1);
    OrdinaryName(to.1);
    DirHere(fs, srcParent);
    DirHere(fs, dst);
    EntriesHere(fs, srcParent, from.1);
    EntriesHere(fs, dst, to.1);
    assert (from.0, from.1) == from && (to.0, to.1) == to;
    var found, lb, k := FindEntry(fs, srcParent, from.1, UpIn(fs, from.0));
    if found.value.None? {
      return Err(ENOENT);
    }
    Target(fs, from);
    var entry := EntryInode(fs, found.value.value);
    var src := entry.value;
    var target, tlb, tk := FindEntry(fs, dst, to.1, UpIn(fs, to.0));
    r := MoveFound(fs, from, to, dst, src, target.value, tlb, tk);
  }

  /** The part of `move_entry` after source and target were looked up. */
  method MoveFound(fs: Ext2, from: Place, to: Place, dst: Inode, src: Inode, target: Option<Found>, ghost lb: nat,
        ghost k: nat) returns (r: Result<()>)
    requires VolumeOk(fs) && IsDir(fs.live, to.0) && fs.live[to.0] == dst && dst.ino == to.0
             && Dirent.Ordinary(from.1) && Dirent.Ordinary(to.1)
    requires from in NamesOn(fs).names && NamesOn(fs).names[from] == src.ino && src.ino in fs.live
             && fs.live[src.ino] == src
    requires target.Some? <==> to in NamesOn(fs).names
    requires target.Some? ==>
             FoundAt(fs, dst, target.value, lb, k, to.1) && target.value.entry.inode == NamesOn(fs).names[to]
    modifies fs`disk, fs`freeBlocks, fs`freeBlocksTotal, fs`live, fs`tree, fs`inodes, fs`freeInodes,
             fs`freeInodesTotal, fs`usedDirs
    ensures VolumeOk(fs)
    ensures var ns := old(NamesOn(fs));
            var e := MoveError(ns, from, to, old(WalkLimit(fs.geo, fs.freeInodesTotal)));
            if e.Some? then r == Err(e.value)
            else if to in ns.names && ns.names[to] == ns.names[from] then r == Ok(()) && Untouched(fs)
            else if to !in ns.names && NoPlaceAt(fs.geo, old(SpaceOf(fs)), dst, |to.1|)
            then r == Err(ENOSPC) && CannotGrow(fs.geo, dst.size, fs.freeBlocksTotal)
            else (from != to && r.Ok? && NamesOn(fs) == Renamed(ns, from, to)
                  && Retyped(fs, MovedTypes(ns, from, to)))
    ensures old(fs.freeBlocksTotal) <= fs.freeBlocksTotal + 4
    ensures Steady(fs.geo, old(fs.live), fs.live, fs.geo.blockSize)
    ensures FilesSame(old(Leaves(fs.disk, fs.tree)), Leaves(fs.disk, fs.tree), old(fs.live), fs.live, {})
    ensures r.Err? ==> Untouched(fs)
    ensures old(TypesOn(fs)) ==> TypesOn(fs)
  {
    hide TypesStep, TypesOk, MovedTypes, NoPlace, Steady, TreeOk, Bounded, BlocksAgree, BlockCountsOk, DirOk, Leaves,
         InsideSize, DirNames, DirsOk, NsOf, MetaKept, OthersKept, InodesAgree, FileLimit.MaxBlocks, Lb, SizesFit,
         DirSound, DirEntries, NsOk, Conserved, FilesSame, Empty, Ancestor, Renamed, TooDeep, Dirent.Ordinary,
         Dirent.Dotted, FoundAt, NamesOf;
    ghost var ns := NamesOn(fs);
    FilesSelf(Leaves(fs.disk, fs.tree), fs.live);
    SteadySelf(fs.geo, fs.live, fs.geo.blockSize);
    Target(fs, from);
    InodeHere(fs, src.ino);
    InodeHere(fs, to.0);
    DirHere(fs, dst);
    if target.Some? && target.value.entry.inode == src.ino {
      return Ok(());
    }
    var srcIsDir := src.kind == Directory;
    if srcIsDir {
      DirFacts(ns, from);
      var checked := CheckParent(fs, src, from.0);
      if checked.Err? {
        return checked;
      }
      var above := IsAncestor(fs, src.ino, to.0);
      if above.Err? {
        return Err(above.error);
      }
      if above.value {
        return Err(EINVAL);
      }
    }
    var replaced: Option<Inode> := None;
    if target.Some? {
      var checked := CheckTarget(fs, to, target.value, srcIsDir);
      if checked.Err? {
        return Err(checked.error);
      }
      replaced := Some(checked.value);
    }
    if srcIsDir && from.0 != to.0 && replaced.None? && dst.links >= LINK_MAX {
      return Err(ENOSPC);
    }
    r := MoveChecked(fs, from, to, dst, src, target, replaced, lb, k);
  }
}

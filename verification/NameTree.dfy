/** The namespace a volume holds, read off the records of its directory blocks, and how it follows
    each change to an inode or a directory. */
module NameTree {
  import opened Wrappers
  import opened Le
  import opened Arith
  import opened BlockPath
  import opened Volume
  import opened FileData
  import Dirent
  import opened Directory
  import opened Namespace

  ghost predicate IsDir(live: map<nat, Inode>, d: nat) {
    d in live && live[d].InUse() && live[d].kind == Directory
  }

  /** The root and the inodes for files; the others are reserved. */
  predicate Visible(geo: Geometry, x: nat) {
    x == ROOT || x >= geo.firstIno
  }

  /** The entries of directory `d`. */
  ghost function DirEntries(geo: Geometry, leaves: map<Loc, Bytes>, live: map<nat, Inode>,
        d: nat): map<Dirent.Name, nat>
    requires geo.Sane()
  {
    if d in live then DirNames(geo, leaves, d, Lb(geo, live[d].size)) else map[]
  }

  ghost function UpOf(geo: Geometry, leaves: map<Loc, Bytes>, live: map<nat, Inode>, d: nat): nat
    requires geo.Sane()
  {
    var m := DirEntries(geo, leaves, live, d);
    if Dirent.DOTDOT in m then m[Dirent.DOTDOT] else 0
  }

  /** Directory `d` is whole blocks, each sound. */
  ghost predicate DirSound(geo: Geometry, leaves: map<Loc, Bytes>, live: map<nat, Inode>, d: nat)
    requires geo.Sane() && d in live
  {
    && Times(Lb(geo, live[d].size), geo.blockSize) == live[d].size
    && DirOk(geo, leaves, d, Lb(geo, live[d].size), UpOf(geo, leaves, live, d))
  }

  ghost predicate DirsOk(geo: Geometry, leaves: map<Loc, Bytes>, live: map<nat, Inode>)
    requires geo.Sane()
  {
    forall d :: IsDir(live, d) ==> Visible(geo, d) && DirSound(geo, leaves, live, d)
  }

  ghost predicate Named(geo: Geometry, live: map<nat, Inode>, x: nat) {
    x in live && live[x].InUse() && Visible(geo, x)
  }

  /** Every entry but `.` and `..`. */
  ghost function Places(geo: Geometry, leaves: map<Loc, Bytes>, live: map<nat, Inode>): (ps: set<Place>)
    requires geo.Sane()
    ensures forall d: nat, n :: (d, n) in ps <==>
            IsDir(live, d) && n in DirEntries(geo, leaves, live, d) && !Dirent.Dotted(n)
    ensures forall k :: k in ps ==> k.1 in DirEntries(geo, leaves, live, k.0)
  {
    set d, n | d in live && IsDir(live, d) && n in DirEntries(geo, leaves, live, d) && !Dirent.Dotted(n) :: (d, n)
  }

  /** The namespace on disk. */
  ghost function NsOf(geo: Geometry, leaves: map<Loc, Bytes>, live: map<nat, Inode>): Ns
    requires geo.Sane()
  {
    Ns(
      map x | x in live && Named(geo, live, x) :: live[x].kind,
      map x | x in live && Named(geo, live, x) :: live[x].links,
      map d | d in live && IsDir(live, d) :: UpOf(geo, leaves, live, d),
      map k | k in Places(geo, leaves, live) :: DirEntries(geo, leaves, live, k.0)[k.1])
  }

  /** The namespace has inode `x` as it is. */
  ghost predicate NodeIs(geo: Geometry, live: map<nat, Inode>, ns: Ns, x: nat) {
    && (x in ns.kind <==> Named(geo, live, x)) && (x in ns.links <==> Named(geo, live, x))
    && (Named(geo, live, x) ==> ns.kind[x] == live[x].kind && ns.links[x] == live[x].links)
  }

  /** The namespace has directory `d` as it is. */
  ghost predicate UpIs(geo: Geometry, leaves: map<Loc, Bytes>, live: map<nat, Inode>, ns: Ns, d: nat)
    requires geo.Sane()
  {
    (d in ns.up <==> IsDir(live, d)) && (d in ns.up ==> ns.up[d] == UpOf(geo, leaves, live, d))
  }

  ghost predicate EntryIs(geo: Geometry, leaves: map<Loc, Bytes>, live: map<nat, Inode>, ns: Ns, d: nat, n: Dirent.Name)
    requires geo.Sane()
  {
    && ((d, n) in ns.names <==> IsDir(live, d) && n in DirEntries(geo, leaves, live, d) && !Dirent.Dotted(n))
    && ((d, n) in ns.names ==>
       n in DirEntries(geo, leaves, live, d) && ns.names[(d, n)] == DirEntries(geo, leaves, live, d)[n])
  }

  /** The namespace has inode `x`, and its entries if it is a directory, as they are. */
  ghost predicate NsAt(geo: Geometry, leaves: map<Loc, Bytes>, live: map<nat, Inode>, ns: Ns, x: nat)
    requires geo.Sane()
  {
    NodeIs(geo, live, ns, x) && UpIs(geo, leaves, live, ns, x) && forall n :: EntryIs(geo, leaves, live, ns, x, n)
  }

  lemma NsOfIs(geo: Geometry, leaves: map<Loc, Bytes>, live: map<nat, Inode>, x: nat)
    requires geo.Sane()
    ensures NsAt(geo, leaves, live, NsOf(geo, leaves, live), x)
  {
    hide DirEntries, UpOf, Dirent.Dotted;
  }

  lemma NsUnique(geo: Geometry, leaves: map<Loc, Bytes>, live: map<nat, Inode>, ns: Ns)
    requires geo.Sane() && forall x :: NsAt(geo, leaves, live, ns, x)
    ensures ns == NsOf(geo, leaves, live)
  {
    hide DirEntries, UpOf, IsDir, Named, NsOf, NsAt, Dirent.Dotted;
    var of := NsOf(geo, leaves, live);
    forall x: nat
      ensures x in ns.kind <==> x in of.kind
      ensures x in ns.links <==> x in of.links
      ensures x in ns.up <==> x in of.up
      ensures x in ns.kind ==> ns.kind[x] == of.kind[x]
      ensures x in ns.links ==> ns.links[x] == of.links[x]
      ensures x in ns.up ==> ns.up[x] == of.up[x]
    {
      NsOfIs(geo, leaves, live, x);
      NodeAt(geo, leaves, live, ns, x);
      NodeAt(geo, leaves, live, of, x);
    }
    assert ns.kind == of.kind && ns.links == of.links && ns.up == of.up;
    forall k: Place
      ensures k in ns.names <==> k in of.names
      ensures k in ns.names ==> ns.names[k] == of.names[k]
    {
      NsOfIs(geo, leaves, live, k.0);
      EntryAt(geo, leaves, live, ns, k.0, k.1);
      EntryAt(geo, leaves, live, of, k.0, k.1);
      assert (k.0, k.1) == k;
    }
    assert ns.names == of.names;
  }

  lemma NodeAt(geo: Geometry, leaves: map<Loc, Bytes>, live: map<nat, Inode>, ns: Ns, x: nat)
    requires geo.Sane() && NsAt(geo, leaves, live, ns, x)
    ensures NodeIs(geo, live, ns, x) && UpIs(geo, leaves, live, ns, x)
  {
  }

  lemma EntryAt(geo: Geometry, leaves: map<Loc, Bytes>, live: map<nat, Inode>, ns: Ns, d: nat, n: Dirent.Name)
    requires geo.Sane() && NsAt(geo, leaves, live, ns, d)
    ensures EntryIs(geo, leaves, live, ns, d, n)
  {
  }

  // ----- one inode or directory changed -----

  /** Nothing but inode `x` and its blocks changed. */
  ghost predicate OnlyInode(a: map<Loc, Bytes>, b: map<Loc, Bytes>, live: map<nat, Inode>, live': map<nat, Inode>,
        x: nat) {
    x in live && live'.Keys == live.Keys && (forall y :: y in live && y != x ==> live'[y] == live[y])
        && OthersKept(a, b, x)
  }

  lemma EntriesKept(geo: Geometry, a: map<Loc, Bytes>, b: map<Loc, Bytes>, live: map<nat, Inode>,
        live': map<nat, Inode>, x: nat, d: nat)
    requires geo.Sane() && OthersKept(a, b, x) && d != x && d in live && d in live' && live'[d].size == live[d].size
    ensures DirEntries(geo, b, live', d) == DirEntries(geo, a, live, d)
    ensures DirSound(geo, a, live, d) ==> DirSound(geo, b, live', d)
  {
    hide DirOk, DirNames, LeafFor, Reach;
    DirSame(geo, a, b, d, Lb(geo, live[d].size));
  }

  lemma SameEntries(geo: Geometry, a: map<Loc, Bytes>, live: map<nat, Inode>, live': map<nat, Inode>, d: nat)
    requires geo.Sane() && d in live && d in live' && live'[d].size == live[d].size
    ensures DirEntries(geo, a, live', d) == DirEntries(geo, a, live, d)
    ensures DirSound(geo, a, live, d) ==> DirSound(geo, a, live', d)
  {
  }

  /** What stays when only inode `x` and its blocks change. */
  lemma Apart(geo: Geometry, a: map<Loc, Bytes>, b: map<Loc, Bytes>, live: map<nat, Inode>, live': map<nat, Inode>,
        x: nat)
    requires geo.Sane() && OnlyInode(a, b, live, live', x)
    ensures forall d :: d != x ==> DirEntries(geo, b, live', d) == DirEntries(geo, a, live, d)
    ensures forall d :: d != x && d in live && DirSound(geo, a, live, d) ==> DirSound(geo, b, live', d)
    ensures forall d :: d != x ==>
            (IsDir(live', d) <==> IsDir(live, d)) && (Named(geo, live', d) <==> Named(geo, live, d))
  {
    hide DirSound, DirNames;
    forall d | d != x
      ensures DirEntries(geo, b, live', d) == DirEntries(geo, a, live, d)
      ensures d in live && DirSound(geo, a, live, d) ==> DirSound(geo, b, live', d)
    {
      if d in live { EntriesKept(geo, a, b, live, live', x, d); }
    }
  }

  lemma DirsKept(geo: Geometry, a: map<Loc, Bytes>, b: map<Loc, Bytes>, live: map<nat, Inode>,
        live': map<nat, Inode>, x: nat)
    requires geo.Sane() && OnlyInode(a, b, live, live', x) && DirsOk(geo, a, live)
    requires IsDir(live', x) ==> Visible(geo, x) && DirSound(geo, b, live', x)
    ensures DirsOk(geo, b, live')
  {
    hide DirSound, DirEntries;
    Apart(geo, a, b, live, live', x);
  }

  /** The namespaces agree on inode `x`. */
  ghost predicate Agree(a: Ns, b: Ns, x: nat) {
    && (x in a.kind <==> x in b.kind) && (x in a.kind ==> a.kind[x] == b.kind[x])
    && (x in a.links <==> x in b.links) && (x in a.links ==> a.links[x] == b.links[x])
    && (x in a.up <==> x in b.up) && (x in a.up ==> a.up[x] == b.up[x])
    && (forall n :: (x, n) in a.names <==> (x, n) in b.names)
    && (forall n :: (x, n) in a.names ==> (x, n) in b.names && a.names[(x, n)] == b.names[(x, n)])
  }

  lemma AgreeAt(geo: Geometry, a: map<Loc, Bytes>, b: map<Loc, Bytes>, live: map<nat, Inode>, live': map<nat, Inode>,
        ns: Ns, ns': Ns, y: nat)
    requires geo.Sane() && NsAt(geo, a, live, ns, y) && Agree(ns, ns', y)
    requires DirEntries(geo, b, live', y) == DirEntries(geo, a, live, y) && (IsDir(live', y) <==> IsDir(live, y))
             && (Named(geo, live', y) <==> Named(geo, live, y))
    requires Named(geo, live, y) ==> live'[y] == live[y]
    ensures NsAt(geo, b, live', ns', y)
  {
    hide DirEntries, IsDir, Named, Dirent.Dotted;
    forall n
      ensures EntryIs(geo, b, live', ns', y, n)
    {
      assert EntryIs(geo, a, live, ns, y, n);
    }
  }

  /** The changed namespace is `ns'` if `ns'` is right at `x`, and elsewhere is the old one. */
  lemma NsFollows(geo: Geometry, a: map<Loc, Bytes>, b: map<Loc, Bytes>, live: map<nat, Inode>,
        live': map<nat, Inode>, x: nat, ns': Ns)
    requires geo.Sane() && OnlyInode(a, b, live, live', x)
    requires forall y :: y != x ==> Agree(NsOf(geo, a, live), ns', y)
    requires NsAt(geo, b, live', ns', x)
    ensures NsOf(geo, b, live') == ns'
  {
    hide DirEntries, DirSound, NsOf, NsAt, Agree;
    Apart(geo, a, b, live, live', x);
    forall y
      ensures NsAt(geo, b, live', ns', y)
    {
      if y != x {
        NsOfIs(geo, a, live, y);
        AgreeAt(geo, a, b, live, live', NsOf(geo, a, live), ns', y);
      }
    }
    NsUnique(geo, b, live', ns');
  }

  // ----- the steps of the operations -----

  /** The entries of directory `d` changed. */
  lemma EntryStep(geo: Geometry, a: map<Loc, Bytes>, b: map<Loc, Bytes>, live: map<nat, Inode>,
        live': map<nat, Inode>, d: nat, ns': Ns)
    requires geo.Sane() && OnlyInode(a, b, live, live', d) && DirsOk(geo, a, live) && IsDir(live, d)
    requires live'[d].kind == Directory && live'[d].links == live[d].links && DirSound(geo, b, live', d)
    requires var ns := NsOf(geo, a, live);
             && ns'.kind == ns.kind && ns'.links == ns.links
             && d in ns'.up && ns'.up[d] == UpOf(geo, b, live', d)
             && (forall y :: y != d ==> (y in ns.up <==> y in ns'.up) && (y in ns.up ==> ns'.up[y] == ns.up[y]))
             && (forall k: Place :: k.0 != d ==>
                (k in ns.names <==> k in ns'.names) && (k in ns.names ==> ns'.names[k] == ns.names[k]))
    requires forall n :: EntryIs(geo, b, live', ns', d, n)
    ensures DirsOk(geo, b, live') && NsOf(geo, b, live') == ns'
  {
    hide DirEntries, DirSound, NsOf, Dirent.Dotted;
    DirsKept(geo, a, b, live, live', d);
    NsOfIs(geo, a, live, d);
    NsFollows(geo, a, b, live, live', d, ns');
  }

  /** Directory `d` has one more name, or another inode for one. */
  lemma NamePut(geo: Geometry, a: map<Loc, Bytes>, b: map<Loc, Bytes>, live: map<nat, Inode>, live': map<nat, Inode>,
        d: nat, name: Dirent.Name, x: nat)
    requires geo.Sane() && OnlyInode(a, b, live, live', d) && DirsOk(geo, a, live) && IsDir(live, d)
    requires live'[d].kind == Directory && live'[d].links == live[d].links && DirSound(geo, b, live', d)
             && !Dirent.Dotted(name)
    requires DirEntries(geo, b, live', d) == DirEntries(geo, a, live, d)[name := x]
    ensures DirsOk(geo, b, live')
    ensures var ns := NsOf(geo, a, live); NsOf(geo, b, live') == ns.(names := ns.names[(d, name) := x])
  {
    hide DirEntries, DirSound, NsOf;
    var ns := NsOf(geo, a, live);
    NsOfIs(geo, a, live, d);
    EntryStepUp(geo, a, b, live, live', d);
    var ns' := ns.(names := ns.names[(d, name) := x]);
    forall n
      ensures EntryIs(geo, b, live', ns', d, n)
    {
      EntryAt(geo, a, live, ns, d, n);
    }
    EntryStep(geo, a, b, live, live', d, ns');
  }

  lemma EntryStepUp(geo: Geometry, a: map<Loc, Bytes>, b: map<Loc, Bytes>, live: map<nat, Inode>,
        live': map<nat, Inode>, d: nat)
    requires geo.Sane() && IsDir(live, d)
    requires (Dirent.DOTDOT in DirEntries(geo, b, live', d) <==> Dirent.DOTDOT in DirEntries(geo, a, live, d))
    requires Dirent.DOTDOT in DirEntries(geo, a, live, d) ==>
             DirEntries(geo, b, live', d)[Dirent.DOTDOT] == DirEntries(geo, a, live, d)[Dirent.DOTDOT]
    ensures var ns := NsOf(geo, a, live); d in ns.up && ns.up[d] == UpOf(geo, b, live', d)
  {
    hide DirEntries, NsOf;
    NsOfIs(geo, a, live, d);
  }

  /** Directory `d` has one name less. */
  lemma NameCut(geo: Geometry, a: map<Loc, Bytes>, b: map<Loc, Bytes>, live: map<nat, Inode>, live': map<nat, Inode>,
        d: nat, name: Dirent.Name)
    requires geo.Sane() && OnlyInode(a, b, live, live', d) && DirsOk(geo, a, live) && IsDir(live, d)
    requires live'[d].kind == Directory && live'[d].links == live[d].links && DirSound(geo, b, live', d)
             && !Dirent.Dotted(name)
    requires DirEntries(geo, b, live', d) == DirEntries(geo, a, live, d) - {name}
    ensures DirsOk(geo, b, live')
    ensures var ns := NsOf(geo, a, live); NsOf(geo, b, live') == ns.(names := ns.names - {(d, name)})
  {
    hide DirEntries, DirSound, NsOf;
    var ns := NsOf(geo, a, live);
    NsOfIs(geo, a, live, d);
    EntryStepUp(geo, a, b, live, live', d);
    var ns' := ns.(names := ns.names - {(d, name)});
    forall n
      ensures EntryIs(geo, b, live', ns', d, n)
    {
      EntryAt(geo, a, live, ns, d, n);
    }
    EntryStep(geo, a, b, live, live', d, ns');
  }

  /** Directory `d` has another parent. */
  lemma UpPut(geo: Geometry, a: map<Loc, Bytes>, b: map<Loc, Bytes>, live: map<nat, Inode>, live': map<nat, Inode>,
        d: nat, x: nat)
    requires geo.Sane() && OnlyInode(a, b, live, live', d) && DirsOk(geo, a, live) && IsDir(live, d)
    requires live'[d].kind == Directory && live'[d].links == live[d].links && DirSound(geo, b, live', d)
    requires DirEntries(geo, b, live', d) == DirEntries(geo, a, live, d)[Dirent.DOTDOT := x]
    ensures DirsOk(geo, b, live')
    ensures var ns := NsOf(geo, a, live); NsOf(geo, b, live') == ns.(up := ns.up[d := x])
  {
    hide DirEntries, DirSound, NsOf;
    var ns := NsOf(geo, a, live);
    NsOfIs(geo, a, live, d);
    var ns' := ns.(up := ns.up[d := x]);
    forall n
      ensures EntryIs(geo, b, live', ns', d, n)
    {
      EntryAt(geo, a, live, ns, d, n);
    }
    EntryStep(geo, a, b, live, live', d, ns');
  }

  /** An inode in use has another link count. */
  lemma LinksPut(geo: Geometry, a: map<Loc, Bytes>, live: map<nat, Inode>, inode: Inode)
    requires geo.Sane() && DirsOk(geo, a, live) && inode.ino in live && live[inode.ino].InUse() && inode.InUse()
    requires inode.kind == live[inode.ino].kind && inode.size == live[inode.ino].size && Visible(geo, inode.ino)
    ensures DirsOk(geo, a, live[inode.ino := inode])
    ensures var ns := NsOf(geo, a, live);
            NsOf(geo, a, live[inode.ino := inode]) == ns.(links := ns.links[inode.ino := inode.links])
  {
    hide DirEntries, DirSound, NsOf, Dirent.Dotted;
    var ns, x, live' := NsOf(geo, a, live), inode.ino, live[inode.ino := inode];
    SameEntries(geo, a, live, live', x);
    DirsKept(geo, a, a, live, live', x);
    NsOfIs(geo, a, live, x);
    var ns' := ns.(links := ns.links[x := inode.links]);
    forall n
      ensures EntryIs(geo, a, live', ns', x, n)
    {
      EntryAt(geo, a, live, ns, x, n);
    }
    NsFollows(geo, a, a, live, live', x, ns');
  }

  /** An inode came into use, as a directory holding nothing but `.` and `..`. */
  lemma DirCame(geo: Geometry, a: map<Loc, Bytes>, b: map<Loc, Bytes>, live: map<nat, Inode>, live': map<nat, Inode>,
        x: nat, up: nat)
    requires geo.Sane() && OnlyInode(a, b, live, live', x) && DirsOk(geo, a, live) && Visible(geo, x)
    requires !live[x].InUse() && IsDir(live', x) && DirSound(geo, b, live', x)
    requires DirEntries(geo, b, live', x) == map[Dirent.DOT := x, Dirent.DOTDOT := up]
    ensures DirsOk(geo, b, live')
    ensures var ns := NsOf(geo, a, live);
            NsOf(geo, b, live') == Ns(ns.kind[x := Directory], ns.links[x := live'[x].links], ns.up[x := up], ns.names)
  {
    hide DirEntries, DirSound, NsOf;
    var ns := NsOf(geo, a, live);
    DirsKept(geo, a, b, live, live', x);
    NsOfIs(geo, a, live, x);
    var ns' := Ns(ns.kind[x := Directory], ns.links[x := live'[x].links], ns.up[x := up], ns.names);
    forall n
      ensures EntryIs(geo, b, live', ns', x, n)
    {
      EntryAt(geo, a, live, ns, x, n);
    }
    NsFollows(geo, a, b, live, live', x, ns');
  }

  /** An inode came into use, not as a directory. */
  lemma FileCame(geo: Geometry, a: map<Loc, Bytes>, live: map<nat, Inode>, inode: Inode)
    requires geo.Sane() && DirsOk(geo, a, live) && inode.ino in live && !live[inode.ino].InUse()
    requires inode.InUse() && inode.kind != Directory && Visible(geo, inode.ino)
    ensures DirsOk(geo, a, live[inode.ino := inode])
    ensures var ns := NsOf(geo, a, live);
            NsOf(geo, a, live[inode.ino := inode]) ==
                ns.(kind := ns.kind[inode.ino := inode.kind], links := ns.links[inode.ino := inode.links])
  {
    hide DirEntries, DirSound, NsOf, Dirent.Dotted;
    var ns, x, live' := NsOf(geo, a, live), inode.ino, live[inode.ino := inode];
    DirsKept(geo, a, a, live, live', x);
    NsOfIs(geo, a, live, x);
    var ns' := ns.(kind := ns.kind[x := inode.kind], links := ns.links[x := inode.links]);
    forall n
      ensures EntryIs(geo, a, live', ns', x, n)
    {
      EntryAt(geo, a, live, ns, x, n);
    }
    NsFollows(geo, a, a, live, live', x, ns');
  }

  /** An inode went out of use: if a directory, one holding nothing but `.` and `..`. */
  lemma InodeWent(geo: Geometry, a: map<Loc, Bytes>, b: map<Loc, Bytes>, live: map<nat, Inode>,
        live': map<nat, Inode>, x: nat)
    requires geo.Sane() && OnlyInode(a, b, live, live', x) && DirsOk(geo, a, live)
    requires !live'[x].InUse() && (IsDir(live, x) ==> forall n :: n in DirEntries(geo, a, live, x) ==> Dirent.Dotted(n))
    ensures DirsOk(geo, b, live')
    ensures var ns := NsOf(geo, a, live);
            NsOf(geo, b, live') == Ns(ns.kind - {x}, ns.links - {x}, ns.up - {x}, ns.names)
  {
    hide DirEntries, DirSound, NsOf, Dirent.Dotted;
    var ns := NsOf(geo, a, live);
    DirsKept(geo, a, b, live, live', x);
    NsOfIs(geo, a, live, x);
    var ns' := Ns(ns.kind - {x}, ns.links - {x}, ns.up - {x}, ns.names);
    forall n
      ensures EntryIs(geo, b, live', ns', x, n)
    {
      EntryAt(geo, a, live, ns, x, n);
    }
    NsFollows(geo, a, b, live, live', x, ns');
  }

  /** The contents, the size or the blocks of what is no directory changed. */
  lemma FileChanged(geo: Geometry, a: map<Loc, Bytes>, b: map<Loc, Bytes>, live: map<nat, Inode>,
        live': map<nat, Inode>, x: nat)
    requires geo.Sane() && OnlyInode(a, b, live, live', x) && DirsOk(geo, a, live) && live[x].InUse()
             && live[x].kind != Directory
    requires live'[x].kind == live[x].kind && live'[x].links == live[x].links
    ensures DirsOk(geo, b, live') && NsOf(geo, b, live') == NsOf(geo, a, live)
  {
    hide DirEntries, DirSound, NsOf, Dirent.Dotted;
    var ns := NsOf(geo, a, live);
    DirsKept(geo, a, b, live, live', x);
    NsOfIs(geo, a, live, x);
    forall n
      ensures EntryIs(geo, b, live', ns, x, n)
    {
      EntryAt(geo, a, live, ns, x, n);
    }
    NsFollows(geo, a, b, live, live', x, ns);
  }
}

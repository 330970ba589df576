/** The directories of a filesystem as a tree of names, and what creating, removing and renaming do
    to it (crates/ext2/src/ops.rs, crates/ext2/src/rename.rs). */
module Namespace {
  import opened Volume
  import opened Sets
  import Dirent

  /** A directory and a name in it. */
  type Place = (nat, Dirent.Name)

  const ROOT: nat := 2

  /** The inodes in use with their kinds and link counts, each directory's `..`, and every entry but
      `.` and `..`. */
  datatype Ns = Ns(kind: map<nat, FileType>, links: map<nat, nat>, up: map<nat, nat>, names: map<Place, nat>)

  // ----- a tree under the root -----

  /** The directory `k` levels of `..` above `d`. */
  ghost function Climb(up: map<nat, nat>, d: nat, k: nat): nat
    decreases k
  {
    if k == 0 || d !in up then d else Climb(up, up[d], k - 1)
  }

  ghost predicate Rooted(up: map<nat, nat>, d: nat) {
    exists k: nat :: Climb(up, d, k) == ROOT
  }

  /** `a` is `d` or above it. */
  ghost predicate Ancestor(up: map<nat, nat>, a: nat, d: nat) {
    exists k: nat :: Climb(up, d, k) == a
  }

  /** `..` leads from every directory to the root. */
  ghost predicate TreeUp(up: map<nat, nat>) {
    && ROOT in up && up[ROOT] == ROOT
    && (forall d :: d in up ==> up[d] in up)
    && (forall d :: d in up ==> Rooted(up, d))
  }

  ghost function Subdirs(up: map<nat, nat>, d: nat): set<nat> {
    set c | c in up && c != ROOT && up[c] == d
  }

  /** The entries naming `x`. */
  ghost function Naming(names: map<Place, nat>, x: nat): set<Place> {
    set k | k in names && names[k] == x
  }

  /** Every entry is in a directory and names an inode in use. */
  ghost predicate EntriesOk(ns: Ns) {
    && ns.links.Keys == ns.kind.Keys
    && (forall d :: d in ns.up <==> d in ns.kind && ns.kind[d] == Directory)
    && (forall k :: k in ns.names ==> k.0 in ns.up && ns.names[k] in ns.kind)
  }

  /** A directory is entered once, in the directory its `..` names; the root nowhere. */
  ghost predicate DirsOnce(up: map<nat, nat>, names: map<Place, nat>) {
    && (forall k :: k in names && names[k] in up ==> names[k] != ROOT && up[names[k]] == k.0)
    && (forall k, m :: k in names && m in names && names[k] == names[m] && names[k] in up ==> k == m)
    && (forall d :: d in up && d != ROOT ==> Naming(names, d) != {})
  }

  /** A directory's links are 2 and one for each subdirectory. */
  ghost predicate DirLinks(links: map<nat, nat>, up: map<nat, nat>) {
    forall d :: d in links && d in up ==> links[d] == 2 + |Subdirs(up, d)|
  }

  /** A file's links are the entries naming it. */
  ghost predicate FileLinks(links: map<nat, nat>, up: map<nat, nat>, names: map<Place, nat>) {
    forall x :: x in links && x !in up ==> links[x] == |Naming(names, x)| > 0
  }

  ghost predicate NsOk(ns: Ns) {
    && EntriesOk(ns) && DirsOnce(ns.up, ns.names) && TreeUp(ns.up)
    && DirLinks(ns.links, ns.up) && FileLinks(ns.links, ns.up, ns.names)
  }

  // ----- climbing -----

  lemma {:induction false} ClimbSame(up: map<nat, nat>, up': map<nat, nat>, d: nat, k: nat)
    requires (forall c :: c in up ==> up[c] in up) && d in up
    requires forall c :: c in up ==> c in up' && up'[c] == up[c]
    ensures Climb(up', d, k) == Climb(up, d, k)
    decreases k
  {
    if k > 0 { ClimbSame(up, up', up[d], k - 1); }
  }

  lemma {:induction false} ClimbMore(up: map<nat, nat>, d: nat, i: nat, j: nat)
    ensures Climb(up, Climb(up, d, i), j) == Climb(up, d, i + j)
    decreases i
  {
    if i > 0 && d in up { ClimbMore(up, up[d], i - 1, j); }
    if d !in up { assert Climb(up, d, j) == d; }
  }

  lemma {:induction false} ClimbIn(up: map<nat, nat>, d: nat, k: nat)
    requires (forall c :: c in up ==> up[c] in up) && d in up
    ensures Climb(up, d, k) in up
    decreases k
  {
    if k > 0 { ClimbIn(up, up[d], k - 1); }
  }

  lemma {:induction false} RootStays(up: map<nat, nat>, k: nat)
    requires ROOT in up && up[ROOT] == ROOT
    ensures Climb(up, ROOT, k) == ROOT
  {
    if k > 0 { RootStays(up, k - 1); }
  }

  lemma RootedUp(up: map<nat, nat>, d: nat)
    requires d in up && Rooted(up, up[d])
    ensures Rooted(up, d)
  {
    var k: nat :| Climb(up, up[d], k) == ROOT;
    assert Climb(up, d, k + 1) == ROOT;
  }

  /** No directory is its own ancestor by way of another. */
  lemma NoCycle(up: map<nat, nat>, d: nat)
    requires TreeUp(up) && d in up && d != ROOT
    ensures !Ancestor(up, d, up[d])
  {
    if Ancestor(up, d, up[d]) {
      var n: nat :| Climb(up, up[d], n) == d;
      var k: nat :| Climb(up, d, k) == ROOT;
      Around(up, d, n + 1, k);
    }
  }

  /** Around a cycle the root is never reached. */
  lemma {:induction false} Around(up: map<nat, nat>, d: nat, n: nat, k: nat)
    requires n > 0 && Climb(up, d, n) == d && d != ROOT && ROOT in up && up[ROOT] == ROOT
    ensures Climb(up, d, k) != ROOT
    decreases k
  {
    if k >= n {
      ClimbMore(up, d, n, k - n);
      Around(up, d, n, k - n);
    } else if Climb(up, d, k) == ROOT {
      ClimbMore(up, d, k, n - k);
      RootStays(up, n - k);
    }
  }

  /** A directory is fewer levels below the root than there are directories. */
  lemma DepthBound(up: map<nat, nat>, d: nat)
    requires TreeUp(up) && d in up
    ensures exists k: nat :: k < |up| && Climb(up, d, k) == ROOT
  {
    var k: nat :| Climb(up, d, k) == ROOT;
    k := FirstRoot(up, d, k);
    var path := seq(k + 1, i requires 0 <= i <= k => Climb(up, d, i));
    forall i, j | 0 <= i < j < |path|
      ensures path[i] != path[j]
    {
      if path[i] == path[j] {
        ClimbMore(up, d, i, k - j);
        ClimbMore(up, d, j, k - j);
      }
    }
    forall i | 0 <= i < |path|
      ensures path[i] in up.Keys
    {
      ClimbIn(up, d, i);
    }
    DistinctWithin(path, up.Keys);
  }

  lemma {:induction false} FirstRoot(up: map<nat, nat>, d: nat, k: nat) returns (first: nat)
    requires Climb(up, d, k) == ROOT
    ensures first <= k && Climb(up, d, first) == ROOT && forall j: nat :: j < first ==> Climb(up, d, j) != ROOT
    decreases k
  {
    if j: nat :| j < k && Climb(up, d, j) == ROOT {
      first := FirstRoot(up, d, j);
    } else {
      first := k;
    }
  }

  lemma {:induction false} DistinctWithin(s: seq<nat>, within: set<nat>)
    requires forall i, j :: 0 <= i < j < |s| ==> s[i] != s[j]
    requires forall i :: 0 <= i < |s| ==> s[i] in within
    ensures |s| <= |within|
  {
    if s != [] {
      var last := s[|s| - 1];
      DistinctWithin(s[..|s| - 1], within - {last});
    }
  }

  // ----- the tree under each change -----

  lemma TreeAdd(up: map<nat, nat>, dir: nat, ino: nat)
    requires TreeUp(up) && dir in up && ino !in up
    ensures TreeUp(up[ino := dir])
  {
    var up' := up[ino := dir];
    forall d | d in up
      ensures Rooted(up', d)
    {
      var k: nat :| Climb(up, d, k) == ROOT;
      ClimbSame(up, up', d, k);
    }
    RootedUp(up', ino);
  }

  lemma TreeDrop(up: map<nat, nat>, x: nat)
    requires TreeUp(up) && x in up && x != ROOT && Subdirs(up, x) == {}
    ensures TreeUp(up - {x})
  {
    var up' := up - {x};
    assert forall c :: c in up && c != ROOT ==> c !in Subdirs(up, x);
    forall d | d in up'
      ensures Rooted(up', d)
    {
      var k: nat :| Climb(up, d, k) == ROOT;
      ClimbSame(up', up, d, k);
    }
  }

  /** Moving a directory under one it is not above leaves a tree. */
  lemma TreeMove(up: map<nat, nat>, x: nat, dir: nat)
    requires TreeUp(up) && x in up && x != ROOT && dir in up && !Ancestor(up, x, dir)
    ensures TreeUp(up[x := dir])
  {
    var up' := up[x := dir];
    var k: nat :| Climb(up, dir, k) == ROOT;
    ClimbAvoids(up, up', x, dir, k);
    RootedUp(up', x);
    forall d | d in up
      ensures Rooted(up', d)
    {
      var k: nat :| Climb(up, d, k) == ROOT;
      RootedMoved(up, up', x, d, k);
    }
  }

  lemma {:induction false} ClimbAvoids(up: map<nat, nat>, up': map<nat, nat>, x: nat, d: nat, k: nat)
    requires d in up && (forall c :: c in up ==> up[c] in up) && !Ancestor(up, x, d)
    requires forall c :: c in up && c != x ==> c in up' && up'[c] == up[c]
    ensures Climb(up', d, k) == Climb(up, d, k)
    decreases k
  {
    assert Climb(up, d, 0) == d;
    if k > 0 {
      if Ancestor(up, x, up[d]) {
        var n: nat :| Climb(up, up[d], n) == x;
        assert Climb(up, d, n + 1) == x;
      }
      ClimbAvoids(up, up', x, up[d], k - 1);
    }
  }

  lemma {:induction false} RootedMoved(up: map<nat, nat>, up': map<nat, nat>, x: nat, d: nat, k: nat)
    requires TreeUp(up) && d in up && Climb(up, d, k) == ROOT && Rooted(up', x)
    requires forall c :: c in up && c != x ==> c in up' && up'[c] == up[c]
    ensures Rooted(up', d)
    decreases k
  {
    if k == 0 {
      assert Climb(up', d, 0) == ROOT;
    } else if d != x {
      RootedMoved(up, up', x, up[d], k - 1);
      RootedUp(up', d);
    }
  }

  // ----- make -----

  ghost function Bump(links: map<nat, nat>, d: nat, delta: int): map<nat, nat> {
    if d in links && links[d] + delta >= 0 then links[d := links[d] + delta] else links
  }

  /** `at` became the new inode `ino`. */
  ghost function Made(ns: Ns, at: Place, ino: nat, dir: bool): Ns {
    if dir then Ns(ns.kind[ino := Directory], Bump(ns.links, at.0, 1)[ino := 2], ns.up[ino := at.0],
        ns.names[at := ino])
    else Ns(ns.kind[ino := Regular], ns.links[ino := 1], ns.up, ns.names[at := ino])
  }

  lemma NamingAdd(names: map<Place, nat>, at: Place, ino: nat, x: nat)
    requires at !in names
    ensures Naming(names[at := ino], x) == if x == ino then Naming(names, x) + {at} else Naming(names, x)
  {
  }

  lemma NamingDrop(names: map<Place, nat>, at: Place, x: nat)
    requires at in names
    ensures Naming(names - {at}, x) == Naming(names, x) - {at}
    ensures at in Naming(names, x) <==> x == names[at]
  {
  }

  lemma OnceAdd(up: map<nat, nat>, names: map<Place, nat>, at: Place, ino: nat)
    requires DirsOnce(up, names) && at !in names && ino != ROOT && forall k :: k in names ==> names[k] != ino
    ensures DirsOnce(up[ino := at.0], names[at := ino])
    ensures ino !in up ==> DirsOnce(up, names[at := ino])
  {
    var names' := names[at := ino];
    forall x | x in up
      ensures Naming(names', x) == if x == ino then Naming(names, x) + {at} else Naming(names, x)
    {
      NamingAdd(names, at, ino, x);
    }
    assert at in Naming(names', ino);
  }

  lemma LinksAdd(links: map<nat, nat>, up: map<nat, nat>, dir: nat, ino: nat)
    requires DirLinks(links, up) && TreeUp(up) && dir in up && dir in links && ino !in up
    ensures DirLinks(Bump(links, dir, 1)[ino := 2], up[ino := dir])
  {
    hide Subdirs, TreeUp;
    SubdirsAdd(up, dir, ino);
  }

  lemma SubdirsAdd(up: map<nat, nat>, dir: nat, ino: nat)
    requires TreeUp(up) && dir in up && ino !in up
    ensures var up' := up[ino := dir];
            && Subdirs(up', ino) == {} && |Subdirs(up', dir)| == |Subdirs(up, dir)| + 1
            && forall d :: d in up && d != dir ==> Subdirs(up', d) == Subdirs(up, d)
  {
    hide Rooted;
    var up' := up[ino := dir];
    assert Subdirs(up', dir) == Subdirs(up, dir) + {ino};
    forall d | d in up && d != dir
      ensures Subdirs(up', d) == Subdirs(up, d)
    {
    }
  }

  /** One more entry, for an inode nothing named. */
  lemma FilesAdd(links: map<nat, nat>, links': map<nat, nat>, up: map<nat, nat>, up': map<nat, nat>,
        names: map<Place, nat>, at: Place, ino: nat)
    requires FileLinks(links, up, names) && at !in names && forall k :: k in names ==> names[k] != ino
    requires forall x :: x in links' && x !in up' && x != ino ==> x in links && x !in up && links'[x] == links[x]
    requires ino in links' && ino !in up' ==> links'[ino] == 1
    ensures FileLinks(links', up', names[at := ino])
  {
    hide Naming;
    forall x | x in links' && x !in up'
      ensures links'[x] == |Naming(names[at := ino], x)| > 0
    {
      NamingAdd(names, at, ino, x);
      if x == ino { NamingNone(names, ino); }
    }
  }

  lemma MadeEntries(ns: Ns, at: Place, ino: nat, dir: bool)
    requires EntriesOk(ns) && at.0 in ns.up && ino !in ns.kind
    ensures EntriesOk(Made(ns, at, ino, dir))
    ensures ino !in ns.up && (forall k :: k in ns.names ==> ns.names[k] != ino) && at.0 in ns.links
  {
  }

  /** Creating a file or a directory keeps the directories a tree and every link count right. */
  lemma MadeOk(ns: Ns, at: Place, ino: nat, dir: bool)
    requires NsOk(ns) && at.0 in ns.up && at !in ns.names && ino !in ns.kind
    ensures NsOk(Made(ns, at, ino, dir))
  {
    hide TreeUp, DirsOnce, DirLinks, FileLinks, EntriesOk;
    var ns' := Made(ns, at, ino, dir);
    MadeEntries(ns, at, ino, dir);
    RootIn(ns.up);
    OnceAdd(ns.up, ns.names, at, ino);
    if dir {
      TreeAdd(ns.up, at.0, ino);
      LinksAdd(ns.links, ns.up, at.0, ino);
    } else {
      LinksApart(ns.links, ns'.links, ns.up);
    }
    FilesAdd(ns.links, ns'.links, ns.up, ns'.up, ns.names, at, ino);
  }

  lemma RootIn(up: map<nat, nat>)
    requires TreeUp(up)
    ensures ROOT in up
  {
  }

  lemma NamingNone(names: map<Place, nat>, x: nat)
    requires forall k :: k in names ==> names[k] != x
    ensures Naming(names, x) == {}
  {
  }

  lemma LinksApart(links: map<nat, nat>, links': map<nat, nat>, up: map<nat, nat>)
    requires DirLinks(links, up) && forall d :: d in up && d in links' ==> d in links && links'[d] == links[d]
    ensures DirLinks(links', up)
  {
  }

  // ----- remove_file, remove_dir -----

  /** The entry `at` of a file went. */
  ghost function Unlinked(ns: Ns, at: Place): Ns
    requires at in ns.names
  {
    var x := ns.names[at];
    if x in ns.links && ns.links[x] <= 1 then Ns(ns.kind - {x}, ns.links - {x}, ns.up, ns.names - {at})
    else Ns(ns.kind, Bump(ns.links, x, -1), ns.up, ns.names - {at})
  }

  /** The entry `at` of an empty directory went, and the directory with it. */
  ghost function DirRemoved(ns: Ns, at: Place): Ns
    requires at in ns.names
  {
    var x := ns.names[at];
    Ns(ns.kind - {x}, Bump(ns.links, at.0, -1) - {x}, ns.up - {x}, ns.names - {at})
  }

  /** Nothing is entered in `d`. */
  ghost predicate Empty(names: map<Place, nat>, d: nat) {
    forall k :: k in names ==> k.0 != d
  }

  lemma OnceDrop(up: map<nat, nat>, names: map<Place, nat>, at: Place)
    requires DirsOnce(up, names) && at in names
    ensures names[at] !in up ==> DirsOnce(up, names - {at})
    ensures DirsOnce(up - {names[at]}, names - {at})
  {
    forall d | d in up
      ensures Naming(names - {at}, d) == Naming(names, d) - {at}
      ensures at in Naming(names, d) <==> d == names[at]
    {
      NamingDrop(names, at, d);
    }
  }

  /** One entry less. */
  lemma FilesDrop(links: map<nat, nat>, links': map<nat, nat>, up: map<nat, nat>, up': map<nat, nat>,
        names: map<Place, nat>, at: Place)
    requires FileLinks(links, up, names) && at in names
    requires forall x :: x in links' && x !in up' ==>
      x in links && x !in up && links'[x] == links[x] - (if x == names[at] then 1 else 0) > 0
    ensures FileLinks(links', up', names - {at})
  {
    hide Naming;
    forall x | x in links' && x !in up'
      ensures links'[x] == |Naming(names - {at}, x)| > 0
    {
      NamingDrop(names, at, x);
    }
  }

  lemma UnlinkedEntries(ns: Ns, at: Place)
    requires EntriesOk(ns) && at in ns.names && ns.names[at] !in ns.up && FileLinks(ns.links, ns.up, ns.names)
    ensures EntriesOk(Unlinked(ns, at))
  {
    hide Naming;
    var x := ns.names[at];
    forall k | k in ns.names && ns.names[k] == x && ns.links[x] <= 1
      ensures k == at
    {
      OnlyOne(ns.names, x, at, k);
    }
  }

  /** Removing a file keeps the directories a tree and every link count right. */
  lemma UnlinkedOk(ns: Ns, at: Place)
    requires NsOk(ns) && at in ns.names && ns.names[at] !in ns.up
    ensures NsOk(Unlinked(ns, at))
  {
    hide TreeUp, DirsOnce, DirLinks, EntriesOk, FileLinks, Naming;
    UnlinkedEntries(ns, at);
    OnceDrop(ns.up, ns.names, at);
    var ns' := Unlinked(ns, at);
    FileIn(ns, at);
    LinksApart(ns.links, ns'.links, ns.up);
    FilesPositive(ns.links, ns.up, ns.names);
    FilesDrop(ns.links, ns'.links, ns.up, ns'.up, ns.names, at);
  }

  lemma FileIn(ns: Ns, at: Place)
    requires EntriesOk(ns) && at in ns.names
    ensures ns.names[at] in ns.links && at.0 in ns.links && at.0 in ns.up
    ensures forall x :: x in ns.up ==> x in ns.links
  {
  }

  lemma OnlyOne(names: map<Place, nat>, x: nat, a: Place, b: Place)
    requires a in names && b in names && names[a] == x == names[b] && |Naming(names, x)| <= 1
    ensures a == b
  {
    if a != b {
      SubsetSize({a, b}, Naming(names, x));
    }
  }

  lemma LinksDrop(links: map<nat, nat>, up: map<nat, nat>, x: nat)
    requires DirLinks(links, up) && x in up && x != ROOT && up[x] in links && up[x] in up && x != up[x]
    ensures links[up[x]] > 2 && DirLinks(Bump(links, up[x], -1) - {x}, up - {x})
  {
    var up', dir := up - {x}, up[x];
    assert Subdirs(up', dir) == Subdirs(up, dir) - {x} && x in Subdirs(up, dir);
    forall d | d in up' && d != dir
      ensures Subdirs(up', d) == Subdirs(up, d)
    {
    }
  }

  /** An empty directory has no subdirectories. */
  lemma NoSubdirs(up: map<nat, nat>, names: map<Place, nat>, x: nat)
    requires DirsOnce(up, names) && Empty(names, x)
    ensures Subdirs(up, x) == {}
  {
    assert forall c :: c in Subdirs(up, x) ==> Naming(names, c) != {};
  }

  lemma DirFacts(ns: Ns, at: Place)
    requires NsOk(ns) && at in ns.names && ns.names[at] in ns.up
    ensures ns.names[at] != ROOT && ns.up[ns.names[at]] == at.0 != ns.names[at]
    ensures !Ancestor(ns.up, ns.names[at], at.0)
    ensures forall k :: k in ns.names && ns.names[k] == ns.names[at] ==> k == at
  {
    NoCycle(ns.up, ns.names[at]);
    assert Climb(ns.up, at.0, 0) == at.0;
  }

  lemma DirRemovedEntries(ns: Ns, at: Place)
    requires EntriesOk(ns) && at in ns.names && ns.names[at] in ns.up && Empty(ns.names, ns.names[at])
    requires at.0 != ns.names[at] && forall k :: k in ns.names && ns.names[k] == ns.names[at] ==> k == at
    ensures EntriesOk(DirRemoved(ns, at))
  {
  }

  /** Removing an empty directory keeps the directories a tree. */
  lemma DirRemovedOk(ns: Ns, at: Place)
    requires NsOk(ns) && at in ns.names && ns.names[at] in ns.up && Empty(ns.names, ns.names[at])
    ensures NsOk(DirRemoved(ns, at))
  {
    hide TreeUp, DirsOnce, DirLinks, FileLinks, EntriesOk, Empty, Ancestor, Subdirs;
    var ns', x := DirRemoved(ns, at), ns.names[at];
    FileIn(ns, at);
    DirFacts(ns, at);
    NoSubdirs(ns.up, ns.names, x);
    TreeDrop(ns.up, x);
    OnceDrop(ns.up, ns.names, at);
    LinksDrop(ns.links, ns.up, x);
    DirRemovedEntries(ns, at);
    FilesDrop(ns.links, ns'.links, ns.up, ns'.up, ns.names, at) by { FilesPositive(ns.links, ns.up, ns.names); }
  }

  lemma FilesPositive(links: map<nat, nat>, up: map<nat, nat>, names: map<Place, nat>)
    requires FileLinks(links, up, names)
    ensures forall x :: x in links && x !in up ==> links[x] > 0
  {
  }

  // ----- move_entry -----

  /** The entry `from` became `to`, where nothing was. */
  ghost function Relocated(ns: Ns, from: Place, to: Place): Ns
    requires from in ns.names
  {
    var x, names := ns.names[from], (ns.names - {from})[to := ns.names[from]];
    if x in ns.up && from.0 != to.0 then Ns(ns.kind, Bump(Bump(ns.links, from.0, -1), to.0, 1), ns.up[x := to.0], names)
    else Ns(ns.kind, ns.links, ns.up, names)
  }

  /** Renaming: whatever `to` named goes, then `from` takes its place. */
  ghost function Renamed(ns: Ns, from: Place, to: Place): Ns
    requires from in ns.names && from != to
  {
    if to !in ns.names then Relocated(ns, from, to)
    else if ns.names[to] in ns.up then Relocated(DirRemoved(ns, to), from, to)
    else Relocated(Unlinked(ns, to), from, to)
  }

  lemma LinksMove(links: map<nat, nat>, up: map<nat, nat>, x: nat, dir: nat)
    requires DirLinks(links, up) && x in up && x != ROOT && up[x] in links && up[x] in up && dir in links
             && dir in up && dir != up[x]
    ensures links[up[x]] > 2 && DirLinks(Bump(Bump(links, up[x], -1), dir, 1), up[x := dir])
  {
    var up', was := up[x := dir], up[x];
    assert Subdirs(up', was) == Subdirs(up, was) - {x} && x in Subdirs(up, was);
    assert Subdirs(up', dir) == Subdirs(up, dir) + {x};
    forall d | d in up && d != dir && d != was
      ensures Subdirs(up', d) == Subdirs(up, d)
    {
    }
  }

  lemma FilesMove(links: map<nat, nat>, links': map<nat, nat>, up: map<nat, nat>, up': map<nat, nat>,
        names: map<Place, nat>, from: Place, to: Place)
    requires FileLinks(links, up, names) && from in names && to !in names
    requires forall x :: x in links' && x !in up' ==> x in links && x !in up && links'[x] == links[x]
    ensures FileLinks(links', up', (names - {from})[to := names[from]])
  {
    hide Naming;
    forall x | x in links' && x !in up'
      ensures links'[x] == |Naming((names - {from})[to := names[from]], x)| > 0
    {
      NamingDrop(names, from, x);
      NamingAdd(names - {from}, to, names[from], x);
      NamingIn(names, to, x);
    }
  }

  lemma RelocatedEntries(ns: Ns, from: Place, to: Place)
    requires EntriesOk(ns) && from in ns.names && to.0 in ns.up
    ensures EntriesOk(Relocated(ns, from, to))
  {
  }

  lemma OnceMove(up: map<nat, nat>, names: map<Place, nat>, from: Place, to: Place)
    requires DirsOnce(up, names) && from in names && to !in names && names[from] in up
    ensures DirsOnce(up[names[from] := to.0], (names - {from})[to := names[from]])
  {
    hide Naming;
    var x := names[from];
    OnceDrop(up, names, from);
    OnceAdd(up - {x}, names - {from}, to, x);
    assert (up - {x})[x := to.0] == up[x := to.0];
  }

  /** Moving an entry to a free place keeps the directories a tree, unless a directory goes below
      itself. */
  lemma RelocatedOk(ns: Ns, from: Place, to: Place)
    requires NsOk(ns) && from in ns.names && to !in ns.names && to.0 in ns.up
    requires ns.names[from] in ns.up ==> !Ancestor(ns.up, ns.names[from], to.0)
    ensures NsOk(Relocated(ns, from, to))
  {
    hide TreeUp, DirsOnce, DirLinks, FileLinks, EntriesOk, Ancestor;
    var ns', x := Relocated(ns, from, to), ns.names[from];
    FileIn(ns, from);
    RelocatedEntries(ns, from, to);
    if x in ns.up {
      DirFacts(ns, from);
      OnceMove(ns.up, ns.names, from, to);
      if from.0 != to.0 {
        TreeMove(ns.up, x, to.0);
        LinksMove(ns.links, ns.up, x, to.0);
      } else {
        assert ns.up[x := to.0] == ns.up;
      }
    } else {
      OnceDrop(ns.up, ns.names, from);
      OnceFile(ns.up, ns.names - {from}, to, x);
    }
    FilesMove(ns.links, ns'.links, ns.up, ns'.up, ns.names, from, to);
  }

  lemma NamingIn(names: map<Place, nat>, at: Place, x: nat)
    ensures at in Naming(names, x) <==> at in names && names[at] == x
  {
  }

  lemma OnceFile(up: map<nat, nat>, names: map<Place, nat>, at: Place, x: nat)
    requires DirsOnce(up, names) && at !in names && x !in up
    ensures DirsOnce(up, names[at := x])
  {
    forall d | d in up
      ensures Naming(names[at := x], d) == Naming(names, d)
    {
      NamingAdd(names, at, x, d);
    }
  }

  /** Rename keeps the directories a tree and every link count right, replaced target or not. */
  lemma RenamedOk(ns: Ns, from: Place, to: Place)
    requires NsOk(ns) && from in ns.names && from != to && to.0 in ns.up
    requires ns.names[from] in ns.up ==> !Ancestor(ns.up, ns.names[from], to.0)
    requires to in ns.names ==>
      && ns.names[to] != ns.names[from] && (ns.names[to] in ns.up <==> ns.names[from] in ns.up)
      && (ns.names[to] in ns.up ==> Empty(ns.names, ns.names[to]))
    ensures NsOk(Renamed(ns, from, to))
  {
    hide NsOk, Ancestor, Relocated;
    if to !in ns.names {
      RelocatedOk(ns, from, to);
    } else if ns.names[to] in ns.up {
      DirRemovedOk(ns, to);
      DirFacts(ns, to);
      StillNoAncestor(ns.up, ns.names[to], ns.names[from], to.0);
      RelocatedOk(DirRemoved(ns, to), from, to);
    } else {
      UnlinkedOk(ns, to);
      RelocatedOk(Unlinked(ns, to), from, to);
    }
  }

  /** Dropping a directory makes nothing an ancestor. */
  lemma StillNoAncestor(up: map<nat, nat>, gone: nat, a: nat, d: nat)
    requires a in up && a != gone && !Ancestor(up, a, d)
    ensures !Ancestor(up - {gone}, a, d)
  {
    if Ancestor(up - {gone}, a, d) {
      var k: nat :| Climb(up - {gone}, d, k) == a;
      ClimbBack(up, gone, d, k);
    }
  }

  lemma {:induction false} ClimbBack(up: map<nat, nat>, gone: nat, d: nat, k: nat)
    requires Climb(up - {gone}, d, k) in up - {gone}
    ensures Climb(up, d, k) == Climb(up - {gone}, d, k)
    decreases k
  {
    if k > 0 && d in up - {gone} { ClimbBack(up, gone, up[d], k - 1); }
  }
}

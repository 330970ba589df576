/** A namespace deeper than rename looks (crates/ext2/src/rename.rs): the directories are a tree, the move
    would keep them one, and still the walk gives up. */
module Deep {
  import opened Wrappers
  import opened Volume
  import Dirent
  import opened Namespace
  import opened Rename
  import opened Run

  const FIRST: nat := 11
  const A: Dirent.Name := [97]
  const B: Dirent.Name := [98]

  /** The directories: the root, `n` in a line below it, and one beside them. */
  predicate Has(n: nat, d: nat) {
    d == ROOT || FIRST <= d <= FIRST + n
  }

  function Parent(n: nat, d: nat): nat {
    if d <= FIRST || d >= FIRST + n then ROOT else d - 1
  }

  /** The directory called `a` in `d`. */
  function Child(d: nat): nat {
    if d == ROOT then FIRST else d + 1
  }

  ghost function Up(n: nat): map<nat, nat> {
    map d: nat | d <= FIRST + n && Has(n, d) :: Parent(n, d)
  }

  ghost function Line(n: nat): map<Place, nat> {
    map d: nat | d < FIRST + n && Has(n, d) && Child(d) < FIRST + n :: (d, A) := Child(d)
  }

  ghost function Chain(n: nat): Ns {
    Ns(
      map d: nat | d <= FIRST + n && Has(n, d) :: Directory,
      map d: nat | d <= FIRST + n && Has(n, d) :: 2 + |Subdirs(Up(n), d)|,
      Up(n),
      Line(n)[(ROOT, B) := FIRST + n])
  }

  lemma {:induction false} ClimbChain(n: nat, d: nat, k: nat)
    requires FIRST <= d < FIRST + n
    ensures Climb(Up(n), d, k) == if k <= d - FIRST then d - k else ROOT
    decreases k
  {
    if k > 0 {
      if d == FIRST {
        RootStays(Up(n), k - 1);
      } else {
        ClimbChain(n, d - 1, k - 1);
      }
    }
  }

  lemma ChainUp(n: nat)
    requires n > 0
    ensures TreeUp(Up(n))
  {
    forall d | d in Up(n) ensures Rooted(Up(n), d) {
      if d == ROOT {
        assert Climb(Up(n), d, 0) == ROOT;
      } else if d == FIRST + n {
        assert Climb(Up(n), d, 1) == Climb(Up(n), ROOT, 0) == ROOT;
      } else {
        ClimbChain(n, d, d - FIRST + 1);
      }
    }
  }

  lemma ChainNames(n: nat)
    requires n > 0
    ensures var ns := Chain(n);
            forall k :: k in ns.names <==> (k.1 == A && Has(n, k.0) && Child(k.0) < FIRST + n) || k == (ROOT, B)
    ensures var ns := Chain(n);
            forall k :: k in ns.names ==> ns.names[k] == if k == (ROOT, B) then FIRST + n else Child(k.0)
  {
    forall k: Place | k.1 == A && Has(n, k.0) && Child(k.0) < FIRST + n
      ensures k in Line(n)
    {
      assert k == (k.0, A);
    }
  }

  lemma ChainInjective(n: nat, k: Place, m: Place)
    requires n > 0 && k in Chain(n).names && m in Chain(n).names && Chain(n).names[k] == Chain(n).names[m]
    ensures k == m
  {
    hide Chain;
    ChainNames(n);
    assert k == (k.0, k.1) && m == (m.0, m.1);
  }

  lemma ChainNamed(n: nat, d: nat)
    requires n > 0 && Has(n, d) && d != ROOT
    ensures Naming(Chain(n).names, d) != {}
  {
    hide Chain;
    ChainNames(n);
    var k := if d == FIRST + n then (ROOT, B) else (Parent(n, d), A);
    assert k in Naming(Chain(n).names, d);
  }

  lemma ChainOnce(n: nat)
    requires n > 0
    ensures DirsOnce(Up(n), Chain(n).names)
  {
    hide Chain, Naming;
    var names := Chain(n).names;
    ChainNames(n);
    forall d | d in Up(n) && d != ROOT ensures Naming(names, d) != {} {
      ChainNamed(n, d);
    }
    forall k, m | k in names && m in names && names[k] == names[m] ensures k == m {
      ChainInjective(n, k, m);
    }
  }

  lemma ChainEntries(n: nat)
    requires n > 0
    ensures EntriesOk(Chain(n))
  {
    hide Line, Subdirs;
    ChainNames(n);
  }

  lemma ChainLinks(n: nat)
    ensures DirLinks(Chain(n).links, Up(n)) && FileLinks(Chain(n).links, Up(n), Chain(n).names)
  {
    hide Subdirs, Line, Naming;
  }

  lemma ChainOk(n: nat)
    requires n > 0
    ensures NsOk(Chain(n))
  {
    hide EntriesOk, DirsOnce, TreeUp, DirLinks, FileLinks, Subdirs, Line, Up;
    ChainLinks(n);
    ChainUp(n);
    ChainOnce(n);
    ChainEntries(n);
  }

  /** Neither the directory beside the line nor the root is within `limit` levels above its end. */
  lemma DeepEnd(n: nat, limit: nat)
    requires n > limit + 1
    ensures !Ancestor(Up(n), FIRST + n, FIRST + n - 1) && TooDeep(Up(n), FIRST + n, FIRST + n - 1, limit)
  {
    hide Climb, Up;
    var up, last := Up(n), FIRST + n - 1;
    forall k: nat
      ensures Climb(up, last, k) != FIRST + n && (k <= limit ==> Climb(up, last, k) != ROOT)
    {
      ClimbChain(n, last, k);
    }
  }

  /** Moving the directory beside the line below its end would keep the tree, but the end is deeper than
      the walk goes: it answers `EIO`. */
  lemma DeepMove(n: nat, limit: nat)
    requires n > limit + 1
    ensures var ns, from, to := Chain(n), (ROOT, B), (FIRST + n - 1, A);
            && NsOk(ns) && MayMove(ns, from, to) && ns.names[from] in ns.up
            && TooDeep(ns.up, ns.names[from], to.0, limit) && MoveError(ns, from, to, limit) == Some(EIO)
  {
    hide NsOk, Ancestor, TooDeep, Line, Subdirs;
    ChainOk(n);
    ChainNames(n);
    DeepEnd(n, limit);
  }

  /** So it is for the bound the driver has. */
  lemma TooDeepForRename()
    ensures exists ns, from, to :: NsOk(ns) && MayMove(ns, from, to) && MoveError(ns, from, to, MAX_DEPTH) == Some(EIO)
  {
    DeepMove(MAX_DEPTH + 2, MAX_DEPTH);
  }
}

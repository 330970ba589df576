/** The block map's index arithmetic (crates/ext2/src/inode.rs): where a logical block of a
    file sits below the twelve direct and three indirect pointers of its inode. */
module BlockPath {
  import opened Wrappers
  import opened Arith

  const N_DIRECT: nat := 12
  const N_SLOTS: nat := 15

  // ----- places in the pointer trees -----

  /** A place for a block pointer: an entry of `i_block`, or an entry of the indirect block at
      another place. */
  datatype Loc =
    | Root(ino: nat, slot: nat)
    | Sub(up: Loc, i: nat)
  {
    function Ino(): nat {
      match this case Root(ino, _) => ino case Sub(up, _) => up.Ino()
    }

    function Slot(): nat {
      match this case Root(_, slot) => slot case Sub(up, _) => up.Slot()
    }

    function Level(): nat {
      match this case Root(_, _) => 0 case Sub(up, _) => 1 + up.Level()
    }

    /** Levels of indirect blocks from here down to the data; negative below the data. */
    function Rest(): int {
      Depth(Slot()) - Level()
    }

    /** A real place, with `p` pointers per indirect block. */
    predicate Valid(p: nat) {
      match this
      case Root(_, slot) => slot < N_SLOTS
      case Sub(up, i) => up.Valid(p) && i < p && up.Rest() > 0
    }

    /** The place of a data block. */
    predicate Leaf() {
      Rest() == 0
    }

    /** The first logical block found through this place. */
    function Base(p: nat): nat
      requires Valid(p)
    {
      match this
      case Root(_, slot) => SlotBase(slot, p)
      case Sub(up, i) => up.Base(p) + i * Pow(p, Rest())
    }

    /** The first logical block after those found through this place. */
    function End(p: nat): nat
      requires Valid(p)
    {
      Base(p) + Pow(p, Rest())
    }

    /** This place is `top` or lies in the tree under it. */
    predicate Under(top: Loc) {
      this == top || (this.Sub? && up.Under(top))
    }
  }

  /** Indirect blocks between entry `slot` of `i_block` and the data. */
  function Depth(slot: nat): nat {
    if slot < N_DIRECT then 0 else slot + 1 - N_DIRECT
  }

  function Pow(p: nat, k: int): (r: nat)
    decreases if k > 0 then k else 0
  {
    if k <= 0 then 1 else p * Pow(p, k - 1)
  }

  /** The first logical block reached through entry `slot` of `i_block`. */
  function SlotBase(slot: nat, p: nat): nat
    decreases slot
  {
    if slot <= N_DIRECT then slot else SlotBase(slot - 1, p) + Pow(p, Depth(slot - 1))
  }

  /** One past the last logical block the block map reaches: 12 + p + p^2 + p^3. */
  function Reach(p: nat): nat {
    SlotBase(N_SLOTS, p)
  }

  lemma {:induction false} RestBounds(l: Loc, p: nat)
    requires l.Valid(p)
    ensures 0 <= l.Rest() <= Depth(l.Slot()) && l.Slot() < N_SLOTS
  {
    if l.Sub? { RestBounds(l.up, p); }
  }

  /** The blocks under entry `i` are the `i`-th of `p` equal parts of those under its block. */
  lemma PartOf(up: Loc, i: nat, p: nat)
    requires Sub(up, i).Valid(p)
    ensures Sub(up, i).Base(p) == up.Base(p) + i * Pow(p, up.Rest() - 1)
    ensures Sub(up, i).End(p) == up.Base(p) + (i + 1) * Pow(p, up.Rest() - 1)
    ensures up.End(p) == up.Base(p) + p * Pow(p, up.Rest() - 1)
    ensures up.Base(p) <= Sub(up, i).Base(p) && Sub(up, i).End(p) <= up.End(p)
  {
    hide Pow;
    PowStep(p, up.Rest());
    Parts(i, p, Pow(p, up.Rest() - 1));
  }

  lemma PowStep(p: nat, k: int)
    requires k > 0
    ensures Pow(p, k) == p * Pow(p, k - 1)
  {
  }

  lemma Parts(i: nat, p: nat, q: nat)
    requires i < p
    ensures 0 <= i * q && (i + 1) * q == i * q + q && (i + 1) * q <= p * q
  {
    MulLe(i + 1, p, q);
  }

  lemma {:induction false} PowPositive(p: nat, k: int)
    requires p > 0
    ensures Pow(p, k) > 0
    decreases if k > 0 then k else 0
  {
    if k > 0 { PowPositive(p, k - 1); }
  }

  // ----- logical blocks and leaves -----

  /** The data place `r` logical blocks into the tree at `top`. */
  function Descend(top: Loc, r: nat, p: nat): Loc
    requires p > 0
    decreases if top.Rest() > 0 then top.Rest() else 0
  {
    if top.Rest() <= 0 then top
    else
      PowPositive(p, top.Rest() - 1);
      var q := Pow(p, top.Rest() - 1);
      Descend(Sub(top, r / q), r % q, p)
  }

  lemma {:induction false} DescendReaches(top: Loc, r: nat, p: nat)
    requires p > 0 && top.Valid(p) && r < Pow(p, top.Rest())
    ensures var l := Descend(top, r, p);
            l.Valid(p) && l.Leaf() && l.Under(top) && l.Ino() == top.Ino() && l.Base(p) == top.Base(p) + r
    decreases if top.Rest() > 0 then top.Rest() else 0
  {
    hide Pow, Loc.Base;
    RestBounds(top, p);
    if top.Rest() > 0 {
      var q := Pow(p, top.Rest() - 1);
      PowPositive(p, top.Rest() - 1);
      PowStep(p, top.Rest());
      DivLt(r, p, q);
      DivModId(r, q);
      var child := Sub(top, r / q);
      PartOf(top, r / q, p);
      DescendReaches(child, r % q, p);
      UnderTrans(Descend(top, r, p), child, top);
    } else {
      PowZero(p);
    }
  }

  lemma {:induction false} UnderTrans(a: Loc, b: Loc, c: Loc)
    requires a.Under(b) && b.Under(c)
    ensures a.Under(c)
  {
    if a != b { UnderTrans(a.up, b, c); }
  }

  /** Descending from `top` passes through every place whose range holds the target. */
  lemma {:induction false} DescendThrough(top: Loc, m: Loc, r: nat, p: nat)
    requires p > 0 && top.Valid(p) && m.Valid(p) && m.Under(top)
    requires m.Base(p) <= top.Base(p) + r < m.End(p)
    ensures Descend(top, r, p) == Descend(m, top.Base(p) + r - m.Base(p), p)
  {
    if m != top {
      var q := Pow(p, m.up.Rest() - 1);
      PowPositive(p, m.up.Rest() - 1);
      PartOf(m.up, m.i, p);
      DescendThrough(top, m.up, r, p);
      var x := top.Base(p) + r - m.up.Base(p);
      DivUnique(x, q, m.i);
    }
  }

  /** The entry of `i_block` leading to logical block `lb`. */
  function SlotFor(lb: nat, p: nat): (slot: nat)
    requires lb < Reach(p)
    ensures slot < N_SLOTS && SlotBase(slot, p) <= lb < SlotBase(slot + 1, p)
  {
    if lb < 12 then lb
    else if lb < SlotBase(13, p) then 12
    else if lb < SlotBase(14, p) then 13
    else 14
  }

  /** The place of logical block `lb` of inode `ino`. */
  function LeafFor(ino: nat, lb: nat, p: nat): (l: Loc)
    requires p > 0 && lb < Reach(p)
    ensures l.Valid(p) && l.Leaf() && l.Ino() == ino && l.Base(p) == lb
  {
    var slot := SlotFor(lb, p);
    DescendReaches(Root(ino, slot), lb - SlotBase(slot, p), p);
    Descend(Root(ino, slot), lb - SlotBase(slot, p), p)
  }

  lemma {:induction false} UnderRoot(l: Loc, p: nat)
    requires l.Valid(p)
    ensures l.Under(Root(l.Ino(), l.Slot()))
    ensures SlotBase(l.Slot(), p) <= l.Base(p) && l.End(p) <= SlotBase(l.Slot() + 1, p)
  {
    if l.Sub? {
      UnderRoot(l.up, p);
      PartOf(l.up, l.i, p);
    }
  }

  lemma {:induction false} SlotBaseMono(a: nat, b: nat, p: nat)
    requires a <= b
    ensures SlotBase(a, p) <= SlotBase(b, p)
  {
    if a < b { SlotBaseMono(a, b - 1, p); }
  }

  /** A data place is the place of its logical block: with `LeafFor`'s contract, the logical
      blocks below `Reach(p)` and the data places of an inode correspond one to one. */
  lemma LeafIsFor(l: Loc, p: nat)
    requires p > 0 && l.Valid(p) && l.Leaf()
    ensures l.Base(p) < Reach(p) && LeafFor(l.Ino(), l.Base(p), p) == l
  {
    UnderRoot(l, p);
    RestBounds(l, p);
    SlotBaseMono(l.Slot() + 1, N_SLOTS, p);
    var slot := SlotFor(l.Base(p), p);
    if slot < l.Slot() { SlotBaseMono(slot + 1, l.Slot(), p); }
    if slot > l.Slot() { SlotBaseMono(l.Slot() + 1, slot, p); }
    DescendThrough(Root(l.Ino(), slot), l, l.Base(p) - SlotBase(slot, p), p);
  }

  // ----- map_path -----

  /** `index[0]` is the entry of `i_block`, then one index per level of indirection. */
  datatype MapPath = MapPath(depth: nat, index: seq<nat>)

  /** The place `level` steps down a path. */
  function PathLoc(ino: nat, path: MapPath, level: nat): Loc
    requires level < |path.index|
  {
    if level == 0 then Root(ino, path.index[0])
    else Sub(PathLoc(ino, path, level - 1), path.index[level])
  }

  /** Digit `k` of `rest` to the base `p`. */
  function Digit(rest: nat, p: nat, k: int): (d: nat)
    requires p > 0
  {
    PowPositive(p, k);
    rest / Pow(p, k) % p
  }

  lemma DescendStep(top: Loc, rest: nat, k: nat, p: nat)
    requires p > 0 && k > 0 && top.Rest() == k
    ensures Pow(p, k) > 0 && Pow(p, k - 1) > 0
    ensures Descend(top, rest % Pow(p, k), p)
         == Descend(Sub(top, Digit(rest, p, k - 1)), rest % Pow(p, k - 1), p)
  {
    PowPositive(p, k - 1);
    ModDiv(rest, p, Pow(p, k - 1));
  }

  lemma {:induction false} PathDescends(ino: nat, path: MapPath, rest: nat, level: nat, p: nat)
    requires p > 0 && |path.index| == 4 && path.depth <= 3 && level <= path.depth
    requires path.index[0] < N_SLOTS && Depth(path.index[0]) == path.depth
    requires rest < Pow(p, path.depth)
    requires forall k :: 1 <= k <= level ==> path.index[k] == Digit(rest, p, path.depth - k)
    ensures PathLoc(ino, path, level).Level() == level && PathLoc(ino, path, level).Slot() == path.index[0]
    ensures Pow(p, path.depth - level) > 0
    ensures Descend(Root(ino, path.index[0]), rest, p)
         == Descend(PathLoc(ino, path, level), rest % Pow(p, path.depth - level), p)
  {
    hide Pow, Digit, Descend;
    PowPositive(p, path.depth);
    if level == 0 {
      SmallMod(rest, Pow(p, path.depth));
    } else {
      PathDescends(ino, path, rest, level - 1, p);
      DescendStep(PathLoc(ino, path, level - 1), rest, path.depth - level + 1, p);
    }
  }

  /** The slot whose range holds `lb` is the one `SlotFor` finds. */
  lemma SlotIs(lb: nat, slot: nat, p: nat)
    requires slot < N_SLOTS && SlotBase(slot, p) <= lb < SlotBase(slot + 1, p)
    ensures lb < Reach(p) && SlotFor(lb, p) == slot
  {
    hide SlotBase;
    SlotBaseMono(slot + 1, N_SLOTS, p);
    var found := SlotFor(lb, p);
    if found < slot { SlotBaseMono(found + 1, slot, p); }
    if found > slot { SlotBaseMono(slot + 1, found, p); }
  }

  /** A path with the digits of `rest` leads to the leaf. */
  lemma PathIsLeaf(ino: nat, path: MapPath, rest: nat, lb: nat, p: nat)
    requires p > 0 && |path.index| == 4 && 1 <= path.depth <= 3 && path.index[0] == N_DIRECT + path.depth - 1
    requires rest < Pow(p, path.depth) && lb == SlotBase(path.index[0], p) + rest
    requires forall k :: 1 <= k <= path.depth ==> path.index[k] == Digit(rest, p, path.depth - k)
    ensures lb < Reach(p) && PathLoc(ino, path, path.depth) == LeafFor(ino, lb, p)
  {
    hide Pow, Digit, Descend;
    assert SlotBase(path.index[0] + 1, p) == SlotBase(path.index[0], p) + Pow(p, path.depth);
    SlotIs(lb, path.index[0], p);
    PathDescends(ino, path, rest, path.depth, p);
    DescendLeaf(PathLoc(ino, path, path.depth), rest % Pow(p, 0), p) by { PowZero(p); }
  }

  lemma DescendLeaf(l: Loc, r: nat, p: nat)
    requires p > 0 && l.Leaf()
    ensures Descend(l, r, p) == l
  {
  }

  /** The indices of the levels of a path: the digits of `rest` to the base `p`. */
  method PathIndices(depth: nat, rest: nat, p: nat) returns (index: seq<nat>)
    requires p > 0 && 1 <= depth <= 3
    ensures |index| == 4 && index[0] == N_DIRECT + depth - 1
    ensures forall k :: 1 <= k <= depth ==> index[k] == Digit(rest, p, depth - k)
    ensures forall k :: depth < k < 4 ==> index[k] == 0
  {
    hide Digit;
    index := [N_DIRECT + depth - 1, 0, 0, 0];
    for level := 1 to depth + 1
      invariant |index| == 4 && index[0] == N_DIRECT + depth - 1
      invariant forall k :: 1 <= k < level ==> index[k] == Digit(rest, p, depth - k)
      invariant forall k :: level <= k < 4 ==> index[k] == 0
    {
      index := index[level := Digit(rest, p, depth - level)];
    }
  }

  /** `map_path`: the path to logical block `lb`, `None` past the triple indirect range. */
  method FindPath(lb: nat, p: nat) returns (r: Option<MapPath>)
    requires p > 0
    ensures r.Some? <==> lb < Reach(p)
    ensures r.Some? ==> |r.value.index| == 4 && r.value.depth <= 3
    ensures r.Some? ==> forall k :: r.value.depth < k < 4 ==> r.value.index[k] == 0
    ensures r.Some? ==> forall ino: nat :: PathLoc(ino, r.value, r.value.depth) == LeafFor(ino, lb, p)
  {
    hide Pow, Digit;
    var rest := lb;
    if rest < N_DIRECT {
      SlotIs(lb, lb, p);
      return Some(MapPath(0, [rest, 0, 0, 0]));
    }
    rest := rest - N_DIRECT;
    var span := 1;
    PowZero(p);
    for depth := 1 to 4
      invariant span == Pow(p, depth - 1) && rest >= 0
      invariant lb == SlotBase(N_DIRECT + depth - 1, p) + rest
    {
      PowStep(p, depth);
      span := p * span;
      if rest < span {
        var index := PathIndices(depth, rest, p);
        var path := MapPath(depth, index);
        forall ino: nat
          ensures lb < Reach(p) && PathLoc(ino, path, depth) == LeafFor(ino, lb, p)
        {
          PathIsLeaf(ino, path, rest, lb, p);
        }
        return Some(path);
      }
      rest := rest - span;
    }
    return None;
  }

  lemma PowZero(p: nat)
    ensures Pow(p, 0) == 1
  {
  }
}

/** The largest file (crates/ext2/src/inode.rs, `max_file_size`): what the block map reaches,
    limited so that `i_blocks`, counting data and indirect blocks in 512-byte units, fits in
    32 bits. */
module FileLimit {
  import opened Arith
  import opened Le
  import opened BlockPath
  import Sets

  predicate BlockSize(bs: nat) {
    bs == 1024 || bs == 2048 || bs == 4096
  }

  function CeilDiv(a: int, b: nat): int
    requires b > 0
  {
    (a + b - 1) / b
  }

  /** The most blocks a file may have. */
  function MaxBlocks(bs: nat): int
    requires BlockSize(bs)
  {
    var p := bs / 4;
    var limit := U32_MAX / (bs / 512);
    var mapped := N_DIRECT + p + p * p + p * p * p;
    var meta := 1 + (1 + p) + (1 + p + p * p);
    if mapped + meta <= limit then mapped
    else
      // The indirect blocks a file of `limit` blocks needs.
      var rest := limit - N_DIRECT - p;
      var meta :=
        if rest < p * p then 1 + 1 + CeilDiv(rest, p)
        else 1 + (1 + p) + (1 + CeilDiv(rest - p * p, p) + CeilDiv(rest - p * p, p * p));
      limit - meta
  }

  function MaxFileSize(bs: nat): int
    requires BlockSize(bs)
  {
    MaxBlocks(bs) * bs
  }

  lemma MaxBlocksAre()
    ensures MaxBlocks(1024) == 16_843_020 && MaxBlocks(2048) == 134_480_396 && MaxBlocks(4096) == 536_346_110
  {
  }

  lemma ReachIs(p: nat)
    ensures SlotBase(12, p) == 12 && SlotBase(13, p) == 12 + p
    ensures SlotBase(14, p) == 12 + p + p * p && Reach(p) == 12 + p + p * p + p * (p * p)
    ensures Pow(p, 1) == p && Pow(p, 2) == p * p && Pow(p, 3) == p * (p * p)
  {
    assert Pow(p, 0) == 1;
  }

  /** The limit never passes the block map's reach. */
  lemma LimitReached(bs: nat)
    requires BlockSize(bs)
    ensures MaxBlocks(bs) <= Reach(bs / 4)
  {
    ReachIs(bs / 4);
    MaxBlocksAre();
  }

  // ----- numbering the places of a level -----

  /** The number of a place among those of its slot and level. */
  function Index(l: Loc, p: nat): nat {
    match l
    case Root(_, _) => 0
    case Sub(up, i) => Times(Index(up, p), p) + i
  }

  lemma {:induction false} IndexBase(l: Loc, p: nat)
    requires l.Valid(p)
    ensures l.Base(p) == SlotBase(l.Slot(), p) + Index(l, p) * Pow(p, l.Rest())
  {
    if l.Sub? {
      IndexBase(l.up, p);
      PartOf(l.up, l.i, p);
      var q := Pow(p, l.Rest());
      assert Pow(p, l.up.Rest()) == p * q;
      TimesIs(Index(l.up, p), p);
      MulAssoc(Index(l.up, p), p, q, l.i);
    }
  }

  lemma {:induction false} IndexOneToOne(a: Loc, b: Loc, p: nat)
    requires a.Valid(p) && b.Valid(p) && a.Ino() == b.Ino() && a.Slot() == b.Slot() && a.Level() == b.Level()
    requires Index(a, p) == Index(b, p)
    ensures a == b
  {
    if a.Sub? {
      QuotOf(Index(a.up, p), p, a.i);
      QuotOf(Index(b.up, p), p, b.i);
      IndexOneToOne(a.up, b.up, p);
    }
  }

  /** The places of `s` at a level of indirection under one entry of `i_block`. */
  function Part(s: set<Loc>, slot: nat, rest: int): set<Loc> {
    set l | l in s && l.Slot() == slot && l.Rest() == rest
  }

  /** The places of one inode that a file of `n` blocks may use. */
  ghost predicate PlacesWithin(s: set<Loc>, ino: nat, p: nat, n: nat) {
    forall l :: l in s ==> l.Valid(p) && l.Ino() == ino && l.Base(p) < n
  }

  lemma PartSize(s: set<Loc>, ino: nat, p: nat, n: nat, slot: nat, rest: nat)
    requires p > 0 && PlacesWithin(s, ino, p, n) && SlotBase(slot, p) <= n
    ensures Pow(p, rest) > 0
    ensures |Part(s, slot, rest)| <= CeilDiv(n - SlotBase(slot, p), Pow(p, rest))
  {
    hide Pow, Index, CeilDiv, Loc.Base;
    PowPositive(p, rest);
    var part, q, m := Part(s, slot, rest), Pow(p, rest), n - SlotBase(slot, p);
    var number := map l | l in part :: Index(l, p);
    forall l | l in part
      ensures Index(l, p) < CeilDiv(m, q)
    {
      IndexBelow(l, p, n);
    }
    forall a, b | a in part && b in part && number[a] == number[b]
      ensures a == b
    {
      IndexOneToOne(a, b, p);
    }
    CeilPositive(m, q);
    Sets.Numbered(part, number, CeilDiv(m, q));
  }

  lemma IndexBelow(l: Loc, p: nat, n: nat)
    requires p > 0 && l.Valid(p) && l.Base(p) < n && SlotBase(l.Slot(), p) <= n
    ensures Pow(p, l.Rest()) > 0 && Index(l, p) < CeilDiv(n - SlotBase(l.Slot(), p), Pow(p, l.Rest()))
  {
    hide Pow, Index, CeilDiv, Loc.Base;
    PowPositive(p, l.Rest());
    IndexBase(l, p);
    BelowCeil(Index(l, p), Pow(p, l.Rest()), n - SlotBase(l.Slot(), p));
  }

  lemma CeilPositive(m: nat, q: nat)
    requires q > 0
    ensures CeilDiv(m, q) >= 0
  {
  }

  lemma BelowCeil(k: nat, q: nat, m: nat)
    requires q > 0 && k * q < m
    ensures k < CeilDiv(m, q)
  {
    DivModId(m + q - 1, q);
    if CeilDiv(m, q) <= k { MulLe(CeilDiv(m, q), k, q); }
  }

  lemma TopPart(s: set<Loc>, ino: nat, p: nat, n: nat, slot: nat)
    requires PlacesWithin(s, ino, p, n) && slot < N_SLOTS
    ensures |Part(s, slot, Depth(slot))| <= 1
  {
    var part := Part(s, slot, Depth(slot));
    forall l | l in part
      ensures l == Root(ino, slot)
    {
      assert l.Level() == 0;
    }
    assert part <= {Root(ino, slot)};
    Sets.SubsetSize(part, {Root(ino, slot)});
  }

  lemma SecondPart(s: set<Loc>, ino: nat, p: nat, n: nat, slot: nat)
    requires PlacesWithin(s, ino, p, n) && slot < N_SLOTS
    ensures |Part(s, slot, Depth(slot) - 1)| <= p
  {
    var part := Part(s, slot, Depth(slot) - 1);
    var number := map l | l in part :: Index(l, p);
    forall l | l in part
      ensures l.Level() == 1 && Index(l, p) < p
    {
      assert l.Level() == 1;
    }
    forall a, b | a in part && b in part && number[a] == number[b]
      ensures a == b
    {
      IndexOneToOne(a, b, p);
    }
    Sets.Numbered(part, number, p);
  }

  lemma LeafPart(s: set<Loc>, ino: nat, p: nat, n: nat)
    requires p > 0 && PlacesWithin(s, ino, p, n)
    ensures |set l | l in s && l.Leaf()| <= n
  {
    var part := set l | l in s && l.Leaf();
    var number := map l | l in part && l.Valid(p) :: l.Base(p);
    forall a, b | a in part && b in part && number[a] == number[b]
      ensures a == b
    {
      LeafIsFor(a, p);
      LeafIsFor(b, p);
    }
    Sets.Numbered(part, number, n);
  }

  /** Every place is a leaf, the top of a tree, or on one of the three levels between. */
  lemma Levels(s: set<Loc>, ino: nat, p: nat, n: nat)
    requires PlacesWithin(s, ino, p, n)
    ensures s <= (set l | l in s && l.Leaf()) + Part(s, 12, 1) + Part(s, 13, 2) + Part(s, 14, 3)
               + Part(s, 13, 1) + Part(s, 14, 1) + Part(s, 14, 2)
  {
    forall l | l in s
      ensures l.Leaf() || (l.Slot() == 12 && l.Rest() == 1) || (l.Slot() == 13 && 1 <= l.Rest() <= 2)
              || (l.Slot() == 14 && 1 <= l.Rest() <= 3)
    {
      RestBounds(l, p);
    }
  }

  /** Data and indirect blocks together, counted level by level. */
  lemma CountPlaces(s: set<Loc>, ino: nat, p: nat, n: nat)
    requires p > 0 && PlacesWithin(s, ino, p, n) && SlotBase(14, p) <= n
    ensures p * p > 0
    ensures |s| <= n + 3 + p + CeilDiv(n - SlotBase(14, p), p) + CeilDiv(n - SlotBase(14, p), p * p)
  {
    hide Part, PlacesWithin, CeilDiv, SlotBase;
    ReachIs(p);
    LeafPart(s, ino, p, n);
    TopPart(s, ino, p, n, 12);
    TopPart(s, ino, p, n, 13);
    TopPart(s, ino, p, n, 14);
    SecondPart(s, ino, p, n, 13);
    PartSize(s, ino, p, n, 14, 1);
    PartSize(s, ino, p, n, 14, 2);
    Levels(s, ino, p, n);
    Sets.SevenSets(s, (set l | l in s && l.Leaf()), Part(s, 12, 1), Part(s, 13, 2), Part(s, 14, 3),
                   Part(s, 13, 1), Part(s, 14, 1), Part(s, 14, 2));
  }

  /** A file within the limit, dense or sparse, never needs more than 32 bits of `i_blocks`. */
  lemma BlocksFit(s: set<Loc>, ino: nat, bs: nat)
    requires BlockSize(bs) && PlacesWithin(s, ino, bs / 4, MaxBlocks(bs))
    ensures |s| * (bs / 512) <= U32_MAX
  {
    MaxBlocksAre();
    ReachIs(bs / 4);
    CountPlaces(s, ino, bs / 4, MaxBlocks(bs));
    if bs == 1024 {
      assert |s| <= 16_843_020 + 3 + 256 + CeilDiv(16_843_020 - 65_804, 256) + CeilDiv(16_843_020 - 65_804, 65_536);
    } else if bs == 2048 {
      assert |s| <= 134_480_396 + 3 + 512
                    + CeilDiv(134_480_396 - 262_668, 512) + CeilDiv(134_480_396 - 262_668, 262_144);
    } else {
      assert |s| <= 536_346_110 + 3 + 1_024
                    + CeilDiv(536_346_110 - 1_049_612, 1_024) + CeilDiv(536_346_110 - 1_049_612, 1_048_576);
    }
  }
}

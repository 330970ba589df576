/** Where the blocks of a file lie: what is appended lies in a row while there is room for it
    (crates/ext2/src/file.rs). */
module Layout {
  import opened Wrappers
  import opened Sets
  import opened BlockPath
  import opened Volume
  import opened Allocator
  import opened Trees
  import opened BlockMap

  /** The `n` blocks from `first` on. */
  function Span(first: nat, n: nat): (s: set<nat>)
    ensures forall b: nat :: b in s <==> first <= b < first + n
  {
    Below(first + n) - Below(first)
  }

  /** They are all in the volume, and neither metadata nor in a tree. */
  ghost predicate RunFree(geo: Geometry, tree: map<Loc, nat>, first: nat, n: nat)
    requires geo.Wf()
  {
    forall b :: b in Span(first, n) ==>
      geo.firstDataBlock <= b < geo.blocksCount && b !in MetaBlocks(geo) + tree.Values
  }

  /** A part of such blocks is one. */
  lemma RunPart(geo: Geometry, tree: map<Loc, nat>, first: nat, n: nat, m: nat)
    requires geo.Wf() && RunFree(geo, tree, first, n) && m <= n
    ensures RunFree(geo, tree, first, m)
  {
    hide Span;
    assert forall b :: b in Span(first, m) ==> b in Span(first, n);
  }

  /** The goal is free, so it is taken. */
  lemma TakesGoal(geo: Geometry, used: set<nat>, goal: nat, b: nat)
    requires geo.Wf() && Closest(geo, used, Aim(geo, goal), b)
    requires geo.firstDataBlock <= goal < geo.blocksCount && goal !in used
    ensures b == goal
  {
    hide Closest;
    ClosestIsAim(geo, used, goal, b);
  }

  lemma SpanMore(first: nat, n: nat)
    ensures Span(first, n + 1) == Span(first, n) + {first + n}
  {
    hide Span;
  }

  /** A path placed where there is room takes the blocks from the goal on, in order. */
  lemma {:induction false} PlacedRun(geo: Geometry, tree: map<Loc, nat>, tree': map<Loc, nat>, l: Loc, goal: nat)
    requires geo.Wf() && Placed(geo, tree, tree', l, goal) && l !in tree
    requires RunFree(geo, tree, goal, Missing(tree, l))
    ensures l in tree' && tree'[l] == goal + Missing(tree, l) - 1
    ensures Added(tree, tree', l) == Span(goal, Missing(tree, l))
  {
    hide Closest, Span, Aim, Volume.Geometry.GroupsOk;
    var n, used := Missing(tree, l), MetaBlocks(geo) + tree.Values;
    assert goal + n - 1 in Span(goal, n);
    SpanMore(goal, n - 1);
    if l.Sub? && l.up !in tree {
      RunPart(geo, tree, goal, n, n - 1);
      PlacedRun(geo, tree, tree', l.up, goal);
      TakesGoal(geo, used + Added(tree, tree', l.up), goal + n - 1, tree'[l]);
    } else {
      TakesGoal(geo, used, goal, tree'[l]);
    }
  }

  // ----- appending -----

  /** How many places on the way to `l`, itself included, begin at logical block `lb` and are not in the tree. */
  ghost function Begins(tree: map<Loc, nat>, l: Loc, lb: nat, p: nat): nat
    requires l.Valid(p)
  {
    if l in tree || l.Base(p) != lb then 0 else 1 + (if l.Sub? then Begins(tree, l.up, lb, p) else 0)
  }

  /** `b` has the places of `a` and more of file `ino` that begin before logical block `lb`. */
  ghost predicate GrewBelow(a: map<Loc, nat>, b: map<Loc, nat>, ino: nat, lb: nat, p: nat) {
    && (forall l :: l in a ==> l in b && b[l] == a[l])
    && (forall l :: l in b && l !in a ==> l.Valid(p) && l.Ino() == ino && l.Base(p) < lb)
  }

  /** A logical block belongs to the slot of every place it is found through. */
  lemma SlotIs(l: Loc, lb: nat, p: nat)
    requires p > 0 && l.Valid(p) && l.Base(p) <= lb < l.End(p)
    ensures lb < Reach(p) && SlotFor(lb, p) == l.Slot()
  {
    hide SlotBase, Pow, Loc.Base, Loc.End;
    UnderRoot(l, p);
    RestBounds(l, p);
    SlotBaseMono(l.Slot() + 1, N_SLOTS, p);
    var slot := SlotFor(lb, p);
    if slot < l.Slot() { SlotBaseMono(slot + 1, l.Slot(), p); }
    if slot > l.Slot() { SlotBaseMono(l.Slot() + 1, slot, p); }
  }

  /** The place of a logical block is under every place it is found through. */
  lemma LeafUnder(l: Loc, lb: nat, p: nat)
    requires p > 0 && l.Valid(p) && l.Base(p) <= lb < l.End(p)
    ensures lb < Reach(p) && LeafFor(l.Ino(), lb, p).Under(l)
  {
    hide Pow, SlotFor, SlotBase, Descend, Loc.Under;
    SlotIs(l, lb, p);
    UnderRoot(l, p);
    RestBounds(l, p);
    DescendThrough(Root(l.Ino(), l.Slot()), l, lb - SlotBase(l.Slot(), p), p);
    DescendReaches(l, lb - l.Base(p), p);
  }

  lemma {:induction false} AllAbove(tree: map<Loc, nat>, l: Loc, top: Loc, p: nat)
    requires Shape(p, tree) && l in tree && l.Under(top)
    ensures top in tree
  {
    if l != top { AllAbove(tree, l.up, top, p); }
  }

  /** After the block before it, what a block still misses is what begins with it. */
  lemma {:induction false} MissingBegins(a: map<Loc, nat>, b: map<Loc, nat>, l: Loc, lb: nat, p: nat)
    requires p > 0 && GrewBelow(a, b, l.Ino(), lb, p) && Shape(p, b) && l.Valid(p) && l.Base(p) <= lb < l.End(p)
    requires 0 < lb <= Reach(p) && LeafFor(l.Ino(), lb - 1, p) in b
    ensures Missing(b, l) == Begins(a, l, lb, p)
  {
    hide LeafFor, Reach, Loc.Base, Loc.End, Shape;
    if l.Base(p) < lb {
      LeafUnder(l, lb - 1, p);
      AllAbove(b, LeafFor(l.Ino(), lb - 1, p), l, p);
    } else if l !in b && l.Sub? {
      PartOf(l.up, l.i, p);
      MissingBegins(a, b, l.up, lb, p);
    }
  }

  /** File `ino` has its blocks from `start` up to `from` and the one before `from`, and none from there on. */
  ghost predicate Appends(geo: Geometry, tree: map<Loc, nat>, ino: nat, start: nat, from: nat)
    requires geo.Sane()
  {
    && 0 < from && start <= from && BlockAt(geo, tree, ino, from - 1).Some?
    && (forall lb: nat :: start <= lb < from ==> BlockAt(geo, tree, ino, lb).Some?)
    && (forall lb: nat :: from <= lb ==> BlockAt(geo, tree, ino, lb).None?)
  }

  /** Logical block `lb` is right after the one before, with just the indirect blocks in between that begin
      with it. */
  ghost predicate NextTo(geo: Geometry, tree: map<Loc, nat>, tree': map<Loc, nat>, ino: nat, lb: nat)
    requires geo.Sane()
  {
    && 0 < lb < Reach(geo.P()) && BlockAt(geo, tree', ino, lb).Some? && BlockAt(geo, tree', ino, lb - 1).Some?
    && BlockAt(geo, tree', ino, lb).value ==
       BlockAt(geo, tree', ino, lb - 1).value + Begins(tree, LeafFor(ino, lb, geo.P()), lb, geo.P())
  }

  ghost predicate InARow(geo: Geometry, tree: map<Loc, nat>, tree': map<Loc, nat>, ino: nat, from: nat, end: nat)
    requires geo.Sane()
  {
    forall lb: nat :: from <= lb < end ==> NextTo(geo, tree, tree', ino, lb)
  }

  /** The `n` blocks after the one before `from`, if they were free, are exactly those taken, in order. */
  ghost predicate RowFrom(geo: Geometry, a: map<Loc, nat>, b: map<Loc, nat>, ino: nat, from: nat, end: nat, n: nat)
    requires geo.Wf() && 0 < from && BlockAt(geo, a, ino, from - 1).Some?
  {
    var first := BlockAt(geo, a, ino, from - 1).value + 1;
    RunFree(geo, a, first, n) ==>
      && b.Values == a.Values + Span(first, n) && InARow(geo, a, b, ino, from, end)
      && BlockAt(geo, b, ino, (if from < end then end else from) - 1) == Some(first + n - 1)
  }

  /** Writing logical blocks `start` up to `end` took `n` blocks, in a row wherever that appended. */
  ghost predicate Continues(geo: Geometry, a: map<Loc, nat>, b: map<Loc, nat>, ino: nat, start: nat, end: nat, n: nat)
    requires geo.Wf()
  {
    forall from: nat :: Appends(geo, a, ino, start, from) ==> RowFrom(geo, a, b, ino, from, end, n)
  }

  lemma ContinuesStart(geo: Geometry, a: map<Loc, nat>, ino: nat, start: nat)
    requires geo.Wf()
    ensures Continues(geo, a, a, ino, start, start, 0) && GrewBelow(a, a, ino, start, geo.P())
  {
    hide BlockAt, Span;
    forall from: nat | Appends(geo, a, ino, start, from)
      ensures a.Values == a.Values + Span(BlockAt(geo, a, ino, from - 1).value + 1, 0)
    {
    }
  }

  /** What is there after the path to logical block `lb` is built. */
  ghost predicate BuiltAt(geo: Geometry, b: map<Loc, nat>, c: map<Loc, nat>, ino: nat, lb: nat)
    requires geo.Wf() && ino > 0 && lb < Reach(geo.P())
  {
    var leaf := LeafFor(ino, lb, geo.P());
    && PlacedTo(geo, b, c, leaf, Goal(geo, b, ino, lb)) && leaf in c
    && (forall l :: l in b ==> l in c && c[l] == b[l])
    && (forall l :: l in c && l !in b ==> leaf.Under(l))
    && (leaf in b ==> c == b)
  }

  lemma {:induction false} AboveBegins(l: Loc, top: Loc, p: nat)
    requires l.Valid(p) && l.Under(top)
    ensures top.Valid(p) && top.Ino() == l.Ino() && top.Base(p) <= l.Base(p)
  {
    if l != top {
      PartOf(l.up, l.i, p);
      AboveBegins(l.up, top, p);
    }
  }

  lemma GrewMore(geo: Geometry, a: map<Loc, nat>, b: map<Loc, nat>, c: map<Loc, nat>, ino: nat, lb: nat)
    requires geo.Wf() && ino > 0 && lb < Reach(geo.P())
    requires GrewBelow(a, b, ino, lb, geo.P()) && BuiltAt(geo, b, c, ino, lb)
    ensures GrewBelow(a, c, ino, lb + 1, geo.P())
  {
    hide LeafFor, Reach, Loc.Valid, Loc.Base, PlacedTo, Goal;
    forall l | l in c && l !in a
      ensures l.Valid(geo.P()) && l.Ino() == ino && l.Base(geo.P()) < lb + 1
    {
      if l !in b { AboveBegins(LeafFor(ino, lb, geo.P()), l, geo.P()); }
    }
  }

  /** One more logical block: where the run goes on being free, so does the row. */
  lemma RowMore(geo: Geometry, a: map<Loc, nat>, b: map<Loc, nat>, c: map<Loc, nat>, ino: nat, from: nat, lb: nat,
        first: nat, n: nat)
    requires geo.Wf() && ino > 0 && 0 < from <= lb < Reach(geo.P()) && Shape(geo.P(), b)
    requires GrewBelow(a, b, ino, lb, geo.P()) && BuiltAt(geo, b, c, ino, lb)
    requires BlockAt(geo, a, ino, lb).None? && b.Values == a.Values + Span(first, n)
    requires BlockAt(geo, b, ino, lb - 1) == Some(first + n - 1) && first > 0
    requires RunFree(geo, a, first, n + Missing(b, LeafFor(ino, lb, geo.P())))
    ensures var more := Missing(b, LeafFor(ino, lb, geo.P()));
            && c.Values == a.Values + Span(first, n + more) && NextTo(geo, a, c, ino, lb)
            && BlockAt(geo, c, ino, lb) == Some(first + n + more - 1)
  {
    hide LeafFor, Reach, Loc.Valid, Loc.Base, Span, Shape, Missing, Begins, Placed, Volume.Geometry.GroupsOk;
    var leaf := LeafFor(ino, lb, geo.P());
    var more := Missing(b, leaf);
    RunRest(geo, a, b, first, n, more);
    PlacedRun(geo, b, c, leaf, first + n);
    LeafSpan(leaf, geo.P());
    MissingBegins(a, b, leaf, lb, geo.P());
    assert Span(first, n + more) == Span(first, n) + Span(first + n, more);
  }

  lemma LeafSpan(l: Loc, p: nat)
    requires p > 0 && l.Valid(p) && l.Leaf()
    ensures l.End(p) == l.Base(p) + 1
  {
    PowZero(p);
  }

  lemma RunRest(geo: Geometry, a: map<Loc, nat>, b: map<Loc, nat>, first: nat, n: nat, more: nat)
    requires geo.Wf() && RunFree(geo, a, first, n + more) && b.Values == a.Values + Span(first, n)
    ensures RunFree(geo, b, first + n, more)
  {
    hide Span;
    forall x | x in Span(first + n, more)
      ensures geo.firstDataBlock <= x < geo.blocksCount && x !in MetaBlocks(geo) + b.Values
    {
      assert x in Span(first, n + more) && x !in Span(first, n);
    }
  }

  lemma RowFromMore(geo: Geometry, a: map<Loc, nat>, b: map<Loc, nat>, c: map<Loc, nat>, ino: nat, from: nat, lb: nat,
        n: nat)
    requires geo.Wf() && ino > 0 && 0 < from <= lb < Reach(geo.P()) && Shape(geo.P(), b)
    requires GrewBelow(a, b, ino, lb, geo.P()) && BuiltAt(geo, b, c, ino, lb) && BlockAt(geo, a, ino, lb).None?
    requires BlockAt(geo, a, ino, from - 1).Some? && RowFrom(geo, a, b, ino, from, lb, n)
    ensures RowFrom(geo, a, c, ino, from, lb + 1, n + Missing(b, LeafFor(ino, lb, geo.P())))
  {
    hide LeafFor, Reach, Span, Shape, Missing, Begins, PlacedTo, RunFree, NextTo, BlockAt, GrewBelow, Goal,
         Volume.Geometry.GroupsOk;
    var more, first := Missing(b, LeafFor(ino, lb, geo.P())), BlockAt(geo, a, ino, from - 1).value + 1;
    if RunFree(geo, a, first, n + more) {
      RunPart(geo, a, first, n + more, n);
      RowMore(geo, a, b, c, ino, from, lb, first, n);
      forall x: nat | from <= x < lb + 1
        ensures NextTo(geo, a, c, ino, x)
      {
        if x < lb { NextStays(geo, a, b, c, ino, x); }
      }
    }
  }

  lemma ContinuesMore(geo: Geometry, a: map<Loc, nat>, b: map<Loc, nat>, c: map<Loc, nat>, ino: nat, start: nat,
        lb: nat, n: nat)
    requires geo.Wf() && ino > 0 && start <= lb < Reach(geo.P()) && Shape(geo.P(), b)
    requires GrewBelow(a, b, ino, lb, geo.P()) && BuiltAt(geo, b, c, ino, lb) && Continues(geo, a, b, ino, start, lb, n)
    ensures Continues(geo, a, c, ino, start, lb + 1, n + Missing(b, LeafFor(ino, lb, geo.P())))
  {
    hide LeafFor, Reach, Shape, Missing, PlacedTo, RowFrom, Goal, Volume.Geometry.GroupsOk;
    var leaf := LeafFor(ino, lb, geo.P());
    forall from: nat | Appends(geo, a, ino, start, from)
      ensures RowFrom(geo, a, c, ino, from, lb + 1, n + Missing(b, leaf))
    {
      assert RowFrom(geo, a, b, ino, from, lb, n);
      if lb < from {
        assert BlockAt(geo, a, ino, lb).Some?;
        NoneMissing(b, leaf);
        RowSame(geo, a, b, ino, from, lb, n);
      } else {
        RowFromMore(geo, a, b, c, ino, from, lb, n);
      }
    }
  }

  lemma RowSame(geo: Geometry, a: map<Loc, nat>, b: map<Loc, nat>, ino: nat, from: nat, lb: nat, n: nat)
    requires geo.Wf() && lb < from && BlockAt(geo, a, ino, from - 1).Some? && RowFrom(geo, a, b, ino, from, lb, n)
    ensures RowFrom(geo, a, b, ino, from, lb + 1, n)
  {
    hide RunFree, Span, BlockAt, NextTo;
  }

  lemma NoneMissing(tree: map<Loc, nat>, l: Loc)
    requires l in tree
    ensures Missing(tree, l) == 0
  {
  }

  lemma NextStays(geo: Geometry, a: map<Loc, nat>, b: map<Loc, nat>, c: map<Loc, nat>, ino: nat, lb: nat)
    requires geo.Sane() && NextTo(geo, a, b, ino, lb) && forall l :: l in b ==> l in c && c[l] == b[l]
    ensures NextTo(geo, a, c, ino, lb)
  {
    hide LeafFor, Reach, Begins;
  }
}

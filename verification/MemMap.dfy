/** The memory map: the boot loader's translation of the firmware's descriptors (boot/src/memmap.rs)
    and the kernel's test that a range is loader memory (kernel/src/system.rs). */
module MemMap {
  import opened Wrappers
  import opened Le

  const PAGE: nat := 4096

  datatype Kind = Usable | Bootloader | AcpiReclaimable | AcpiNvs | Reserved | Mmio | Kernel

  datatype Desc = Desc(ty: nat, start: nat, pages: nat)

  datatype Region = Region(start: nat, len: nat, kind: Kind) {
    function End(): nat { start + len }

    predicate Holds(a: nat) { start <= a < End() }
  }

  /** The kind of a firmware memory type (table 7.10 of the UEFI specification 2.10). */
  function KindOf(ty: nat): Kind {
    if ty == 3 || ty == 4 || ty == 7 then Usable
    else if ty == 1 || ty == 2 then Bootloader
    else if ty == 9 then AcpiReclaimable
    else if ty == 10 then AcpiNvs
    else if ty == 11 || ty == 12 then Mmio
    else Reserved
  }

  function RegionOf(d: Desc): Region {
    Region(d.start, d.pages * PAGE, KindOf(d.ty))
  }

  // ----- how many regions hold an address -----

  function Hit(r: Region, a: nat, k: Kind): nat {
    if r.kind == k && r.Holds(a) then 1 else 0
  }

  function Hits(s: seq<Region>, a: nat, k: Kind): nat {
    if s == [] then 0 else Hits(s[..|s| - 1], a, k) + Hit(s[|s| - 1], a, k)
  }

  function DescHits(s: seq<Desc>, a: nat, k: Kind): nat {
    if s == [] then 0 else DescHits(s[..|s| - 1], a, k) + Hit(RegionOf(s[|s| - 1]), a, k)
  }

  lemma HitsPush(s: seq<Region>, r: Region, a: nat, k: Kind)
    ensures Hits(s + [r], a, k) == Hits(s, a, k) + Hit(r, a, k)
  {
    assert (s + [r])[..|s|] == s;
  }

  lemma {:induction false} HitsSplit(s: seq<Region>, t: seq<Region>, a: nat, k: Kind)
    ensures Hits(s + t, a, k) == Hits(s, a, k) + Hits(t, a, k)
  {
    if t == [] {
      assert s + t == s;
    } else {
      var u := t[..|t| - 1];
      HitsSplit(s, u, a, k);
      assert (s + t)[..|s + t| - 1] == s + u;
    }
  }

  function Without(s: seq<Region>, i: nat): seq<Region>
    requires i < |s|
  {
    s[..i] + s[i + 1..]
  }

  lemma WithoutSame(s: seq<Region>, i: nat)
    requires i < |s|
    ensures multiset(s) == multiset(Without(s, i)) + multiset{s[i]}
  {
    assert s == s[..i] + [s[i]] + s[i + 1..];
  }

  lemma WithoutHits(s: seq<Region>, i: nat, a: nat, k: Kind)
    requires i < |s|
    ensures Hits(s, a, k) == Hits(Without(s, i), a, k) + Hit(s[i], a, k)
  {
    assert s == s[..i] + [s[i]] + s[i + 1..];
    HitsSplit(s[..i], s[i + 1..], a, k);
    HitsSplit(s[..i] + [s[i]], s[i + 1..], a, k);
    HitsPush(s[..i], s[i], a, k);
  }

  /** The count does not depend on the order. */
  lemma {:induction false} HitsPermuted(s: seq<Region>, t: seq<Region>, a: nat, k: Kind)
    requires multiset(s) == multiset(t)
    ensures Hits(s, a, k) == Hits(t, a, k)
    decreases |s|
  {
    hide Hits, Without;
    if s == [] {
      assert |t| == |multiset(t)| == |multiset(s)| == 0;
    } else {
      assert s[0] in multiset(t);
      var i :| 0 <= i < |t| && t[i] == s[0];
      WithoutSame(s, 0);
      WithoutSame(t, i);
      assert |Without(s, 0)| < |s| by {
        assert |multiset(s)| == |multiset(Without(s, 0))| + 1;
      }
      assert multiset(Without(s, 0)) == multiset(s) - multiset{s[0]} == multiset(Without(t, i));
      HitsPermuted(Without(s, 0), Without(t, i), a, k);
      WithoutHits(s, 0, a, k);
      WithoutHits(t, i, a, k);
    }
  }

  /** An address is in some region of a kind exactly when the count is not zero. */
  lemma {:induction false} HitsPositive(s: seq<Region>, a: nat, k: Kind)
    ensures Hits(s, a, k) > 0 <==> exists i :: 0 <= i < |s| && s[i].kind == k && s[i].Holds(a)
  {
    if s != [] {
      var u := s[..|s| - 1];
      HitsPositive(u, a, k);
      if Hits(s, a, k) > 0 && Hit(s[|s| - 1], a, k) == 0 {
        var i :| 0 <= i < |u| && u[i].kind == k && u[i].Holds(a);
        assert s[i].kind == k && s[i].Holds(a);
      }
      if i :| 0 <= i < |s| && s[i].kind == k && s[i].Holds(a) {
        if i < |u| { assert u[i].kind == k && u[i].Holds(a); }
      }
    }
  }

  // ----- merging -----

  predicate Sorted(s: seq<Region>) {
    forall i, j :: 0 <= i < j < |s| ==> s[i].start <= s[j].start
  }

  predicate Mergeable(r: Region, next: Region) {
    r.kind == next.kind && r.End() == next.start
  }

  predicate Apart(s: seq<Region>) {
    forall i, j :: 0 <= i < |s| && j == i + 1 < |s| ==> !Mergeable(s[i], s[j])
  }

  /** `r` after the merged regions `s`. */
  function Joined(s: seq<Region>, r: Region): seq<Region> {
    if |s| > 0 && Mergeable(s[|s| - 1], r) then s[|s| - 1 := s[|s| - 1].(len := s[|s| - 1].len + r.len)]
    else s + [r]
  }

  function Merged(s: seq<Region>): (m: seq<Region>)
    ensures |m| <= |s|
  {
    if s == [] then [] else Joined(Merged(s[..|s| - 1]), s[|s| - 1])
  }

  lemma JoinedHits(s: seq<Region>, r: Region, a: nat, k: Kind)
    ensures Hits(Joined(s, r), a, k) == Hits(s, a, k) + Hit(r, a, k)
  {
    if |s| > 0 && Mergeable(s[|s| - 1], r) {
      var l := s[|s| - 1];
      var m := l.(len := l.len + r.len);
      assert Joined(s, r) == s[..|s| - 1] + [m];
      HitsPush(s[..|s| - 1], m, a, k);
      assert Hit(m, a, k) == Hit(l, a, k) + Hit(r, a, k);
    } else {
      HitsPush(s, r, a, k);
    }
  }

  /** Merging keeps, for every address and kind, how many regions hold it. */
  lemma {:induction false} MergedHits(s: seq<Region>, a: nat, k: Kind)
    ensures Hits(Merged(s), a, k) == Hits(s, a, k)
  {
    if s != [] {
      MergedHits(s[..|s| - 1], a, k);
      JoinedHits(Merged(s[..|s| - 1]), s[|s| - 1], a, k);
    }
  }

  lemma {:induction false} MergedBelow(s: seq<Region>, bound: nat)
    requires forall j :: 0 <= j < |s| ==> s[j].start <= bound
    ensures forall i :: 0 <= i < |Merged(s)| ==> Merged(s)[i].start <= bound
  {
    if s != [] {
      MergedBelow(s[..|s| - 1], bound);
      assert s[|s| - 1].start <= bound;
    }
  }

  lemma JoinedOk(s: seq<Region>, r: Region)
    requires Sorted(s) && Apart(s) && forall i :: 0 <= i < |s| ==> s[i].start <= r.start
    ensures Sorted(Joined(s, r)) && Apart(Joined(s, r))
  {
  }

  /** Merged regions are in order and no two neighbours can be merged. */
  lemma {:induction false} MergedOk(s: seq<Region>)
    requires Sorted(s)
    ensures Sorted(Merged(s)) && Apart(Merged(s))
  {
    if s != [] {
      MergedOk(s[..|s| - 1]);
      MergedBelow(s[..|s| - 1], s[|s| - 1].start);
      JoinedOk(Merged(s[..|s| - 1]), s[|s| - 1]);
    }
  }

  predicate EndsBy(s: seq<Region>, bound: nat) {
    forall i :: 0 <= i < |s| ==> s[i].End() <= bound
  }

  /** Merging keeps every end within a bound, so 64-bit ends stay 64-bit. */
  lemma {:induction false} MergedFits(s: seq<Region>, bound: nat)
    requires EndsBy(s, bound)
    ensures EndsBy(Merged(s), bound)
  {
    if s != [] {
      MergedFits(s[..|s| - 1], bound);
      assert s[|s| - 1].End() <= bound;
    }
  }

  // ----- translate -----

  /** The regions of the descriptors that have pages, in the firmware's order. */
  function Kept(descs: seq<Desc>): (s: seq<Region>) {
    if descs == [] then []
    else
      var d := descs[|descs| - 1];
      Kept(descs[..|descs| - 1]) + if d.pages > 0 then [RegionOf(d)] else []
  }

  lemma {:induction false} KeptHits(descs: seq<Desc>, a: nat, k: Kind)
    ensures Hits(Kept(descs), a, k) == DescHits(descs, a, k)
  {
    if descs != [] {
      var u, d := descs[..|descs| - 1], descs[|descs| - 1];
      KeptHits(u, a, k);
      if d.pages > 0 {
        HitsPush(Kept(u), RegionOf(d), a, k);
      } else {
        assert Kept(descs) == Kept(u);
      }
    }
  }

  lemma {:induction false} KeptFits(descs: seq<Desc>, bound: nat)
    requires forall i :: 0 <= i < |descs| ==> RegionOf(descs[i]).End() <= bound
    ensures EndsBy(Kept(descs), bound)
  {
    if descs != [] {
      KeptFits(descs[..|descs| - 1], bound);
      assert RegionOf(descs[|descs| - 1]).End() <= bound;
    }
  }

  lemma PermutedFits(s: seq<Region>, t: seq<Region>, bound: nat)
    requires multiset(s) == multiset(t) && EndsBy(s, bound)
    ensures EndsBy(t, bound)
  {
    forall i | 0 <= i < |t| ensures t[i].End() <= bound {
      assert t[i] in multiset(s);
    }
  }

  lemma {:induction false} KeptGrows(descs: seq<Desc>, i: nat)
    requires i <= |descs|
    ensures Kept(descs[..i]) <= Kept(descs)
    decreases |descs|
  {
    if i == |descs| {
      assert descs[..i] == descs;
    } else {
      KeptGrows(descs[..|descs| - 1], i);
      assert descs[..|descs| - 1][..i] == descs[..i];
    }
  }

  /** Writes the regions of the descriptors; none if they do not fit. */
  method Fill(descs: seq<Desc>, out: array<Region>) returns (n: Option<nat>)
    modifies out
    ensures n.Some? <==> |Kept(descs)| <= out.Length
    ensures n.Some? ==> n.value == |Kept(descs)| && out[..n.value] == Kept(descs)
    ensures n.None? ==> out[..] == Kept(descs)[..out.Length]
  {
    var at := 0;
    for i := 0 to |descs|
      invariant at == |Kept(descs[..i])| <= out.Length
      invariant out[..at] == Kept(descs[..i])
    {
      KeptGrows(descs, i + 1);
      assert descs[..i + 1][..i] == descs[..i];
      if descs[i].pages > 0 {
        if at >= out.Length {
          return None;
        }
        out[at] := RegionOf(descs[i]);
        at := at + 1;
      }
    }
    assert descs[..|descs|] == descs;
    return Some(at);
  }

  /** Sorts the first `n` regions by their start. */
  method SortByStart(out: array<Region>, n: nat)
    requires n <= out.Length
    modifies out
    ensures Sorted(out[..n]) && multiset(out[..n]) == multiset(old(out[..n]))
    ensures out[n..] == old(out[n..])
  {
    for i := 0 to n
      invariant Sorted(out[..i])
      invariant multiset(out[..n]) == multiset(old(out[..n]))
      invariant out[n..] == old(out[n..])
    {
      SinkInto(out, n, i);
    }
  }

  /** Regions up to `i` are sorted but for region `j`, which is on its way down. */
  predicate Sinking(s: seq<Region>, i: nat, j: nat)
    requires j <= i < |s|
  {
    && (forall x, y :: 0 <= x < y <= i && x != j && y != j ==> s[x].start <= s[y].start)
    && (forall y :: j < y <= i ==> s[j].start <= s[y].start)
  }

  function Swapped(s: seq<Region>, j: nat): seq<Region>
    requires 0 < j < |s|
  {
    s[..j - 1] + [s[j], s[j - 1]] + s[j + 1..]
  }

  lemma SwappedSame(s: seq<Region>, j: nat)
    requires 0 < j < |s|
    ensures multiset(Swapped(s, j)) == multiset(s)
  {
    assert s == s[..j - 1] + [s[j - 1], s[j]] + s[j + 1..];
  }

  lemma SinkStep(s: seq<Region>, i: nat, j: nat)
    requires 0 < j <= i < |s| && Sinking(s, i, j) && s[j - 1].start > s[j].start
    ensures Sinking(Swapped(s, j), i, j - 1)
  {
  }

  method SwapDown(out: array<Region>, n: nat, j: nat)
    requires 0 < j < n <= out.Length
    modifies out
    ensures out[..n] == Swapped(old(out[..n]), j) && out[n..] == old(out[n..])
  {
    out[j - 1], out[j] := out[j], out[j - 1];
  }

  /** Moves region `i` down to its place among the sorted regions before it. */
  method SinkInto(out: array<Region>, n: nat, i: nat)
    requires i < n <= out.Length && Sorted(out[..i])
    modifies out
    ensures Sorted(out[..i + 1]) && multiset(out[..n]) == multiset(old(out[..n]))
    ensures out[n..] == old(out[n..])
  {
    hide Sinking, Swapped, Sorted;
    var j := i;
    assert out[..n][..i] == out[..i];
    SinkStart(out[..n], i);
    while j > 0 && out[j - 1].start > out[j].start
      invariant 0 <= j <= i && Sinking(out[..n], i, j)
      invariant multiset(out[..n]) == multiset(old(out[..n]))
      invariant out[n..] == old(out[n..])
    {
      ghost var s := out[..n];
      SinkStep(s, i, j);
      SwappedSame(s, j);
      SwapDown(out, n, j);
      j := j - 1;
    }
    SinkDone(out[..n], i, j);
    assert out[..n][..i + 1] == out[..i + 1];
  }

  lemma SinkStart(s: seq<Region>, i: nat)
    requires i < |s| && Sorted(s[..i])
    ensures Sinking(s, i, i)
  {
    assert forall x :: 0 <= x < i ==> s[x] == s[..i][x];
  }

  lemma SinkDone(s: seq<Region>, i: nat, j: nat)
    requires j <= i < |s| && Sinking(s, i, j) && (j > 0 ==> s[j - 1].start <= s[j].start)
    ensures Sorted(s[..i + 1])
  {
    forall x, y | 0 <= x < y <= i ensures s[x].start <= s[y].start {
      if y == j && x != j - 1 {
        assert s[x].start <= s[j - 1].start;
      }
    }
  }

  /** Puts `cur` after the `w` merged regions at the front. */
  method Join(out: array<Region>, w: nat, cur: Region) returns (next: nat)
    requires w < out.Length
    modifies out
    ensures next <= w + 1 && out[..next] == Joined(old(out[..w]), cur)
    ensures out[w + 1..] == old(out[w + 1..])
  {
    if w > 0 && out[w - 1].kind == cur.kind && out[w - 1].End() == cur.start {
      out[w - 1] := out[w - 1].(len := out[w - 1].len + cur.len);
      return w;
    }
    out[w] := cur;
    return w + 1;
  }

  /** Merges the first `n` regions in place. */
  method Compact(out: array<Region>, n: nat) returns (w: nat)
    requires n <= out.Length
    modifies out
    ensures w <= n && out[..w] == Merged(old(out[..n]))
  {
    hide Joined;
    ghost var s := out[..n];
    w := 0;
    for r := 0 to n
      invariant w <= r && out[..w] == Merged(s[..r])
      invariant forall i :: r <= i < n ==> out[i] == s[i]
    {
      assert s[..r + 1][..r] == s[..r];
      ghost var at, rest := w, out[w + 1..];
      w := Join(out, w, out[r]);
      forall i | r < i < n ensures out[i] == s[i] {
        assert out[i] == out[at + 1..][i - at - 1] == rest[i - at - 1];
      }
    }
    assert s[..n] == s;
  }

  /** Sorted, merged, and every address held as often as among the descriptors. */
  ghost predicate Translated(descs: seq<Desc>, map_: seq<Region>) {
    Sorted(map_) && Apart(map_) && forall a, k :: Hits(map_, a, k) == DescHits(descs, a, k)
  }

  method Translate(descs: seq<Desc>, out: array<Region>) returns (n: Option<nat>)
    modifies out
    ensures n.None? <==> |Kept(descs)| > out.Length
    ensures n.Some? ==> n.value <= out.Length && Translated(descs, out[..n.value])
    ensures n.Some? && (forall i :: 0 <= i < |descs| ==> RegionOf(descs[i]).End() <= U64_MAX) ==>
            EndsBy(out[..n.value], U64_MAX)
  {
    n := Fill(descs, out);
    if n.None? {
      return;
    }
    SortByStart(out, n.value);
    ghost var sorted := out[..n.value];
    var w := Compact(out, n.value);
    MergedOk(sorted);
    forall a, k ensures Hits(out[..w], a, k) == DescHits(descs, a, k) {
      MergedHits(sorted, a, k);
      HitsPermuted(sorted, Kept(descs), a, k);
      KeptHits(descs, a, k);
    }
    if forall i :: 0 <= i < |descs| ==> RegionOf(descs[i]).End() <= U64_MAX {
      KeptFits(descs, U64_MAX);
      PermutedFits(Kept(descs), sorted, U64_MAX);
      MergedFits(sorted, U64_MAX);
    }
    return Some(w);
  }

  // ----- in_loader_memory -----

  predicate InLoader(map_: seq<Region>, a: nat) {
    exists i :: 0 <= i < |map_| && map_[i].kind == Bootloader && map_[i].Holds(a)
  }

  /** True exactly when the range ends within 64 bits and every address of it is in a `Bootloader`
      region. */
  method InLoaderMemory(map_: seq<Region>, phys: nat, len: nat) returns (yes: bool)
    requires Sorted(map_)
    ensures yes <==> phys + len <= U64_MAX && forall a :: phys <= a < phys + len ==> InLoader(map_, a)
  {
    if phys + len > U64_MAX {
      return false;
    }
    var end := phys + len;
    var covered := phys;
    var i := 0;
    while i < |map_| && covered < end
      invariant 0 <= i <= |map_| && phys <= covered
      invariant forall a :: phys <= a < covered ==> InLoader(map_, a)
      invariant forall j :: 0 <= j < i && map_[j].kind == Bootloader ==>
                map_[j].End() <= covered || covered < map_[j].start
    {
      var r := map_[i];
      if r.kind == Bootloader && r.start <= covered && covered < r.End() {
        forall a | phys <= a < r.End() ensures InLoader(map_, a) {
          if a >= covered { assert map_[i].Holds(a); }
        }
        covered := r.End();
      }
      i := i + 1;
    }
    assert covered < end ==> !InLoader(map_, covered);
    return covered >= end;
  }

  /** On a translated map the test answers for the firmware's own descriptors. */
  lemma LoaderDescs(descs: seq<Desc>, map_: seq<Region>, a: nat)
    requires Translated(descs, map_)
    ensures InLoader(map_, a) <==> DescHits(descs, a, Bootloader) > 0
  {
    HitsPositive(map_, a, Bootloader);
    assert Hits(map_, a, Bootloader) == DescHits(descs, a, Bootloader);
  }
}

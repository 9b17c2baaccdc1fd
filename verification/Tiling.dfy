/** The direct-map tiling uses as few pages as any cover (kernel/arch/x86_64/mman.c). */
module Tiling {
  import opened Arith
  import opened EarlyMapping
  import opened DirectMap

  function AlignDown(x: nat, unit: nat): nat
    requires unit > 0
  {
    x - x % unit
  }

  /** No larger aligned page inside [lo, hi) holds the block. */
  ghost predicate Maximal(b: Block, lo: nat, hi: nat) {
    forall size: MapSize :: Bytes(size) > Bytes(b.size) ==>
      AlignDown(b.start, Bytes(size)) < lo || AlignDown(b.start, Bytes(size)) + Bytes(size) > hi
  }

  ghost predicate Greedy(blocks: seq<Block>, lo: nat, hi: nat) {
    IsTiling(blocks, lo, hi) && forall b :: b in blocks ==> Maximal(b, lo, hi)
  }

  /** Aligned blocks inside [lo, hi) that leave no byte out. They may overlap. */
  ghost predicate Covers(cover: seq<Block>, lo: nat, hi: nat) {
    && (forall c :: c in cover ==> c.Aligned() && lo <= c.start && c.End() <= hi)
    && (forall x: nat :: lo <= x < hi ==> Covered(cover, x))
  }

  ghost predicate Covered(cover: seq<Block>, x: nat) {
    exists i :: 0 <= i < |cover| && cover[i].Has(x)
  }

  lemma AlignedStart(c: Block, x: nat)
    requires c.Aligned() && c.Has(x)
    ensures c.start == AlignDown(x, Bytes(c.size))
  {
    AddLow(c.start, Bytes(c.size), x - c.start);
  }

  /** An aligned block of no larger size that meets b lies in b. */
  lemma SmallerInside(b: Block, c: Block, x: nat, y: nat)
    requires b.Aligned() && c.Aligned() && Bytes(c.size) <= Bytes(b.size)
    requires b.Has(x) && c.Has(x) && c.Has(y)
    ensures b.Has(y)
  {
    var k := if c.size == b.size then 1 else if b.size.Size1G? && c.size.Size4K? then 0x4_0000 else 512;
    assert Bytes(b.size) == Bytes(c.size) * k;
    SameGroup(c, x, y);
    DivDiv(x, Bytes(c.size), k);
    DivDiv(y, Bytes(c.size), k);
    GroupStart(b, x, y);
  }

  lemma SameGroup(c: Block, x: nat, y: nat)
    requires c.Aligned() && c.Has(x) && c.Has(y)
    ensures x / Bytes(c.size) == y / Bytes(c.size)
  {
    AddLow(c.start, Bytes(c.size), x - c.start);
    AddLow(c.start, Bytes(c.size), y - c.start);
  }

  lemma GroupStart(b: Block, x: nat, y: nat)
    requires b.Aligned() && b.Has(x) && x / Bytes(b.size) == y / Bytes(b.size)
    ensures b.Has(y)
  {
    AddLow(b.start, Bytes(b.size), x - b.start);
    var u, q := Bytes(b.size), y / Bytes(b.size);
    assert y == q * u + y % u && b.start == q * u;
  }

  /** A block inside [lo, hi) that meets a maximal block lies in it. */
  lemma MaximalHolds(b: Block, c: Block, lo: nat, hi: nat, x: nat, y: nat)
    requires b.Aligned() && Maximal(b, lo, hi)
    requires c.Aligned() && lo <= c.start && c.End() <= hi
    requires b.Has(x) && c.Has(x) && c.Has(y)
    ensures b.Has(y)
  {
    if Bytes(c.size) > Bytes(b.size) {
      SmallerInside(c, b, x, b.start);
      AlignedStart(c, b.start);
    } else {
      SmallerInside(b, c, x, y);
    }
  }

  lemma {:induction false} TilesApart(blocks: seq<Block>, lo: nat, hi: nat, i: nat, j: nat)
    requires IsTiling(blocks, lo, hi) && i < j < |blocks|
    ensures blocks[i].End() <= blocks[j].start
    decreases |blocks|
  {
    var front, last := blocks[..|blocks| - 1], blocks[|blocks| - 1];
    if j == |blocks| - 1 {
      TilingGrows(front, lo, last.start);
      assert blocks[i] == front[i];
    } else {
      TilesApart(front, lo, last.start, i, j);
    }
  }

  /** There is one tiling of [lo, x) by maximal blocks. */
  lemma {:induction false} GreedyIsUnique(a: seq<Block>, b: seq<Block>, lo: nat, x: nat, hi: nat)
    requires IsTiling(a, lo, x) && IsTiling(b, lo, x) && x <= hi
    requires forall c :: c in a || c in b ==> Maximal(c, lo, hi)
    ensures a == b
    decreases |a|
  {
    hide Maximal;
    TilingGrows(a, lo, x);
    TilingGrows(b, lo, x);
    if a != [] && b != [] {
      var p, q := a[|a| - 1], b[|b| - 1];
      assert p in a && q in b;
      MaximalHolds(p, q, lo, hi, x - 1, q.start);
      MaximalHolds(q, p, lo, hi, x - 1, p.start);
      GreedyIsUnique(a[..|a| - 1], b[..|b| - 1], lo, p.start, hi);
      assert a == a[..|a| - 1] + [p] && b == b[..|b| - 1] + [q];
    }
  }

  /** Distinct numbers below m are at most m. */
  lemma {:induction false} Pigeonhole(s: seq<nat>, m: nat)
    requires forall i :: 0 <= i < |s| ==> s[i] < m
    requires forall i, j :: 0 <= i < j < |s| ==> s[i] != s[j]
    ensures |s| <= m
  {
    var elems := set i | 0 <= i < |s| :: s[i];
    DistinctCount(s, elems);
    BelowCount(elems, m);
  }

  lemma {:induction false} DistinctCount(s: seq<nat>, elems: set<nat>)
    requires forall i, j :: 0 <= i < j < |s| ==> s[i] != s[j]
    requires elems == set i | 0 <= i < |s| :: s[i]
    ensures |elems| == |s|
    decreases |s|
  {
    if s != [] {
      var front, last := s[..|s| - 1], s[|s| - 1];
      var rest := set i | 0 <= i < |front| :: front[i];
      assert elems == rest + {last};
      DistinctCount(front, rest);
    }
  }

  lemma {:induction false} BelowCount(elems: set<nat>, m: nat)
    requires forall x :: x in elems ==> x < m
    ensures |elems| <= m
  {
    if m == 0 {
      assert elems == {};
    } else {
      BelowCount(elems - {m - 1}, m - 1);
    }
  }

  /** A tiling by maximal blocks has the fewest blocks of all covers by aligned blocks. */
  lemma GreedyIsFewest(blocks: seq<Block>, cover: seq<Block>, lo: nat, hi: nat)
    requires Greedy(blocks, lo, hi) && Covers(cover, lo, hi)
    ensures |blocks| <= |cover|
  {
    TilingGrows(blocks, lo, hi);
    forall i | 0 <= i < |blocks| ensures Covered(cover, blocks[i].start) {
      assert blocks[i] in blocks;
    }
    var holder := seq(|blocks|, i requires 0 <= i < |blocks| => HolderOf(cover, blocks[i].start));
    forall i, j | 0 <= i < j < |holder| ensures holder[i] != holder[j] {
      TilesApart(blocks, lo, hi, i, j);
      if holder[i] == holder[j] {
        assert blocks[i] in blocks && blocks[j] in blocks && cover[holder[i]] in cover;
        MaximalHolds(blocks[i], cover[holder[i]], lo, hi, blocks[i].start, blocks[j].start);
      }
    }
    Pigeonhole(holder, |cover|);
  }

  ghost function HolderOf(cover: seq<Block>, x: nat): (k: nat)
    requires Covered(cover, x)
    ensures k < |cover| && cover[k].Has(x)
  {
    var k :| 0 <= k < |cover| && cover[k].Has(x);
    k
  }
}

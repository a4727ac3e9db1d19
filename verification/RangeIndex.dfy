/** How the two sides of the range index agree: the mincover tiles the range with the fewest stored
    blocks, and a value's edges meet it exactly when the value is in the range. */
module RangeIndex {
  import opened Common
  import opened Bits
  import opened RangeEdges
  import opened RangeMinCover

  // ----- the cover tiles the range

  /** The blocks follow one another without gap from `from` up to, not including, `to`. */
  ghost predicate Tiles(bs: seq<Block>, from: nat, to: nat) {
    if bs == [] then from == to
    else bs[0].start == from && Tiles(bs[1..], from + Pow2(bs[0].masked), to)
  }

  lemma {:induction false} TilesConcat(a: seq<Block>, b: seq<Block>, x: nat, y: nat, z: nat)
    requires Tiles(a, x, y) && Tiles(b, y, z)
    ensures Tiles(a + b, x, z)
  {
    if a == [] {
      assert a + b == b;
    } else {
      assert (a + b)[1..] == a[1..] + b;
      TilesConcat(a[1..], b, x + Pow2(a[0].masked), y, z);
    }
  }

  lemma {:induction false} TilesOrder(bs: seq<Block>, from: nat, to: nat, i: nat, j: nat)
    requires Tiles(bs, from, to) && i <= j < |bs|
    ensures from <= bs[i].start && bs[j].start + Pow2(bs[j].masked) <= to
    ensures i < j ==> bs[i].start + Pow2(bs[i].masked) <= bs[j].start
  {
    var next := from + Pow2(bs[0].masked);
    if i > 0 {
      TilesOrder(bs[1..], next, to, i - 1, j - 1);
    } else if j > 0 {
      TilesOrder(bs[1..], next, to, 0, j - 1);
      TilesOrder(bs[1..], next, to, j - 1, j - 1);
    } else if |bs| > 1 {
      TilesOrder(bs[1..], next, to, 0, |bs| - 2);
      assert to >= next;
    }
  }

  lemma {:induction false} TilesFind(bs: seq<Block>, from: nat, to: nat, v: nat) returns (i: nat)
    requires Tiles(bs, from, to) && from <= v < to
    ensures i < |bs| && Holds(bs[i], v)
  {
    if Holds(bs[0], v) {
      return 0;
    }
    i := TilesFind(bs[1..], from + Pow2(bs[0].masked), to, v);
    i := i + 1;
  }

  function CoverFrom(g: Generator, start: nat): nat {
    Max(g.rangeMin, start)
  }

  function CoverTo(g: Generator, start: nat, maskedBits: nat): nat {
    Max(CoverFrom(g, start), Min(g.rangeMax + 1, start + Pow2(maskedBits)))
  }

  /** The node lies inside the range at a stored level. */
  predicate Emits(g: Generator, start: nat, m: nat)
    requires g.sparsity >= 1 && m <= g.maxlen
  {
    start >= g.rangeMin && start + Pow2(m) - 1 <= g.rangeMax && IsLevelStored(g, m)
  }

  /** The node does not meet the range. */
  predicate Outside(g: Generator, start: nat, m: nat) {
    start + Pow2(m) - 1 < g.rangeMin || start > g.rangeMax
  }

  /** One step of the recursion below an aligned node. */
  lemma CoverStep(g: Generator, start: nat, m: nat)
    requires g.sparsity >= 1 && m <= g.maxlen && AlignedAt(start, m)
    ensures Outside(g, start, m) ==> CoverBlocks(g, start, m) == []
    ensures !Outside(g, start, m) && Emits(g, start, m) ==> CoverBlocks(g, start, m) == [Block(start, m)]
    ensures !Outside(g, start, m) && !Emits(g, start, m) ==>
              && m > 0
              && AlignedAt(start, m - 1) && AlignedAt(start + Pow2(m - 1), m - 1)
              && CoverBlocks(g, start, m)
              == CoverBlocks(g, start, m - 1) + CoverBlocks(g, start + Pow2(m - 1), m - 1)
  {
    AlignedMask(start, m);
    if m > 0 {
      AlignedHalves(start, m);
    }
  }

  /** Below every aligned node the emitted blocks tile the part of the range inside the node. */
  lemma {:induction false} CoverTiles(g: Generator, start: nat, m: nat)
    requires g.sparsity >= 1 && m <= g.maxlen && g.rangeMin <= g.rangeMax
    requires AlignedAt(start, m)
    ensures Tiles(CoverBlocks(g, start, m), CoverFrom(g, start), CoverTo(g, start, m))
    decreases m
  {
    CoverStep(g, start, m);
    if Outside(g, start, m) {
      NothingToTile(g, start, m);
    } else if Emits(g, start, m) {
      OneToTile(g, start, m);
    } else {
      CoverTiles(g, start, m - 1);
      CoverTiles(g, start + Pow2(m - 1), m - 1);
      JoinTiles(g, start, m, CoverBlocks(g, start, m - 1), CoverBlocks(g, start + Pow2(m - 1), m - 1));
    }
  }

  lemma NothingToTile(g: Generator, start: nat, m: nat)
    requires g.rangeMin <= g.rangeMax && Outside(g, start, m)
    ensures Tiles([], CoverFrom(g, start), CoverTo(g, start, m))
  {
  }

  lemma OneToTile(g: Generator, start: nat, m: nat)
    requires g.sparsity >= 1 && m <= g.maxlen && g.rangeMin <= g.rangeMax
    requires !Outside(g, start, m) && Emits(g, start, m)
    ensures Tiles([Block(start, m)], CoverFrom(g, start), CoverTo(g, start, m))
  {
    TilesSingle(Block(start, m));
  }

  /** What the two children tile, the node tiles. */
  lemma JoinTiles(g: Generator, start: nat, m: nat, left: seq<Block>, right: seq<Block>)
    requires m > 0 && g.rangeMin <= g.rangeMax
    requires Tiles(left, CoverFrom(g, start), CoverTo(g, start, m - 1))
    requires var mid := start + Pow2(m - 1); Tiles(right, CoverFrom(g, mid), CoverTo(g, mid, m - 1))
    ensures Tiles(left + right, CoverFrom(g, start), CoverTo(g, start, m))
  {
    var mid := start + Pow2(m - 1);
    if g.rangeMax < mid {
      TilesEmpty(right, CoverFrom(g, mid));
      assert left + right == left;
    } else {
      TilesConcat(left, right, CoverFrom(g, start), CoverFrom(g, mid), CoverTo(g, mid, m - 1));
    }
  }

  lemma TilesEmpty(bs: seq<Block>, from: nat)
    requires Tiles(bs, from, from)
    ensures bs == []
  {
    if bs != [] {
      TilesOrder(bs, from, from, 0, 0);
    }
  }

  lemma TilesSingle(b: Block)
    ensures Tiles([b], b.start, b.start + Pow2(b.masked))
  {
    assert [b][1..] == [];
  }

  /** Where an emitted block comes from: it is the node itself, or is emitted below one of its halves. */
  lemma CoverMember(g: Generator, start: nat, m: nat, b: Block) returns (half: nat)
    requires g.sparsity >= 1 && m <= g.maxlen && AlignedAt(start, m)
    requires b in CoverBlocks(g, start, m)
    ensures Emits(g, start, m) ==> b == Block(start, m)
    ensures !Emits(g, start, m) ==>
              && m > 0
              && (half == start || half == start + Pow2(m - 1))
              && AlignedAt(half, m - 1) && b in CoverBlocks(g, half, m - 1)
  {
    half := start;
    CoverStep(g, start, m);
    if !Emits(g, start, m) && b !in CoverBlocks(g, start, m - 1) {
      half := start + Pow2(m - 1);
    }
  }

  /** An aligned block at a stored level. */
  predicate StoredBlock(g: Generator, b: Block)
    requires g.sparsity >= 1
  {
    b.masked <= g.maxlen && Aligned(b) && IsLevelStored(g, b.masked)
  }

  lemma {:induction false} CoverBlocksStored(g: Generator, start: nat, m: nat, b: Block)
    requires g.sparsity >= 1 && m <= g.maxlen
    requires AlignedAt(start, m) && b in CoverBlocks(g, start, m)
    ensures StoredBlock(g, b)
    decreases m
  {
    var half := CoverMember(g, start, m, b);
    if !Emits(g, start, m) {
      CoverBlocksStored(g, half, m - 1, b);
    }
  }

  ghost predicate Covered(bs: seq<Block>, v: nat) {
    exists i :: 0 <= i < |bs| && Holds(bs[i], v)
  }

  /** The mincover consists of aligned stored blocks, in ascending order and without overlap, and
      its union is exactly the range. */
  lemma CoverPartitionsRange(g: Generator)
    requires ValidGenerator(g)
    ensures var c := CoverBlocks(g, 0, g.maxlen);
            && (forall i :: 0 <= i < |c| ==> StoredBlock(g, c[i]))
            && (forall i, j :: 0 <= i < j < |c| ==> c[i].start + Pow2(c[i].masked) <= c[j].start)
            && (forall v: nat :: Covered(c, v) <==> g.rangeMin <= v <= g.rangeMax)
  {
    var c := CoverBlocks(g, 0, g.maxlen);
    ZeroAligned(g.maxlen);
    CoverTiles(g, 0, g.maxlen);
    var to := CoverTo(g, 0, g.maxlen);
    assert to == g.rangeMax + 1;
    forall i | 0 <= i < |c|
      ensures StoredBlock(g, c[i])
    {
      CoverBlocksStored(g, 0, g.maxlen, c[i]);
    }
    forall i, j | 0 <= i < j < |c|
      ensures c[i].start + Pow2(c[i].masked) <= c[j].start
    {
      TilesOrder(c, g.rangeMin, to, i, j);
    }
    forall v: nat
      ensures Covered(c, v) <==> g.rangeMin <= v <= g.rangeMax
    {
      if g.rangeMin <= v <= g.rangeMax {
        var i := TilesFind(c, g.rangeMin, to, v);
      }
      if Covered(c, v) {
        var i :| 0 <= i < |c| && Holds(c[i], v);
        TilesOrder(c, g.rangeMin, to, i, i);
      }
    }
  }

  lemma CoverBlockInRange(g: Generator, i: nat)
    requires ValidGenerator(g) && i < |CoverBlocks(g, 0, g.maxlen)|
    ensures g.rangeMin <= CoverBlocks(g, 0, g.maxlen)[i].start <= g.rangeMax
  {
    var c := CoverBlocks(g, 0, g.maxlen);
    CoverPartitionsRange(g);
    assert Holds(c[i], c[i].start);
    assert Covered(c, c[i].start);
  }

  // ----- edges of a value against the mincover of a range

  /** The strings common to the edges of v and the mincover. */
  ghost function SharedEdges(g: Generator, v: nat): set<string>
    requires g.sparsity >= 1
  {
    set e | e in EdgeStrings(BitString(v, g.maxlen), g.sparsity, g.trimFactor) && e in CoverNames(g, 0, g.maxlen)
  }

  /** A block that names an edge of v agrees with v on the shifted bits. */
  lemma NamedBlockPrefix(g: Generator, b: Block, v: nat)
    requires ValidGenerator(g) && g.maxlen >= 1 && v < Pow2(g.maxlen)
    requires b.masked <= g.maxlen && b.start < Pow2(g.maxlen)
    requires BlockName(g, b) in EdgeStrings(BitString(v, g.maxlen), g.sparsity, g.trimFactor)
    ensures Shr(v, b.masked) == Shr(b.start, b.masked)
  {
    var level, e := g.maxlen - b.masked, BlockName(g, b);
    var l := EdgeIsStoredAncestor(v, g.maxlen, g.sparsity, g.trimFactor, e);
    ShrLess(v, l, g.maxlen - l);
    ShrLess(b.start, level, b.masked);
    NodeNameInjective(level, Shr(b.start, b.masked), l, Shr(v, g.maxlen - l));
  }

  /** A block is named by an edge of v exactly when it holds v. */
  lemma BlockNameIsEdgeIffHolds(g: Generator, b: Block, v: nat)
    requires ValidGenerator(g) && g.maxlen >= 1 && v < Pow2(g.maxlen)
    requires StoredBlock(g, b) && b.start < Pow2(g.maxlen)
    ensures BlockName(g, b) in EdgeStrings(BitString(v, g.maxlen), g.sparsity, g.trimFactor) <==> Holds(b, v)
  {
    HoldsIffSamePrefix(b.start, b.masked, v);
    if Shr(v, b.masked) == Shr(b.start, b.masked) {
      StoredAncestorIsEdge(v, g.maxlen, g.sparsity, g.trimFactor, BlockName(g, b), g.maxlen - b.masked);
    } else if BlockName(g, b) in EdgeStrings(BitString(v, g.maxlen), g.sparsity, g.trimFactor) {
      NamedBlockPrefix(g, b, v);
    }
  }

  /** The i-th string of the cover is shared exactly when its block holds v. */
  lemma SharedIffHolds(g: Generator, v: nat, i: nat)
    requires ValidGenerator(g) && g.maxlen >= 1 && v < Pow2(g.maxlen)
    requires i < |CoverBlocks(g, 0, g.maxlen)|
    ensures |CoverNames(g, 0, g.maxlen)| == |CoverBlocks(g, 0, g.maxlen)|
    ensures CoverNames(g, 0, g.maxlen)[i] in SharedEdges(g, v) <==> Holds(CoverBlocks(g, 0, g.maxlen)[i], v)
  {
    var c := CoverBlocks(g, 0, g.maxlen);
    CoverPartitionsRange(g);
    assert Holds(c[i], c[i].start) && Covered(c, c[i].start);
    BlockNameIsEdgeIffHolds(g, c[i], v);
  }

  /** A value's edges and the mincover of a range share exactly one string when the value is in the
      range and none otherwise. */
  lemma EdgesMeetCoverOnce(g: Generator, v: nat)
    requires ValidGenerator(g) && g.maxlen >= 1 && v < Pow2(g.maxlen)
    ensures |SharedEdges(g, v)| == if g.rangeMin <= v <= g.rangeMax then 1 else 0
  {
    var c, names, shared := CoverBlocks(g, 0, g.maxlen), CoverNames(g, 0, g.maxlen), SharedEdges(g, v);
    CoverPartitionsRange(g);
    forall i | 0 <= i < |c|
      ensures |names| == |c| && (names[i] in shared <==> Holds(c[i], v))
    {
      SharedIffHolds(g, v, i);
    }
    OnlyOneShared(c, names, shared, v);
    assert Covered(c, v) <==> g.rangeMin <= v <= g.rangeMax;
  }

  lemma OnlyOneShared(c: seq<Block>, names: seq<string>, shared: set<string>, v: nat)
    requires |names| == |c|
    requires forall e :: e in shared ==> e in names
    requires forall i :: 0 <= i < |c| ==> (names[i] in shared <==> Holds(c[i], v))
    requires forall i, j :: 0 <= i < j < |c| ==> c[i].start + Pow2(c[i].masked) <= c[j].start
    ensures |shared| == if Covered(c, v) then 1 else 0
  {
    if Covered(c, v) {
      var k :| 0 <= k < |c| && Holds(c[k], v);
      forall e | e in shared
        ensures e == names[k]
      {
        var i :| 0 <= i < |names| && names[i] == e;
        assert Holds(c[i], v);
        assert i == k;
      }
      assert shared == {names[k]};
    } else {
      assert shared == {};
    }
  }

  /** Different blocks of the cover have different names: a shared name would make the later block hold
      the first value of the earlier one. */
  lemma CoverNamesDiffer(g: Generator, i: nat, j: nat)
    requires ValidGenerator(g) && g.maxlen >= 1 && i < j < |CoverBlocks(g, 0, g.maxlen)|
    ensures CoverNames(g, 0, g.maxlen)[i] != CoverNames(g, 0, g.maxlen)[j]
  {
    var c := CoverBlocks(g, 0, g.maxlen);
    var x := c[i].start;
    CoverPartitionsRange(g);
    assert Holds(c[i], x) && Covered(c, x);
    SharedIffHolds(g, x, i);
    SharedIffHolds(g, x, j);
  }

  /** Neither list repeats a string, so one shared string is one matching pair. */
  lemma IndexListsDistinct(g: Generator, v: nat)
    requires ValidGenerator(g) && g.maxlen >= 1 && v < Pow2(g.maxlen)
    ensures Distinct(EdgeStrings(BitString(v, g.maxlen), g.sparsity, g.trimFactor))
    ensures Distinct(CoverNames(g, 0, g.maxlen))
  {
    EdgesDistinct(BitString(v, g.maxlen), g.sparsity, g.trimFactor);
    forall i, j | 0 <= i < j < |CoverNames(g, 0, g.maxlen)|
      ensures CoverNames(g, 0, g.maxlen)[i] != CoverNames(g, 0, g.maxlen)[j]
    {
      CoverNamesDiffer(g, i, j);
    }
  }

  // ----- maximal blocks

  /** A stored block inside the range that meets a block of the cover lies inside that block: the
      recursion stopped at the largest stored blocks. */
  lemma {:induction false} CoverBlocksMaximal(g: Generator, start: nat, m: nat, b: Block, t: Block, v: nat)
    requires g.sparsity >= 1 && m <= g.maxlen && AlignedAt(start, m)
    requires b in CoverBlocks(g, start, m) && t.masked <= m && StoredBlock(g, t)
    requires g.rangeMin <= t.start && t.start + Pow2(t.masked) - 1 <= g.rangeMax
    requires Holds(t, v) && Holds(b, v) && Holds(Block(start, m), v)
    ensures Inside(t, b)
    decreases m
  {
    AlignedNest(t.start, t.masked, start, m, v);
    var half := CoverMember(g, start, m, b);
    if !Emits(g, start, m) {
      NotWholeNode(g, start, m, t, v);
      SubcoverInside(g, half, m - 1, b);
      InsideHolds(b, Block(half, m - 1), v);
      CoverBlocksMaximal(g, half, m - 1, b, t, v);
    }
  }

  lemma InsideHolds(a: Block, b: Block, v: nat)
    requires Inside(a, b) && Holds(a, v)
    ensures Holds(b, v)
  {
  }

  predicate Inside(a: Block, b: Block) {
    b.start <= a.start && a.start + Pow2(a.masked) <= b.start + Pow2(b.masked)
  }

  /** A stored block inside the range is not a node that the recursion had to split. */
  lemma NotWholeNode(g: Generator, start: nat, m: nat, t: Block, v: nat)
    requires g.sparsity >= 1 && m <= g.maxlen && AlignedAt(start, m) && !Emits(g, start, m)
    requires t.masked <= m && StoredBlock(g, t) && Holds(t, v) && Holds(Block(start, m), v)
    requires g.rangeMin <= t.start && t.start + Pow2(t.masked) - 1 <= g.rangeMax
    ensures t.masked < m
  {
    if t.masked == m {
      AlignedNest(start, m, t.start, m, v);
    }
  }

  /** The blocks emitted below a node lie inside the node. */
  lemma {:induction false} SubcoverInside(g: Generator, start: nat, m: nat, b: Block)
    requires g.sparsity >= 1 && m <= g.maxlen && AlignedAt(start, m)
    requires b in CoverBlocks(g, start, m)
    ensures Inside(b, Block(start, m))
    decreases m
  {
    var half := CoverMember(g, start, m, b);
    if !Emits(g, start, m) {
      SubcoverInside(g, half, m - 1, b);
    }
  }

  lemma {:induction false} SubsetCardinality<T>(a: set<T>, b: set<T>)
    requires a <= b
    ensures |a| <= |b|
  {
    if a != {} {
      var x :| x in a;
      SubsetCardinality(a - {x}, b - {x});
    }
  }

  /** Choosing different members for the first n indices gives n members. */
  lemma {:induction false} DistinctImage<T(!new)>(f: nat -> T, n: nat)
    requires forall i: nat, j: nat :: i < j < n ==> f(i) != f(j)
    ensures |set i: nat | i < n :: f(i)| == n
  {
    if n > 0 {
      DistinctImage(f, n - 1);
      var prev := set i: nat | i < n - 1 :: f(i);
      assert (set i: nat | i < n :: f(i)) == prev + {f(n - 1)};
      assert f(n - 1) !in prev;
    }
  }

  // ----- what the insert side stores

  /** The insert side stores the block: its name is an edge of every value that it holds. */
  ghost predicate NamesItsValues(g: Generator, b: Block)
    requires g.sparsity >= 1 && b.masked <= g.maxlen
  {
    forall v: nat :: Holds(b, v) ==>
      BlockName(g, b) in EdgeStrings(BitString(v, g.maxlen), g.sparsity, g.trimFactor)
  }

  predicate InDomain(g: Generator, b: Block) {
    b.masked <= g.maxlen && b.start + Pow2(b.masked) <= Pow2(g.maxlen)
  }

  /** The aligned block that holds v. */
  function BlockAround(v: nat, m: nat): Block {
    Block(Shr(v, m) * Pow2(m), m)
  }

  lemma {:induction false} AroundIsAligned(v: nat, m: nat)
    ensures Aligned(BlockAround(v, m)) && Holds(BlockAround(v, m), v)
    ensures Shr(BlockAround(v, m).start, m) == Shr(v, m)
  {
    if m > 0 {
      var half := Shr(v, m) * Pow2(m - 1);
      AroundIsAligned(v / 2, m - 1);
      MulAssociate(2, half, 1);
      assert BlockAround(v, m).start == 2 * half;
      assert BlockAround(v, m).start / 2 == half && BlockAround(v, m).start % 2 == 0;
    }
  }

  /** An aligned block that begins in the domain ends in it. */
  lemma AlignedInDomain(g: Generator, b: Block)
    requires b.masked <= g.maxlen && b.start < Pow2(g.maxlen) && Aligned(b)
    ensures InDomain(g, b)
  {
    ZeroAligned(g.maxlen);
    AlignedNest(b.start, b.masked, 0, g.maxlen, b.start);
  }

  /** Only aligned blocks name their values: the first and the last one share a prefix. */
  lemma NamingIsAligned(g: Generator, b: Block)
    requires ValidGenerator(g) && g.maxlen >= 1 && InDomain(g, b) && NamesItsValues(g, b)
    ensures Aligned(b)
  {
    var m, last := b.masked, b.start + Pow2(b.masked) - 1;
    assert Holds(b, last);
    NamedBlockPrefix(g, b, last);
    AroundIsAligned(b.start, m);
    HoldsIffSamePrefix(BlockAround(b.start, m).start, m, last);
  }

  lemma StoredNamesItsValues(g: Generator, b: Block)
    requires ValidGenerator(g) && g.maxlen >= 1 && InDomain(g, b) && StoredBlock(g, b)
    ensures NamesItsValues(g, b)
  {
    forall v: nat | Holds(b, v)
      ensures BlockName(g, b) in EdgeStrings(BitString(v, g.maxlen), g.sparsity, g.trimFactor)
    {
      BlockNameIsEdgeIffHolds(g, b, v);
    }
  }

  /** The stored blocks of the query side are exactly the blocks that the insert side stores. */
  lemma StoredIffNamesItsValues(g: Generator, b: Block)
    requires ValidGenerator(g) && g.maxlen >= 1 && InDomain(g, b)
    ensures StoredBlock(g, b) <==> NamesItsValues(g, b)
  {
    if StoredBlock(g, b) {
      StoredNamesItsValues(g, b);
    } else if NamesItsValues(g, b) {
      var level, x := g.maxlen - b.masked, b.start;
      NamingIsAligned(g, b);
      assert Holds(b, x);
      var l := EdgeIsStoredAncestor(x, g.maxlen, g.sparsity, g.trimFactor, BlockName(g, b));
      ShrLess(x, l, g.maxlen - l);
      ShrLess(x, level, b.masked);
      NodeNameInjective(level, Shr(x, b.masked), l, Shr(x, g.maxlen - l));
    }
  }

  /** An edge of a value is the name of the stored block around it. */
  lemma EdgeNamesBlock(g: Generator, v: nat, e: string) returns (t: Block)
    requires ValidGenerator(g) && g.maxlen >= 1 && v < Pow2(g.maxlen)
    requires e in EdgeStrings(BitString(v, g.maxlen), g.sparsity, g.trimFactor)
    ensures StoredBlock(g, t) && InDomain(g, t) && Holds(t, v) && e == BlockName(g, t)
  {
    var level := EdgeIsStoredAncestor(v, g.maxlen, g.sparsity, g.trimFactor, e);
    t := BlockAround(v, g.maxlen - level);
    AroundIsAligned(v, g.maxlen - level);
    AlignedInDomain(g, t);
  }

  // ----- minimum cardinality

  ghost predicate MeetsEdges(g: Generator, s: set<string>, v: nat)
    requires g.sparsity >= 1
  {
    exists e :: e in s && e in EdgeStrings(BitString(v, g.maxlen), g.sparsity, g.trimFactor)
  }

  /** A set of strings that answers the range: it meets the edges of exactly the values in the range. */
  ghost predicate AnswersRange(g: Generator, s: set<string>)
    requires g.sparsity >= 1
  {
    forall v: nat :: v < Pow2(g.maxlen) ==> (MeetsEdges(g, s, v) <==> g.rangeMin <= v <= g.rangeMax)
  }

  /** The string names an aligned block inside the given one. */
  ghost predicate NamesInside(g: Generator, e: string, c: Block) {
    exists t: Block :: InDomain(g, t) && e == BlockName(g, t) && Aligned(t) && Inside(t, c)
  }

  /** What a set that answers the range shares with the first value of a block of the cover names a block
      inside that block. */
  lemma AnswerInside(g: Generator, s: set<string>, i: nat) returns (e: string)
    requires ValidGenerator(g) && g.maxlen >= 1 && AnswersRange(g, s)
    requires i < |CoverBlocks(g, 0, g.maxlen)|
    ensures e in s && NamesInside(g, e, CoverBlocks(g, 0, g.maxlen)[i])
  {
    var c := CoverBlocks(g, 0, g.maxlen)[i];
    CoverBlockInRange(g, i);
    assert MeetsEdges(g, s, c.start);
    e :| e in s && e in EdgeStrings(BitString(c.start, g.maxlen), g.sparsity, g.trimFactor);
    var t := EdgeNamesBlock(g, c.start, e);
    var last := t.start + Pow2(t.masked) - 1;
    StoredIffNamesItsValues(g, t);
    assert Holds(t, t.start) && Holds(t, last);
    assert MeetsEdges(g, s, t.start) && MeetsEdges(g, s, last);
    ZeroAligned(g.maxlen);
    CoverBlocksMaximal(g, 0, g.maxlen, c, t, c.start);
  }

  /** Aligned blocks of one name have the first value in common. */
  lemma SameNameMeets(g: Generator, x: Block, y: Block)
    requires InDomain(g, x) && Aligned(x) && InDomain(g, y) && Aligned(y)
    requires BlockName(g, x) == BlockName(g, y)
    ensures Holds(y, x.start)
  {
    ShrLess(x.start, g.maxlen - x.masked, x.masked);
    ShrLess(y.start, g.maxlen - y.masked, y.masked);
    NodeNameInjective(g.maxlen - x.masked, Shr(x.start, x.masked), g.maxlen - y.masked, Shr(y.start, y.masked));
    HoldsIffSamePrefix(y.start, y.masked, x.start);
  }

  /** So different blocks of the cover need different strings. */
  lemma AnswersDiffer(g: Generator, e: string, a: Block, b: Block)
    requires NamesInside(g, e, a) && NamesInside(g, e, b)
    ensures a.start + Pow2(a.masked) > b.start
  {
    var x: Block :| InDomain(g, x) && e == BlockName(g, x) && Aligned(x) && Inside(x, a);
    var y: Block :| InDomain(g, y) && e == BlockName(g, y) && Aligned(y) && Inside(y, b);
    SameNameMeets(g, x, y);
  }

  ghost function AnswerFor(g: Generator, s: set<string>, c: Block): string
    requires exists e :: e in s && NamesInside(g, e, c)
  {
    var e :| e in s && NamesInside(g, e, c);
    e
  }

  /** No set of strings that answers the range over what the insert side stores is smaller than the
      mincover. */
  lemma NoSmallerAnswer(g: Generator, s: set<string>)
    requires ValidGenerator(g) && AnswersRange(g, s)
    ensures |CoverNames(g, 0, g.maxlen)| <= |s|
  {
    if g.maxlen == 0 {
      assert MeetsEdges(g, s, 0);
    } else {
      var c := CoverBlocks(g, 0, g.maxlen);
      var pick := (i: nat) =>
        if i < |c| && exists e :: e in s && NamesInside(g, e, c[i]) then AnswerFor(g, s, c[i]) else "";
      CoverPartitionsRange(g);
      forall i: nat | i < |c|
        ensures pick(i) in s && NamesInside(g, pick(i), c[i])
      {
        var e := AnswerInside(g, s, i);
      }
      forall i: nat, j: nat | i < j < |c|
        ensures pick(i) != pick(j)
      {
        if pick(i) == pick(j) {
          AnswersDiffer(g, pick(i), c[i], c[j]);
        }
      }
      DistinctImage(pick, |c|);
      SubsetCardinality(set i: nat | i < |c| :: pick(i), s);
    }
  }

  ghost predicate InUnion(s: set<Block>, v: nat) {
    exists b :: b in s && Holds(b, v)
  }

  lemma {:induction false} ImageCardinality(g: Generator, s: set<Block>)
    requires forall b :: b in s ==> b.masked <= g.maxlen
    ensures |set b | b in s :: BlockName(g, b)| <= |s|
  {
    if s != {} {
      var x :| x in s;
      ImageCardinality(g, s - {x});
      assert (set b | b in s :: BlockName(g, b)) == (set b | b in s - {x} :: BlockName(g, b)) + {BlockName(g, x)};
    }
  }

  /** In particular no set of blocks that the insert side stores, with the range as its union, has fewer
      members. */
  lemma CoverIsMinimum(g: Generator, s: set<Block>)
    requires ValidGenerator(g)
    requires forall b :: b in s ==> b.masked <= g.maxlen && NamesItsValues(g, b)
    requires forall v: nat :: InUnion(s, v) <==> g.rangeMin <= v <= g.rangeMax
    ensures |CoverBlocks(g, 0, g.maxlen)| <= |s|
  {
    if g.maxlen == 0 {
      assert InUnion(s, 0);
      return;
    }
    var names := set b | b in s :: BlockName(g, b);
    forall b | b in s
      ensures InDomain(g, b) && StoredBlock(g, b)
    {
      var last := b.start + Pow2(b.masked) - 1;
      assert Holds(b, last) && InUnion(s, last);
      StoredIffNamesItsValues(g, b);
    }
    forall v: nat | v < Pow2(g.maxlen)
      ensures MeetsEdges(g, names, v) <==> InUnion(s, v)
    {
      forall b | b in s
        ensures BlockName(g, b) in EdgeStrings(BitString(v, g.maxlen), g.sparsity, g.trimFactor) <==> Holds(b, v)
      {
        BlockNameIsEdgeIffHolds(g, b, v);
      }
    }
    NoSmallerAnswer(g, names);
    ImageCardinality(g, s);
  }
}

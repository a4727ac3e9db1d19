/** The mincover of a range: a recursive dyadic cover restricted to the stored levels. */
module RangeMinCover {
  import opened Common
  import opened Bits
  import opened RangeEdges

  datatype Generator = Generator(
    rangeMin: nat, rangeMax: nat, sparsity: nat, trimFactor: nat, maxlen: nat)

  /** What a constructed generator satisfies. */
  predicate ValidGenerator(g: Generator) {
    && g.rangeMin <= g.rangeMax < Pow2(g.maxlen)
    && g.sparsity >= 1
    && ValidTrim(g.trimFactor, g.maxlen)
  }

  /** The aligned block of 2^masked values that starts at `start`. */
  datatype Block = Block(start: nat, masked: nat)

  predicate Holds(b: Block, v: nat) {
    b.start <= v < b.start + Pow2(b.masked)
  }

  /** The low m bits of start are zero. */
  predicate AlignedAt(start: nat, m: nat) {
    m == 0 || (start % 2 == 0 && AlignedAt(start / 2, m - 1))
  }

  predicate Aligned(b: Block) {
    AlignedAt(b.start, b.masked)
  }

  /** Replaces the low bits with ones; the other bits stay. */
  function ApplyMask(value: nat, maskedBits: nat): nat {
    if maskedBits == 0 then value else 2 * ApplyMask(value / 2, maskedBits - 1) + 1
  }

  /** value | (1 << k) */
  function SetBit(value: nat, k: nat): nat {
    if Shr(value, k) % 2 == 1 then value else value + Pow2(k)
  }

  predicate IsLevelStored(g: Generator, maskedBits: nat)
    requires g.sparsity >= 1 && maskedBits <= g.maxlen
  {
    var level := g.maxlen - maskedBits;
    maskedBits == 0 || (level >= g.trimFactor && level % g.sparsity == 0)
  }

  /** The blocks emitted below one node, in the order of the recursion. */
  function CoverBlocks(g: Generator, start: nat, maskedBits: nat): (blocks: seq<Block>)
    requires g.sparsity >= 1 && maskedBits <= g.maxlen
    ensures forall i :: 0 <= i < |blocks| ==> blocks[i].masked <= maskedBits
    decreases maskedBits
  {
    var end := ApplyMask(start, maskedBits);
    if end < g.rangeMin || start > g.rangeMax then []
    else if start >= g.rangeMin && end <= g.rangeMax && IsLevelStored(g, maskedBits) then
      [Block(start, maskedBits)]
    else if maskedBits == 0 then assert false; []
    else CoverBlocks(g, start, maskedBits - 1) + CoverBlocks(g, SetBit(start, maskedBits - 1), maskedBits - 1)
  }

  function BlockName(g: Generator, b: Block): string
    requires b.masked <= g.maxlen
  {
    NodeName(g.maxlen - b.masked, Shr(b.start, b.masked))
  }

  /** The names of a list of blocks. */
  function BlockNames(g: Generator, blocks: seq<Block>): seq<string>
    requires forall i :: 0 <= i < |blocks| ==> blocks[i].masked <= g.maxlen
  {
    seq(|blocks|, i requires 0 <= i < |blocks| => BlockName(g, blocks[i]))
  }

  /** The edge strings of the cover below one node. */
  function CoverNames(g: Generator, start: nat, maskedBits: nat): seq<string>
    requires g.sparsity >= 1 && maskedBits <= g.maxlen
  {
    BlockNames(g, CoverBlocks(g, start, maskedBits))
  }

  /** Naming goes through concatenation, so the names come in the order in which the recursion meets them. */
  lemma BlockNamesConcat(g: Generator, a: seq<Block>, b: seq<Block>)
    requires forall i :: 0 <= i < |a| ==> a[i].masked <= g.maxlen
    requires forall i :: 0 <= i < |b| ==> b[i].masked <= g.maxlen
    ensures BlockNames(g, a + b) == BlockNames(g, a) + BlockNames(g, b)
  {
  }

  /** The names of one call of the recursion, from those of its two calls. */
  lemma CoverNamesStep(g: Generator, start: nat, m: nat)
    requires g.sparsity >= 1 && m <= g.maxlen
    ensures var end := ApplyMask(start, m);
            CoverNames(g, start, m) ==
            if end < g.rangeMin || start > g.rangeMax then []
            else if start >= g.rangeMin && end <= g.rangeMax && IsLevelStored(g, m) then
              [BlockName(g, Block(start, m))]
            else if m == 0 then []
            else CoverNames(g, start, m - 1) + CoverNames(g, SetBit(start, m - 1), m - 1)
  {
    if m > 0 {
      BlockNamesConcat(g, CoverBlocks(g, start, m - 1), CoverBlocks(g, SetBit(start, m - 1), m - 1));
    }
  }

  // ----- the operations

  /** At most n characters of s. */
  function StrNDup(s: string, n: nat): string {
    if n < |s| then s[..n] else s
  }

  /** Takes the tail of the full-width bit string of the shifted start. */
  method ToString(g: Generator, width: nat, start: nat, maskedBits: nat) returns (s: string)
    requires maskedBits <= g.maxlen <= width && 0 < width
    ensures s == BlockName(g, Block(start, maskedBits))
  {
    if maskedBits == g.maxlen {
      return "root";
    }
    var valueBin := BitstringOf(Shr(start, maskedBits), width);
    s := StrNDup(valueBin[width - g.maxlen + maskedBits..], g.maxlen + maskedBits);
    BitStringSuffix(Shr(start, maskedBits), width, g.maxlen - maskedBits);
  }

  /** The array of edge strings that the recursion appends to. */
  class EdgeArray {
    var items: seq<string>

    constructor ()
      ensures items == []
    {
      items := [];
    }

    method Append(s: string)
      modifies this
      ensures items == old(items) + [s]
    {
      items := items + [s];
    }
  }

  method MinCoverRec(g: Generator, width: nat, c: EdgeArray, blockStart: nat, maskedBits: nat)
    requires g.sparsity >= 1 && maskedBits <= g.maxlen <= width && 0 < width
    modifies c
    ensures c.items == old(c.items) + CoverNames(g, blockStart, maskedBits)
    decreases maskedBits
  {
    CoverNamesStep(g, blockStart, maskedBits);
    var blockEnd := ApplyMask(blockStart, maskedBits);
    if blockEnd < g.rangeMin || blockStart > g.rangeMax {
      return;
    }
    if blockStart >= g.rangeMin && blockEnd <= g.rangeMax && IsLevelStored(g, maskedBits) {
      var edge := ToString(g, width, blockStart, maskedBits);
      c.Append(edge);
      return;
    }
    assert maskedBits > 0;
    var newBits := maskedBits - 1;
    MinCoverRec(g, width, c, blockStart, newBits);
    MinCoverRec(g, width, c, SetBit(blockStart, newBits), newBits);
  }

  method MinCover(g: Generator, width: nat) returns (edges: seq<string>)
    requires g.sparsity >= 1 && g.maxlen <= width && 0 < width
    ensures edges == CoverNames(g, 0, g.maxlen)
  {
    var c := new EdgeArray();
    MinCoverRec(g, width, c, 0, g.maxlen);
    edges := c.items;
  }

  method GeneratorNew(rangeMin: nat, rangeMax: nat, max: nat, width: nat, sparsity: nat, trimFactorOpt: Option<int>)
    returns (r: Result<Generator>)
    requires 0 < width && max < Pow2(width)
    ensures r == GeneratorFor(rangeMin, rangeMax, max, sparsity, trimFactorOpt)
    ensures r.Ok? ==> ValidGenerator(r.value) && r.value.maxlen <= width
  {
    if rangeMin > rangeMax || rangeMax > max || sparsity == 0 {
      return Err;
    }
    var zeros := LeadingZerosOf(max, width);
    var maxlen := width - zeros;
    BitLengthBounds(max);
    var trimFactor := TrimFactorDefault(maxlen, trimFactorOpt);
    if trimFactor != 0 && trimFactor >= maxlen {
      return Err;
    }
    if trimFactor < 0 {
      return Err;
    }
    r := Ok(Generator(rangeMin, rangeMax, sparsity, trimFactor, maxlen));
  }

  /** A generator exists exactly for an ordered range inside the domain, a positive sparsity and a
      valid trim factor. */
  function GeneratorFor(rangeMin: nat, rangeMax: nat, max: nat, sparsity: nat, trimFactorOpt: Option<int>)
    : Result<Generator>
  {
    var maxlen := BitLength(max);
    var trimFactor := TrimFactorDefault(maxlen, trimFactorOpt);
    if rangeMin <= rangeMax <= max && sparsity >= 1 && ValidTrim(trimFactor, maxlen) then
      Ok(Generator(rangeMin, rangeMax, sparsity, trimFactor, maxlen))
    else Err
  }

  // ----- block arithmetic

  lemma {:induction false} AlignedMask(start: nat, m: nat)
    requires AlignedAt(start, m)
    ensures ApplyMask(start, m) == start + Pow2(m) - 1
  {
    if m > 0 {
      AlignedMask(start / 2, m - 1);
    }
  }

  /** The two halves of an aligned block. */
  lemma {:induction false} AlignedHalves(start: nat, m: nat)
    requires m > 0 && AlignedAt(start, m)
    ensures AlignedAt(start, m - 1)
    ensures SetBit(start, m - 1) == start + Pow2(m - 1)
    ensures AlignedAt(start + Pow2(m - 1), m - 1)
  {
    if m > 1 {
      AlignedHalves(start / 2, m - 1);
      assert (start + Pow2(m - 1)) / 2 == start / 2 + Pow2(m - 2);
      assert Shr(start, m - 1) == Shr(start / 2, m - 2);
    }
  }

  lemma {:induction false} ZeroAligned(m: nat)
    ensures AlignedAt(0, m)
  {
    if m > 0 {
      ZeroAligned(m - 1);
    }
  }

  /** Membership in an aligned block is agreement on the shifted bits. */
  lemma {:induction false} HoldsIffSamePrefix(start: nat, m: nat, v: nat)
    requires AlignedAt(start, m)
    ensures Holds(Block(start, m), v) <==> Shr(v, m) == Shr(start, m)
  {
    if m > 0 {
      HoldsIffSamePrefix(start / 2, m - 1, v / 2);
    }
  }

  /** Of two aligned blocks with a common value, the smaller lies inside the larger. */
  lemma {:induction false} AlignedNest(a: nat, m: nat, b: nat, n: nat, v: nat)
    requires AlignedAt(a, m) && AlignedAt(b, n) && m <= n
    requires Holds(Block(a, m), v) && Holds(Block(b, n), v)
    ensures b <= a && a + Pow2(m) <= b + Pow2(n)
  {
    if m > 0 {
      AlignedNest(a / 2, m - 1, b / 2, n - 1, v / 2);
    }
  }
}

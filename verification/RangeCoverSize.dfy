/** How many edges a mincover can have. */
module RangeCoverSize {
  import opened Common
  import opened Bits
  import opened RangeMinCover
  import opened RangeIndex

  /** Blocks emitted below a node that lies inside the range. */
  function FullCount(g: Generator, m: nat): nat
    requires g.sparsity >= 1 && m <= g.maxlen
  {
    if m == 0 || IsLevelStored(g, m) then 1 else 2 * FullCount(g, m - 1)
  }

  /** Bound on the blocks emitted below a node that one end of the range cuts: on every level down at
      most one child is cut again and at most one lies inside. */
  function OneSided(g: Generator, m: nat): nat
    requires g.sparsity >= 1 && m <= g.maxlen
  {
    if m == 0 then 0 else FullCount(g, m - 1) + OneSided(g, m - 1)
  }

  /** One step of the recursion, by the number of blocks. */
  lemma SizeStep(g: Generator, start: nat, m: nat)
    requires g.sparsity >= 1 && m <= g.maxlen && AlignedAt(start, m)
    ensures Outside(g, start, m) ==> |CoverBlocks(g, start, m)| == 0
    ensures !Outside(g, start, m) && Emits(g, start, m) ==> |CoverBlocks(g, start, m)| == 1
    ensures !Outside(g, start, m) && !Emits(g, start, m) ==>
              && m > 0
              && AlignedAt(start, m - 1) && AlignedAt(start + Pow2(m - 1), m - 1)
              && |CoverBlocks(g, start, m)|
              == |CoverBlocks(g, start, m - 1)| + |CoverBlocks(g, start + Pow2(m - 1), m - 1)|
  {
    CoverStep(g, start, m);
  }

  lemma {:induction false} CountInside(g: Generator, start: nat, m: nat)
    requires g.sparsity >= 1 && m <= g.maxlen && AlignedAt(start, m)
    requires g.rangeMin <= start && start + Pow2(m) - 1 <= g.rangeMax
    ensures |CoverBlocks(g, start, m)| == FullCount(g, m)
    decreases m
  {
    SizeStep(g, start, m);
    if !Emits(g, start, m) {
      CountInside(g, start, m - 1);
      CountInside(g, start + Pow2(m - 1), m - 1);
    }
  }

  /** Only the lower end of the range cuts the node. */
  lemma {:induction false} CountLowerCut(g: Generator, start: nat, m: nat)
    requires g.sparsity >= 1 && m <= g.maxlen && AlignedAt(start, m)
    requires start < g.rangeMin && start + Pow2(m) - 1 <= g.rangeMax
    ensures |CoverBlocks(g, start, m)| <= OneSided(g, m)
    decreases m
  {
    SizeStep(g, start, m);
    if !Outside(g, start, m) {
      var mid := start + Pow2(m - 1);
      CountLowerCut(g, start, m - 1);
      if g.rangeMin <= mid {
        CountInside(g, mid, m - 1);
      } else {
        SizeStep(g, start, m - 1);
        CountLowerCut(g, mid, m - 1);
      }
    }
  }

  /** Only the upper end of the range cuts the node. */
  lemma {:induction false} CountUpperCut(g: Generator, start: nat, m: nat)
    requires g.sparsity >= 1 && m <= g.maxlen && AlignedAt(start, m)
    requires g.rangeMin <= start && g.rangeMax < start + Pow2(m) - 1
    ensures |CoverBlocks(g, start, m)| <= OneSided(g, m)
    decreases m
  {
    SizeStep(g, start, m);
    if !Outside(g, start, m) {
      var mid := start + Pow2(m - 1);
      CountUpperCut(g, mid, m - 1);
      if mid - 1 <= g.rangeMax {
        CountInside(g, start, m - 1);
      } else {
        SizeStep(g, mid, m - 1);
        CountUpperCut(g, start, m - 1);
      }
    }
  }

  /** Both ends of the range cut the node. */
  lemma {:induction false} CountBothCut(g: Generator, start: nat, m: nat)
    requires g.sparsity >= 1 && m <= g.maxlen && AlignedAt(start, m)
    requires start < g.rangeMin <= g.rangeMax < start + Pow2(m) - 1
    ensures |CoverBlocks(g, start, m)| <= 2 * OneSided(g, m)
    decreases m
  {
    SizeStep(g, start, m);
    if !Outside(g, start, m) {
      var mid := start + Pow2(m - 1);
      if g.rangeMin >= mid {
        SizeStep(g, start, m - 1);
        if g.rangeMin == mid {
          CountUpperCut(g, mid, m - 1);
        } else {
          CountBothCut(g, mid, m - 1);
        }
      } else if g.rangeMax < mid {
        SizeStep(g, mid, m - 1);
        if g.rangeMax == mid - 1 {
          CountLowerCut(g, start, m - 1);
        } else {
          CountBothCut(g, start, m - 1);
        }
      } else {
        CountLowerCut(g, start, m - 1);
        CountUpperCut(g, mid, m - 1);
      }
    }
  }

  /** For every sparsity and trim factor: a cover of the whole domain, or two one-sided covers. */
  lemma CoverSizeGeneral(g: Generator)
    requires ValidGenerator(g)
    ensures |CoverBlocks(g, 0, g.maxlen)| <= Max(FullCount(g, g.maxlen), 2 * OneSided(g, g.maxlen))
  {
    ZeroAligned(g.maxlen);
    var top := Pow2(g.maxlen) - 1;
    if g.rangeMin == 0 && g.rangeMax == top {
      CountInside(g, 0, g.maxlen);
    } else if g.rangeMin == 0 {
      CountUpperCut(g, 0, g.maxlen);
    } else if g.rangeMax == top {
      CountLowerCut(g, 0, g.maxlen);
    } else {
      CountBothCut(g, 0, g.maxlen);
    }
  }

  // ----- closed form without trimming

  /** Levels from the node down to the next stored level. */
  function Distance(g: Generator, m: nat): (d: nat)
    requires g.sparsity >= 1 && m <= g.maxlen
    ensures d <= m
  {
    if m == 0 || IsLevelStored(g, m) then 0 else 1 + Distance(g, m - 1)
  }

  lemma {:induction false} FullCountIsPower(g: Generator, m: nat)
    requires g.sparsity >= 1 && m <= g.maxlen
    ensures FullCount(g, m) == Pow2(Distance(g, m))
  {
    if !(m == 0 || IsLevelStored(g, m)) {
      FullCountIsPower(g, m - 1);
    }
  }

  lemma ModSuccessor(x: nat, s: nat)
    requires s >= 1
    ensures (x + 1) % s == if x % s + 1 == s then 0 else x % s + 1
  {
    var q, r := x / s, x % s;
    DivModLaw(x, s);
    if r + 1 == s {
      MulDistribute(q, 1, s);
      DivUnique(x + 1, s, q + 1, 0);
    } else {
      DivUnique(x + 1, s, q, r + 1);
    }
  }

  /** Without trimming, the next stored level is the next multiple of the sparsity or the leaf level. */
  lemma {:induction false} DistanceClosed(g: Generator, m: nat)
    requires g.sparsity >= 1 && m <= g.maxlen && g.trimFactor == 0
    ensures var r := (g.maxlen - m) % g.sparsity;
            Distance(g, m) == if r == 0 then 0 else Min(g.sparsity - r, m)
  {
    if !(m == 0 || IsLevelStored(g, m)) {
      DistanceClosed(g, m - 1);
      ModSuccessor(g.maxlen - m, g.sparsity);
      assert g.maxlen - m + 1 == g.maxlen - (m - 1);
      DivModLaw(g.maxlen - m, g.sparsity);
    }
  }

  /** Stored steps needed for m levels: m / sparsity rounded up. */
  function Steps(m: nat, sparsity: nat): nat
    requires sparsity >= 1
  {
    if m == 0 then 0 else 1 + Steps(if m < sparsity then 0 else m - sparsity, sparsity)
  }

  lemma {:induction false} StepsIsCeiling(m: nat, s: nat)
    requires s >= 1
    ensures Steps(m, s) == (m + s - 1) / s
  {
    if m == 0 {
      DivUnique(s - 1, s, 0, s - 1);
    } else if m < s {
      assert Steps(m, s) == 1;
      DivUnique(m + s - 1, s, 1, m - 1);
    } else {
      StepsIsCeiling(m - s, s);
      DivModLaw(m - 1, s);
      MulDistribute((m - 1) / s, 1, s);
      DivUnique(m + s - 1, s, (m - 1) / s + 1, (m - 1) % s);
    }
  }

  /** Below a stored level the next one is min(sparsity, m) levels down, one step further. */
  lemma StoredGap(g: Generator, m: nat)
    requires g.sparsity >= 1 && 0 < m <= g.maxlen && g.trimFactor == 0 && IsLevelStored(g, m)
    ensures var d := Distance(g, m - 1);
            d + 1 <= g.sparsity && Steps(m, g.sparsity) == 1 + Steps(m - 1 - d, g.sparsity)
  {
    DistanceClosed(g, m - 1);
    ModSuccessor(g.maxlen - m, g.sparsity);
    assert g.maxlen - m + 1 == g.maxlen - (m - 1);
  }

  lemma {:induction false} OneSidedBound(g: Generator, m: nat)
    requires g.sparsity >= 1 && m <= g.maxlen && g.trimFactor == 0
    ensures OneSided(g, m) <= Pow2(Distance(g, m)) - 1
                              + Steps(m - Distance(g, m), g.sparsity) * (Pow2(g.sparsity) - 1)
  {
    if m > 0 {
      var d := Distance(g, m - 1);
      OneSidedBound(g, m - 1);
      FullCountIsPower(g, m - 1);
      if IsLevelStored(g, m) {
        StoredGap(g, m);
        Pow2Monotone(d + 1, g.sparsity);
        MulDistribute(Steps(m - 1 - d, g.sparsity), 1, Pow2(g.sparsity) - 1);
      } else {
        assert m - (d + 1) == m - 1 - d;
      }
    }
  }

  /** Without trimming, at most two one-sided covers of sparsity-wide steps:
      2 * (2^sparsity - 1) * ceil(maxlen / sparsity). */
  lemma CoverSizeBound(g: Generator)
    requires ValidGenerator(g) && g.trimFactor == 0 && g.maxlen >= 1
    ensures |CoverNames(g, 0, g.maxlen)|
         <= 2 * (((g.maxlen + g.sparsity - 1) / g.sparsity) * (Pow2(g.sparsity) - 1))
  {
    var k := Pow2(g.sparsity) - 1;
    CoverSizeGeneral(g);
    OneSidedBound(g, g.maxlen);
    assert IsLevelStored(g, g.maxlen);
    assert FullCount(g, g.maxlen) == 1 && Distance(g, g.maxlen) == 0;
    StepsIsCeiling(g.maxlen, g.sparsity);
    Pow2Monotone(1, g.sparsity);
    var steps := Steps(g.maxlen, g.sparsity);
    MulLe(1, steps, k);
  }
}

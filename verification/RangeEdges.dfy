/** Edges stored for one value: the bit prefixes of its leaf at the stored levels. */
module RangeEdges {
  import opened Common
  import opened Bits

  const TRIM_FACTOR_DEFAULT := 6

  /** The trim factor used when the caller gives none; `maxlen - 1` is computed in size_t,
      so a zero length wraps and does not lower the default. */
  function TrimFactorDefault(maxlen: nat, trimFactor: Option<int>): int {
    match trimFactor
    case Some(t) => t
    case None =>
      if maxlen >= 1 && TRIM_FACTOR_DEFAULT > maxlen - 1 then maxlen - 1 else TRIM_FACTOR_DEFAULT
  }

  /** Both sides of the index accept the same trim factors. */
  predicate ValidTrim(trimFactor: int, maxlen: nat) {
    trimFactor == 0 || 0 < trimFactor < maxlen
  }

  /** The default is six, or the greatest valid factor if that is less; a given factor is taken as it is. */
  lemma DefaultTrimIsValid(maxlen: nat, given: int)
    requires maxlen >= 1
    ensures TrimFactorDefault(maxlen, None) == Min(6, maxlen - 1) && TrimFactorDefault(maxlen, Some(given)) == given
    ensures forall t :: TrimFactorDefault(maxlen, None) < t <= 6 ==> !ValidTrim(t, maxlen)
    ensures ValidTrim(TrimFactorDefault(maxlen, None), maxlen)
  {
  }

  datatype EdgeSet = EdgeSet(edges: seq<string>, leaf: string, sparsity: nat, usedTrimFactor: nat)

  /** The prefixes of the leaf whose length lies in [lo, hi) and is a multiple of the sparsity. */
  function PrefixEdges(leaf: string, sparsity: nat, lo: nat, hi: nat): seq<string>
    requires sparsity >= 1 && hi <= |leaf|
    decreases hi
  {
    if lo >= hi then []
    else PrefixEdges(leaf, sparsity, lo, hi - 1) + if (hi - 1) % sparsity == 0 then [leaf[..hi - 1]] else []
  }

  function EdgeStrings(leaf: string, sparsity: nat, trimFactor: nat): seq<string>
    requires sparsity >= 1
  {
    (if trimFactor == 0 then ["root"] else []) + [leaf]
    + PrefixEdges(leaf, sparsity, if trimFactor > 0 then trimFactor else 1, |leaf|)
  }

  method EdgesNew(leaf: string, sparsity: nat, trimFactorOpt: Option<int>) returns (r: Result<EdgeSet>)
    ensures r.Ok? <==> sparsity >= 1 && ValidTrim(TrimFactorDefault(|leaf|, trimFactorOpt), |leaf|)
    ensures r.Ok? ==>
              && r.value.usedTrimFactor == TrimFactorDefault(|leaf|, trimFactorOpt)
              && r.value.sparsity == sparsity
              && r.value.leaf == leaf
              && r.value.edges == EdgeStrings(leaf, sparsity, r.value.usedTrimFactor)
  {
    if sparsity < 1 {
      return Err;
    }
    var trimFactor := TrimFactorDefault(|leaf|, trimFactorOpt);
    if trimFactor != 0 && trimFactor >= |leaf| {
      return Err;
    }
    if trimFactor < 0 {
      return Err;
    }
    var edges: seq<string> := [];
    if trimFactor == 0 {
      edges := edges + ["root"];
    }
    edges := edges + [leaf];
    edges := AppendPrefixes(edges, leaf, sparsity, if trimFactor > 0 then trimFactor else 1);
    r := Ok(EdgeSet(edges, leaf, sparsity, trimFactor));
  }

  /** The loop over the levels between the first stored one and the leaf. */
  method AppendPrefixes(head: seq<string>, leaf: string, sparsity: nat, startLevel: nat) returns (edges: seq<string>)
    requires sparsity >= 1
    ensures edges == head + PrefixEdges(leaf, sparsity, startLevel, |leaf|)
  {
    edges := head;
    var i := startLevel;
    while i < |leaf|
      invariant startLevel <= i <= Max(startLevel, |leaf|)
      invariant edges == head + if i <= |leaf| then PrefixEdges(leaf, sparsity, startLevel, i) else []
    {
      if i % sparsity == 0 {
        edges := edges + [leaf[..i]];
      }
      i := i + 1;
    }
  }

  /** A level (prefix length) is stored when it is the leaf level, or is not trimmed and is a
      multiple of the sparsity. */
  predicate LevelStored(maxlen: nat, sparsity: nat, trimFactor: nat, level: nat)
    requires sparsity >= 1
  {
    level <= maxlen && (level == maxlen || (level >= trimFactor && level % sparsity == 0))
  }

  /** Name of the tree node with the given prefix bits. */
  function NodeName(level: nat, prefix: nat): string {
    if level == 0 then "root" else BitString(prefix, level)
  }

  /** Different nodes have different names. */
  lemma NodeNameInjective(level: nat, prefix: nat, level': nat, prefix': nat)
    requires prefix < Pow2(level) && prefix' < Pow2(level')
    requires NodeName(level, prefix) == NodeName(level', prefix')
    ensures level == level' && prefix == prefix'
  {
    assert "root"[0] == 'r';
    if level != 0 && level' != 0 {
      BitStringInjective(prefix, prefix', level);
    }
  }

  lemma {:induction false} PrefixEdgesMember(leaf: string, sparsity: nat, lo: nat, hi: nat, e: string)
    requires sparsity >= 1 && hi <= |leaf|
    ensures e in PrefixEdges(leaf, sparsity, lo, hi) <==>
            lo <= |e| < hi && |e| % sparsity == 0 && e == leaf[..|e|]
    decreases hi
  {
    if lo < hi {
      PrefixEdgesMember(leaf, sparsity, lo, hi - 1, e);
    }
  }

  lemma {:induction false} PrefixEdgesDistinct(leaf: string, sparsity: nat, lo: nat, hi: nat)
    requires sparsity >= 1 && hi <= |leaf|
    ensures Distinct(PrefixEdges(leaf, sparsity, lo, hi))
    decreases hi
  {
    if lo < hi {
      var front := PrefixEdges(leaf, sparsity, lo, hi - 1);
      PrefixEdgesDistinct(leaf, sparsity, lo, hi - 1);
      forall i | 0 <= i < |front|
        ensures front[i] != leaf[..hi - 1]
      {
        PrefixEdgesMember(leaf, sparsity, lo, hi - 1, front[i]);
      }
    }
  }

  /** e names the ancestor of v at a stored level. */
  predicate IsStoredAncestor(v: nat, maxlen: nat, sparsity: nat, trimFactor: nat, level: nat, e: string)
    requires sparsity >= 1
  {
    LevelStored(maxlen, sparsity, trimFactor, level) && e == NodeName(level, Shr(v, maxlen - level))
  }

  lemma EdgeIsStoredAncestor(v: nat, maxlen: nat, sparsity: nat, trimFactor: nat, e: string) returns (level: nat)
    requires maxlen >= 1 && sparsity >= 1 && ValidTrim(trimFactor, maxlen)
    requires e in EdgeStrings(BitString(v, maxlen), sparsity, trimFactor)
    ensures IsStoredAncestor(v, maxlen, sparsity, trimFactor, level, e)
  {
    var leaf := BitString(v, maxlen);
    var start := if trimFactor > 0 then trimFactor else 1;
    if trimFactor == 0 && e == "root" {
      return 0;
    }
    PrefixEdgesMember(leaf, sparsity, start, maxlen, e);
    level := |e|;
    BitStringSplit(v, level, maxlen - level);
    assert e == leaf[..level];
  }

  lemma StoredAncestorIsEdge(v: nat, maxlen: nat, sparsity: nat, trimFactor: nat, e: string, level: nat)
    requires maxlen >= 1 && sparsity >= 1 && ValidTrim(trimFactor, maxlen)
    requires IsStoredAncestor(v, maxlen, sparsity, trimFactor, level, e)
    ensures e in EdgeStrings(BitString(v, maxlen), sparsity, trimFactor)
  {
    var leaf := BitString(v, maxlen);
    var start := if trimFactor > 0 then trimFactor else 1;
    BitStringSplit(v, level, maxlen - level);
    if 0 < level < maxlen {
      assert e == leaf[..level] && |e| == level;
      PrefixEdgesMember(leaf, sparsity, start, maxlen, e);
      assert e in PrefixEdges(leaf, sparsity, start, maxlen);
    } else if level == maxlen {
      assert e == leaf;
    }
  }

  lemma EdgesDistinct(leaf: string, sparsity: nat, trimFactor: nat)
    requires |leaf| >= 1 && sparsity >= 1
    requires forall i :: 0 <= i < |leaf| ==> leaf[i] == '0' || leaf[i] == '1'
    ensures Distinct(EdgeStrings(leaf, sparsity, trimFactor))
  {
    var start := if trimFactor > 0 then trimFactor else 1;
    var tail := PrefixEdges(leaf, sparsity, start, |leaf|);
    PrefixEdgesDistinct(leaf, sparsity, start, |leaf|);
    forall i | 0 <= i < |tail|
      ensures tail[i] != leaf && tail[i] != "root"
    {
      PrefixEdgesMember(leaf, sparsity, start, |leaf|, tail[i]);
      assert tail[i][0] == leaf[0];
    }
    assert leaf != "root" by {
      assert leaf[0] != "root"[0];
    }
  }
}

/** From an encoded value and encoded query bounds to edge strings, for every numeric type. */
module RangeQuery {
  import opened Common
  import opened Bits
  import opened RangeEdges
  import opened RangeMinCover
  import opened RangeIndex

  /** Order-preserving encoding of a value together with the encoded domain. */
  datatype OstType = OstType(value: nat, min: nat, max: nat)

  datatype Mincover = Mincover(edges: seq<string>, usedTrimFactor: nat)

  ghost function SharedStrings(a: seq<string>, b: seq<string>): set<string> {
    set e | e in a && e in b
  }

  // ----- insert side

  function IndexEdges(code: nat, max: nat, sparsity: nat, trimFactorOpt: Option<int>): Result<EdgeSet> {
    var maxlen := BitLength(max);
    var leaf := BitString(code, maxlen);
    var trimFactor := TrimFactorDefault(maxlen, trimFactorOpt);
    if sparsity >= 1 && ValidTrim(trimFactor, maxlen) then
      Ok(EdgeSet(EdgeStrings(leaf, sparsity, trimFactor), leaf, sparsity, trimFactor))
    else Err
  }

  /** The leaf is the code over exactly as many bits as the greatest code needs, and the trim factor is the
      given one or the default. */
  lemma LeafIsCode(code: nat, max: nat, sparsity: nat, trimFactorOpt: Option<int>)
    requires 1 <= max && IndexEdges(code, max, sparsity, trimFactorOpt).Ok?
    ensures var e := IndexEdges(code, max, sparsity, trimFactorOpt).value;
            && |e.leaf| >= 1 && Pow2(|e.leaf| - 1) <= max < Pow2(|e.leaf|)
            && (forall k :: 0 <= k < |e.leaf| ==> (e.leaf[k] == '1' <==> Shr(code, |e.leaf| - 1 - k) % 2 == 1))
            && e.leaf in e.edges && e.sparsity == sparsity
            && e.usedTrimFactor == if trimFactorOpt.Some? then trimFactorOpt.value else Min(6, |e.leaf| - 1)
  {
    BitLengthBounds(max);
    var n := BitLength(max);
    DefaultTrimIsValid(n, 0);
    forall k | 0 <= k < n
      ensures BitString(code, n)[k] == '1' <==> Shr(code, n - 1 - k) % 2 == 1
    {
      BitStringDigits(code, n, k);
    }
  }

  method GetEdges(got: OstType, width: nat, sparsity: nat, trimFactorOpt: Option<int>) returns (r: Result<EdgeSet>)
    requires width > 0 && got.max < Pow2(width) && got.min == 0
    ensures r == IndexEdges(got.value, got.max, sparsity, trimFactorOpt)
  {
    var valueBin := BitstringOf(got.value, width);
    var offset := LeadingZerosOf(got.max, width);
    BitStringSuffix(got.value, width, width - offset);
    r := EdgesNew(valueBin[offset..], sparsity, trimFactorOpt);
  }

  // ----- query side

  /** Unsigned arithmetic of the given width. */
  function UAdd(width: nat, a: nat, b: nat): nat {
    (a + b) % Pow2(width)
  }

  function USub(width: nat, a: nat, b: nat): nat {
    (a - b) % Pow2(width)
  }

  /** Moves an excluded bound inwards by one. The two checks keep both updates from wrapping. */
  method AdjustBounds(
    width: nat, lowerBound: nat, includeLower: bool, min: nat, upperBound: nat, includeUpper: bool, max: nat)
    returns (ok: bool, lower: nat, upper: nat)
    requires lowerBound < Pow2(width) && upperBound < Pow2(width) && max < Pow2(width)
    ensures ok <==> (includeLower || lowerBound < max) && (includeUpper || min < upperBound)
    ensures ok ==> lower == (if includeLower then lowerBound else lowerBound + 1)
    ensures ok ==> upper == (if includeUpper then upperBound else upperBound - 1)
  {
    ok, lower, upper := true, lowerBound, upperBound;
    if !includeLower {
      if lower >= max {
        ok := false;
        return;
      }
      DivUnique(lower + 1, Pow2(width), 0, lower + 1);
      lower := UAdd(width, lower, 1);
    }
    if !includeUpper {
      if upper <= min {
        ok := false;
        return;
      }
      DivUnique(upper - 1, Pow2(width), 0, upper - 1);
      upper := USub(width, upper, 1);
    }
  }

  function IndexMincover(
    lower: nat, includeLower: bool, upper: nat, includeUpper: bool, max: nat,
    sparsity: nat, trimFactorOpt: Option<int>): Result<Mincover>
  {
    if (!includeLower && lower >= max) || (!includeUpper && upper == 0) then Err
    else
      match GeneratorFor(if includeLower then lower else lower + 1,
                         if includeUpper then upper else upper - 1, max, sparsity, trimFactorOpt)
      case Ok(g) => Ok(Mincover(CoverNames(g, 0, g.maxlen), g.trimFactor))
      case Err => Err
  }

  method GetMincover(
    a: OstType, includeLower: bool, b: OstType, includeUpper: bool, width: nat,
    sparsity: nat, trimFactorOpt: Option<int>) returns (r: Result<Mincover>)
    requires width > 0 && a.max < Pow2(width) && a.min == b.min == 0 && a.max == b.max
    requires a.value < Pow2(width) && b.value < Pow2(width)
    ensures r == IndexMincover(a.value, includeLower, b.value, includeUpper, a.max, sparsity, trimFactorOpt)
  {
    var ok, lower, upper := AdjustBounds(width, a.value, includeLower, a.min, b.value, includeUpper, b.max);
    if !ok {
      return Err;
    }
    r := CoverOf(lower, upper, a.max, width, sparsity, trimFactorOpt);
  }

  method CoverOf(lower: nat, upper: nat, max: nat, width: nat, sparsity: nat, trimFactorOpt: Option<int>)
    returns (r: Result<Mincover>)
    requires width > 0 && max < Pow2(width)
    ensures r == match GeneratorFor(lower, upper, max, sparsity, trimFactorOpt)
                 case Ok(g) => Ok(Mincover(CoverNames(g, 0, g.maxlen), g.trimFactor))
                 case Err => Err
  {
    var mcg := GeneratorNew(lower, upper, max, width, sparsity, trimFactorOpt);
    if mcg.Err? {
      return Err;
    }
    var edges := MinCover(mcg.value, width);
    r := Ok(Mincover(edges, mcg.value.trimFactor));
  }

  // ----- the two sides together

  predicate InBounds(v: int, lower: int, includeLower: bool, upper: int, includeUpper: bool) {
    (if includeLower then lower <= v else lower < v) && (if includeUpper then v <= upper else v < upper)
  }

  /** Whenever both sides succeed on the same domain and options, they use the same trim factor and
      share one string exactly when the encoded value lies within the encoded bounds. */
  lemma EncodedQueryMatches(
    code: nat, lower: nat, includeLower: bool, upper: nat, includeUpper: bool, max: nat,
    sparsity: nat, trimFactorOpt: Option<int>)
    requires 1 <= max && code <= max
    requires IndexEdges(code, max, sparsity, trimFactorOpt).Ok?
    requires IndexMincover(lower, includeLower, upper, includeUpper, max, sparsity, trimFactorOpt).Ok?
    ensures var e := IndexEdges(code, max, sparsity, trimFactorOpt).value;
            var c := IndexMincover(lower, includeLower, upper, includeUpper, max, sparsity, trimFactorOpt).value;
            && e.usedTrimFactor == c.usedTrimFactor
            && Distinct(e.edges) && Distinct(c.edges)
            && |SharedStrings(e.edges, c.edges)|
            == (if InBounds(code, lower, includeLower, upper, includeUpper) then 1 else 0)
  {
    BitLengthBounds(max);
    var e := IndexEdges(code, max, sparsity, trimFactorOpt).value;
    var g := GeneratorFor(if includeLower then lower else lower + 1,
                          if includeUpper then upper else upper - 1, max, sparsity, trimFactorOpt).value;
    assert ValidGenerator(g);
    EdgesMeetCoverOnce(g, code);
    IndexListsDistinct(g, code);
    assert SharedStrings(e.edges, CoverNames(g, 0, g.maxlen)) == SharedEdges(g, code);
  }

  /** The query side succeeds exactly for a usable configuration and a range that some code satisfies. */
  lemma MincoverSucceedsIff(
    lower: nat, includeLower: bool, upper: nat, includeUpper: bool, max: nat,
    sparsity: nat, trimFactorOpt: Option<int>)
    requires lower <= max && upper <= max
    ensures IndexMincover(lower, includeLower, upper, includeUpper, max, sparsity, trimFactorOpt).Ok? <==>
            && IndexEdges(0, max, sparsity, trimFactorOpt).Ok?
            && exists v :: 0 <= v <= max && InBounds(v, lower, includeLower, upper, includeUpper)
  {
    var first := if includeLower then lower else lower + 1;
    if IndexMincover(lower, includeLower, upper, includeUpper, max, sparsity, trimFactorOpt).Ok? {
      assert InBounds(first, lower, includeLower, upper, includeUpper);
    }
  }
}

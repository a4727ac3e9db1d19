/** Range index over signed integers of a given width (32 and 64 in the library). */
module RangeInteger {
  import opened Common
  import opened Bits
  import opened RangeEdges
  import opened RangeQuery

  predicate InWidth(v: int, width: nat)
    requires width >= 1
  {
    0 - Pow2(width - 1) <= v < Pow2(width - 1)
  }

  /** Shifts the signed range onto the unsigned range; the least value has no positive counterpart
      and is handled on its own. */
  function EncodeInt(v: int, width: nat): (r: nat)
    requires width >= 1 && InWidth(v, width)
    ensures r == v + Pow2(width - 1) && r < Pow2(width)
  {
    var newZero := Pow2(width - 1);
    if v < 0 then
      if v == 0 - newZero then 0 else newZero - v * -1
    else newZero + v
  }

  /** Every unsigned value is the code of one signed value, 0 of the least and 2^width - 1 of the greatest. */
  lemma EncodeIntOnto(code: nat, width: nat)
    requires width >= 1 && code < Pow2(width)
    ensures InWidth(code - Pow2(width - 1), width) && EncodeInt(code - Pow2(width - 1), width) == code
    ensures forall v :: InWidth(v, width) && EncodeInt(v, width) == code ==> v == code - Pow2(width - 1)
  {
  }

  datatype IntDomain = IntDomain(min: Option<int>, max: Option<int>)

  predicate DomainInWidth(d: IntDomain, width: nat)
    requires width >= 1
  {
    (d.min.Some? ==> InWidth(d.min.value, width)) && (d.max.Some? ==> InWidth(d.max.value, width))
  }

  function Lowest(d: IntDomain, width: nat): int
    requires width >= 1
  {
    if d.min.Some? then d.min.value else 0 - Pow2(width - 1)
  }

  function Highest(d: IntDomain, width: nat): int
    requires width >= 1
  {
    if d.max.Some? then d.max.value else Pow2(width - 1) - 1
  }

  /** Both bounds or neither, and the lower one smaller. */
  predicate ValidDomain(d: IntDomain) {
    d.min.Some? == d.max.Some? && (d.min.Some? ==> d.min.value < d.max.value)
  }

  /** Accepts exactly the values inside a valid domain, and encodes them by their distance from its
      least value; the unsigned subtractions do not wrap. */
  function GetTypeInfo(value: int, d: IntDomain, width: nat): (r: Result<OstType>)
    requires width >= 1 && InWidth(value, width) && DomainInWidth(d, width)
    ensures r.Ok? <==> ValidDomain(d) && Lowest(d, width) <= value <= Highest(d, width)
    ensures r.Ok? ==>
              && r.value.value == value - Lowest(d, width)
              && r.value.min == 0
              && r.value.max == Highest(d, width) - Lowest(d, width)
              && 1 <= r.value.max < Pow2(width)
  {
    if d.min.Some? != d.max.Some? then Err
    else if d.min.None? then Ok(OstType(EncodeInt(value, width), 0, Pow2(width) - 1))
    else if d.min.value >= d.max.value then Err
    else if value > d.max.value || value < d.min.value then Err
    else
      var v, lo, hi := EncodeInt(value, width), EncodeInt(d.min.value, width), EncodeInt(d.max.value, width);
      DivUnique(v - lo, Pow2(width), 0, v - lo);
      DivUnique(hi - lo, Pow2(width), 0, hi - lo);
      Ok(OstType(USub(width, v, lo), 0, USub(width, hi, lo)))
  }

  // ----- insert and query

  function IntEdges(value: int, d: IntDomain, width: nat, sparsity: nat, trimFactorOpt: Option<int>): Result<EdgeSet>
    requires width >= 1 && InWidth(value, width) && DomainInWidth(d, width)
  {
    match GetTypeInfo(value, d, width)
    case Ok(t) => IndexEdges(t.value, t.max, sparsity, trimFactorOpt)
    case Err => Err
  }

  method GetEdgesInt(value: int, d: IntDomain, width: nat, sparsity: nat, trimFactorOpt: Option<int>)
    returns (r: Result<EdgeSet>)
    requires width >= 1 && InWidth(value, width) && DomainInWidth(d, width)
    ensures r == IntEdges(value, d, width, sparsity, trimFactorOpt)
  {
    var got := GetTypeInfo(value, d, width);
    if got.Err? {
      return Err;
    }
    r := GetEdges(got.value, width, sparsity, trimFactorOpt);
  }

  datatype IntQuery = IntQuery(lower: int, includeLower: bool, upper: int, includeUpper: bool)

  predicate QueryInWidth(q: IntQuery, width: nat)
    requires width >= 1
  {
    InWidth(q.lower, width) && InWidth(q.upper, width)
  }

  /** The early checks against an explicit domain. */
  predicate CheckBounds(q: IntQuery, d: IntDomain) {
    && (d.min.Some? ==> q.upper >= d.min.value && (q.includeUpper || d.min.value < q.upper))
    && (d.max.Some? ==> d.max.value >= q.lower && (q.includeLower || q.lower < d.max.value))
  }

  function IntMincover(q: IntQuery, d: IntDomain, width: nat, sparsity: nat, trimFactorOpt: Option<int>)
    : Result<Mincover>
    requires width >= 1 && QueryInWidth(q, width) && DomainInWidth(d, width)
  {
    var a, b := GetTypeInfo(q.lower, d, width), GetTypeInfo(q.upper, d, width);
    if !CheckBounds(q, d) || a.Err? || b.Err? then Err
    else
      IndexMincover(a.value.value, q.includeLower, b.value.value, q.includeUpper, a.value.max, sparsity, trimFactorOpt)
  }

  method GetMincoverInt(q: IntQuery, d: IntDomain, width: nat, sparsity: nat, trimFactorOpt: Option<int>)
    returns (r: Result<Mincover>)
    requires width >= 1 && QueryInWidth(q, width) && DomainInWidth(d, width)
    ensures r == IntMincover(q, d, width, sparsity, trimFactorOpt)
  {
    if !CheckBounds(q, d) {
      return Err;
    }
    var a := GetTypeInfo(q.lower, d, width);
    if a.Err? {
      return Err;
    }
    var b := GetTypeInfo(q.upper, d, width);
    if b.Err? {
      return Err;
    }
    r := GetMincover(a.value, q.includeLower, b.value, q.includeUpper, width, sparsity, trimFactorOpt);
  }

  predicate Satisfies(v: int, q: IntQuery) {
    InBounds(v, q.lower, q.includeLower, q.upper, q.includeUpper)
  }

  /** End to end: when the stored value's edges and the query's mincover both succeed, they report
      the same trim factor and share one string exactly when the value satisfies the query. */
  lemma IntQueryMatches(
    v: int, q: IntQuery, d: IntDomain, width: nat, sparsity: nat, trimFactorOpt: Option<int>)
    requires width >= 1 && InWidth(v, width) && QueryInWidth(q, width) && DomainInWidth(d, width)
    requires IntEdges(v, d, width, sparsity, trimFactorOpt).Ok?
    requires IntMincover(q, d, width, sparsity, trimFactorOpt).Ok?
    ensures var e := IntEdges(v, d, width, sparsity, trimFactorOpt).value;
            var c := IntMincover(q, d, width, sparsity, trimFactorOpt).value;
            && e.usedTrimFactor == c.usedTrimFactor
            && |SharedStrings(e.edges, c.edges)| == (if Satisfies(v, q) then 1 else 0)
  {
    var t := GetTypeInfo(v, d, width).value;
    var a, b := GetTypeInfo(q.lower, d, width).value, GetTypeInfo(q.upper, d, width).value;
    EncodedQueryMatches(t.value, a.value, q.includeLower, b.value, q.includeUpper, a.max, sparsity, trimFactorOpt);
  }

  /** A query succeeds exactly when the domain, sparsity and trim factor are usable, both bounds lie
      in the domain, and some value of the domain satisfies it. */
  lemma IntMincoverSucceedsIff(q: IntQuery, d: IntDomain, width: nat, sparsity: nat, trimFactorOpt: Option<int>)
    requires width >= 1 && QueryInWidth(q, width) && DomainInWidth(d, width)
    ensures IntMincover(q, d, width, sparsity, trimFactorOpt).Ok? <==>
            && ValidDomain(d)
            && Lowest(d, width) <= q.lower <= Highest(d, width)
            && Lowest(d, width) <= q.upper <= Highest(d, width)
            && IndexEdges(0, Highest(d, width) - Lowest(d, width), sparsity, trimFactorOpt).Ok?
            && exists v :: Lowest(d, width) <= v <= Highest(d, width) && Satisfies(v, q)
  {
    var a, b := GetTypeInfo(q.lower, d, width), GetTypeInfo(q.upper, d, width);
    if a.Ok? && b.Ok? {
      ChecksAgree(q, d, width, sparsity, trimFactorOpt);
      MincoverSucceedsIff(a.value.value, q.includeLower, b.value.value, q.includeUpper, a.value.max,
                          sparsity, trimFactorOpt);
      ShiftQuery(q, Lowest(d, width), Highest(d, width), a.value.value, b.value.value);
    }
  }

  /** Once both ends are encoded, the early checks refuse nothing that the adjustment of the codes would
      not refuse. */
  lemma ChecksAgree(q: IntQuery, d: IntDomain, width: nat, sparsity: nat, trimFactorOpt: Option<int>)
    requires width >= 1 && QueryInWidth(q, width) && DomainInWidth(d, width)
    requires GetTypeInfo(q.lower, d, width).Ok? && GetTypeInfo(q.upper, d, width).Ok?
    ensures var a, b := GetTypeInfo(q.lower, d, width).value, GetTypeInfo(q.upper, d, width).value;
            IntMincover(q, d, width, sparsity, trimFactorOpt) ==
            IndexMincover(a.value, q.includeLower, b.value, q.includeUpper, a.max, sparsity, trimFactorOpt)
  {
  }

  lemma ShiftQuery(q: IntQuery, lo: int, hi: int, x: int, y: int)
    requires x == q.lower - lo && y == q.upper - lo
    ensures (exists v :: lo <= v <= hi && Satisfies(v, q)) <==>
            exists c :: 0 <= c <= hi - lo && InBounds(c, x, q.includeLower, y, q.includeUpper)
  {
    if c :| 0 <= c <= hi - lo && InBounds(c, x, q.includeLower, y, q.includeUpper) {
      assert Satisfies(c + lo, q);
    }
    if v :| lo <= v <= hi && Satisfies(v, q) {
      assert InBounds(v - lo, x, q.includeLower, y, q.includeUpper);
    }
  }
}

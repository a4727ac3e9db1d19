/** Range index over doubles without declared bounds. A double is its sign, exponent and fraction
    fields (section 3.4 of IEEE 754-2019, binary64). */
module RangeDouble {
  import opened Common
  import opened Bits
  import opened RangeEdges
  import opened RangeQuery

  const FRACTION: nat := 0x10_0000_0000_0000         // 2^52
  const NEW_ZERO: nat := 0x8000_0000_0000_0000       // 2^63
  const MAX_U64: nat := 0xFFFF_FFFF_FFFF_FFFF

  datatype Double = Double(negative: bool, exponent: nat, fraction: nat)

  predicate WellFormed(d: Double) {
    d.exponent < 2048 && d.fraction < FRACTION
  }

  /** Neither infinity nor NaN. */
  predicate Finite(d: Double) {
    d.exponent < 2047 && d.fraction < FRACTION
  }

  /** The magnitude as a multiple of 2^-1074, the least subnormal: every finite double is one. */
  function Magnitude(d: Double): nat {
    if d.exponent == 0 then d.fraction else (FRACTION + d.fraction) * Pow2(d.exponent - 1)
  }

  /** The value of a finite double, in units of 2^-1074. */
  function Value(d: Double): int {
    if d.negative then 0 - Magnitude(d) else Magnitude(d)
  }

  /** Exponent and fraction fields read as one number. */
  function Field(d: Double): nat {
    d.exponent * FRACTION + d.fraction
  }

  /** The 64-bit pattern. */
  function Pattern(d: Double): nat {
    (if d.negative then NEW_ZERO else 0) + Field(d)
  }

  /** The code of a finite double: its fields counted from the middle of the unsigned range. */
  function DoubleCode(d: Double): int {
    if Value(d) < 0 then NEW_ZERO - Field(d) else if Value(d) == 0 then NEW_ZERO else NEW_ZERO + Field(d)
  }

  lemma {:induction false} FieldOrder(a: Double, b: Double)
    requires Finite(a) && Finite(b) && Field(a) < Field(b)
    ensures Magnitude(a) < Magnitude(b)
  {
    assert a.exponent <= b.exponent;
    if a.exponent == b.exponent {
      if a.exponent > 0 {
        var p := Pow2(a.exponent - 1);
        MulLe(FRACTION + a.fraction + 1, FRACTION + b.fraction, p);
        MulDistribute(FRACTION + a.fraction, 1, p);
      }
    } else {
      var p := Pow2(b.exponent - 1);
      MulLe(FRACTION, FRACTION + b.fraction, p);
      if a.exponent > 0 {
        var q := Pow2(a.exponent - 1);
        MulLe(FRACTION + a.fraction + 1, 2 * FRACTION, q);
        MulDistribute(FRACTION + a.fraction, 1, q);
        Pow2Monotone(a.exponent, b.exponent - 1);
        assert 2 * FRACTION * q == FRACTION * Pow2(a.exponent);
        MulLe(Pow2(a.exponent), p, FRACTION);
      }
    }
  }

  lemma FieldZeroIffZero(d: Double)
    requires Finite(d)
    ensures Field(d) == 0 <==> Magnitude(d) == 0
  {
    var zero := Double(false, 0, 0);
    if Field(d) > 0 {
      FieldOrder(zero, d);
    }
  }

  /** Strictly order preserving on all finite doubles, subnormals included; -0 and +0 get one code. */
  lemma DoubleCodePreservesOrder(a: Double, b: Double)
    requires Finite(a) && Finite(b)
    ensures Value(a) < Value(b) <==> DoubleCode(a) < DoubleCode(b)
    ensures Value(a) == Value(b) <==> DoubleCode(a) == DoubleCode(b)
  {
    FieldZeroIffZero(a);
    FieldZeroIffZero(b);
    if Field(a) < Field(b) {
      FieldOrder(a, b);
    } else if Field(b) < Field(a) {
      FieldOrder(b, a);
    } else {
      assert a.exponent == b.exponent && a.fraction == b.fraction;
    }
  }

  lemma DoubleCodeRange(d: Double)
    requires Finite(d)
    ensures 0 < DoubleCode(d) <= 0xFFFF_FFFF_FFFF_FFFF
    ensures Value(d) == 0 ==> DoubleCode(d) == 0x8000_0000_0000_0000
  {
    assert d.exponent * FRACTION <= 2046 * FRACTION;
  }

  /** The code in closed form, from the fields of the bit pattern. */
  lemma DoubleCodeClosed(d: Double)
    requires Finite(d)
    ensures var field := 0x10_0000_0000_0000 * d.exponent + d.fraction;
            DoubleCode(d) == 0x8000_0000_0000_0000 + if d.negative then 0 - field else field
  {
    FieldZeroIffZero(d);
  }

  /** Rejects infinities and NaN; otherwise clears the sign of zero, flips the sign bit, and mirrors
      the pattern of a negative value. */
  method GetTypeInfoDouble(d: Double) returns (r: Result<OstType>)
    requires WellFormed(d)
    ensures r.Ok? <==> Finite(d)
    ensures r.Ok? ==> r.value == OstType(DoubleCode(d), 0, MAX_U64)
  {
    if d.exponent == 2047 {
      return Err;
    }
    var value := d;
    FieldZeroIffZero(d);
    var isNegative := Value(value) < 0;
    if Value(value) == 0 {
      value := Double(false, 0, 0);
    }
    value := value.(negative := !value.negative);
    var uv := Pattern(value);
    assert value.exponent * FRACTION <= 2046 * FRACTION;
    if isNegative {
      assert uv <= NEW_ZERO;
      uv := NEW_ZERO - uv;
    }
    r := Ok(OstType(uv, 0, MAX_U64));
  }

  // ----- insert and query

  datatype DoubleQuery = DoubleQuery(lower: Double, includeLower: bool, upper: Double, includeUpper: bool)

  predicate FiniteQuery(q: DoubleQuery) {
    Finite(q.lower) && Finite(q.upper)
  }

  predicate Satisfies(v: Double, q: DoubleQuery) {
    InBounds(Value(v), Value(q.lower), q.includeLower, Value(q.upper), q.includeUpper)
  }

  function DoubleEdges(v: Double, sparsity: nat, trimFactorOpt: Option<int>): Result<EdgeSet>
    requires Finite(v)
  {
    DoubleCodeRange(v);
    IndexEdges(DoubleCode(v), MAX_U64, sparsity, trimFactorOpt)
  }

  function DoubleMincover(q: DoubleQuery, sparsity: nat, trimFactorOpt: Option<int>): Result<Mincover>
    requires FiniteQuery(q)
  {
    DoubleCodeRange(q.lower);
    DoubleCodeRange(q.upper);
    IndexMincover(DoubleCode(q.lower), q.includeLower, DoubleCode(q.upper), q.includeUpper, MAX_U64,
                  sparsity, trimFactorOpt)
  }

  method GetEdgesDouble(v: Double, sparsity: nat, trimFactorOpt: Option<int>) returns (r: Result<EdgeSet>)
    requires WellFormed(v)
    ensures r == if Finite(v) then DoubleEdges(v, sparsity, trimFactorOpt) else Err
  {
    var got := GetTypeInfoDouble(v);
    if got.Err? {
      return Err;
    }
    var width := 64;
    WordSizes(width, 128);
    r := GetEdges(got.value, width, sparsity, trimFactorOpt);
  }

  method GetMincoverDouble(q: DoubleQuery, sparsity: nat, trimFactorOpt: Option<int>) returns (r: Result<Mincover>)
    requires WellFormed(q.lower) && WellFormed(q.upper)
    ensures r == if FiniteQuery(q) then DoubleMincover(q, sparsity, trimFactorOpt) else Err
  {
    var a := GetTypeInfoDouble(q.lower);
    if a.Err? {
      return Err;
    }
    var b := GetTypeInfoDouble(q.upper);
    if b.Err? {
      return Err;
    }
    var width := 64;
    WordSizes(width, 128);
    DoubleCodeRange(q.lower);
    DoubleCodeRange(q.upper);
    r := GetMincover(a.value, q.includeLower, b.value, q.includeUpper, width, sparsity, trimFactorOpt);
  }

  /** End to end: one shared string exactly when the stored double satisfies the query. */
  lemma DoubleQueryMatches(v: Double, q: DoubleQuery, sparsity: nat, trimFactorOpt: Option<int>)
    requires Finite(v) && FiniteQuery(q)
    requires DoubleEdges(v, sparsity, trimFactorOpt).Ok? && DoubleMincover(q, sparsity, trimFactorOpt).Ok?
    ensures var e := DoubleEdges(v, sparsity, trimFactorOpt).value;
            var c := DoubleMincover(q, sparsity, trimFactorOpt).value;
            && e.usedTrimFactor == c.usedTrimFactor
            && |SharedStrings(e.edges, c.edges)| == (if Satisfies(v, q) then 1 else 0)
  {
    DoubleCodeRange(v);
    DoubleCodeRange(q.lower);
    DoubleCodeRange(q.upper);
    SatisfiesByCode(v, q);
    EncodedQueryMatches(DoubleCode(v), DoubleCode(q.lower), q.includeLower, DoubleCode(q.upper), q.includeUpper,
                        MAX_U64, sparsity, trimFactorOpt);
  }

  /** The finite double with a given code. */
  function DoubleOfCode(code: int): Double {
    var field := if code < NEW_ZERO then NEW_ZERO - code else code - NEW_ZERO;
    Double(code < NEW_ZERO, field / FRACTION, field % FRACTION)
  }

  /** Every code between those of two finite doubles is that of a finite double. */
  lemma CodesHaveNoGaps(a: Double, b: Double, code: int)
    requires Finite(a) && Finite(b) && DoubleCode(a) <= code <= DoubleCode(b)
    ensures Finite(DoubleOfCode(code)) && DoubleCode(DoubleOfCode(code)) == code
  {
    var d := DoubleOfCode(code);
    FieldBelow(a);
    FieldBelow(b);
    var field := if code < NEW_ZERO then NEW_ZERO - code else code - NEW_ZERO;
    assert Field(d) == field;
    FieldZeroIffZero(d);
  }

  lemma FieldBelow(d: Double)
    requires Finite(d)
    ensures Field(d) < 2047 * FRACTION
  {
    assert d.exponent * FRACTION <= 2046 * FRACTION;
  }

  /** Whether a double satisfies a query can be told from the codes. */
  lemma SatisfiesByCode(v: Double, q: DoubleQuery)
    requires Finite(v) && FiniteQuery(q)
    ensures Satisfies(v, q) <==>
            InBounds(DoubleCode(v), DoubleCode(q.lower), q.includeLower, DoubleCode(q.upper), q.includeUpper)
  {
    DoubleCodePreservesOrder(v, q.lower);
    DoubleCodePreservesOrder(q.lower, v);
    DoubleCodePreservesOrder(v, q.upper);
  }

  /** A query succeeds exactly when the options are usable and some finite double satisfies it. */
  lemma DoubleMincoverSucceedsIff(q: DoubleQuery, sparsity: nat, trimFactorOpt: Option<int>)
    requires FiniteQuery(q)
    ensures DoubleMincover(q, sparsity, trimFactorOpt).Ok? <==>
            && IndexEdges(0, MAX_U64, sparsity, trimFactorOpt).Ok?
            && exists v :: Finite(v) && Satisfies(v, q)
  {
    DoubleCodeRange(q.lower);
    DoubleCodeRange(q.upper);
    MincoverSucceedsIff(DoubleCode(q.lower), q.includeLower, DoubleCode(q.upper), q.includeUpper, MAX_U64,
                        sparsity, trimFactorOpt);
    if v :| Finite(v) && Satisfies(v, q) {
      SatisfiesByCode(v, q);
      DoubleCodeRange(v);
    }
    if code :| 0 <= code <= MAX_U64
               && InBounds(code, DoubleCode(q.lower), q.includeLower, DoubleCode(q.upper), q.includeUpper) {
      CodesHaveNoGaps(q.lower, q.upper, code);
      SatisfiesByCode(DoubleOfCode(code), q);
    }
  }
}

/** Range index over Decimal128 without declared bounds. A finite decimal is its sign, coefficient
    and biased exponent (section 3.5 of IEEE 754-2019, decimal128). */
module RangeDecimal {
  import opened Common
  import opened Bits
  import opened RangeEdges
  import opened RangeQuery

  const C_MAX: nat := 9999999999999999999999999999999999       // 10^34 - 1
  const C_MAX_DIV_TEN: nat := 999999999999999999999999999999999 // floor(C_MAX / 10) == 10^33 - 1
  const MAX_BIASED_EXPONENT: nat := 12287
  const MAX_COEFFICIENT_FIELD: nat := 10384593717069655257060992658440191 // 2^113 - 1
  const TWO_127: nat := 0x8000_0000_0000_0000_0000_0000_0000_0000
  const TWO_128: nat := 0x1_0000_0000_0000_0000_0000_0000_0000_0000

  datatype Decimal =
    | NotFinite
    | Finite(negative: bool, coefficient: nat, exponent: nat)

  /** What the fields of an encoding can hold: a coefficient of 113 bits. */
  predicate Decoded(d: Decimal) {
    d.Finite? ==> d.coefficient <= MAX_COEFFICIENT_FIELD && d.exponent <= MAX_BIASED_EXPONENT
  }

  /** A finite decimal whose coefficient has at most 34 digits. */
  predicate Canonical(d: Decimal) {
    d.Finite? && d.coefficient <= C_MAX && d.exponent <= MAX_BIASED_EXPONENT
  }

  function Pow10(n: nat): (p: nat)
    ensures p >= 1
  {
    if n == 0 then 1 else 10 * Pow10(n - 1)
  }

  /** The magnitude as a multiple of 10^-6176, the least positive decimal. */
  function Magnitude(d: Decimal): nat
    requires d.Finite?
  {
    d.coefficient * Pow10(d.exponent)
  }

  function Value(d: Decimal): int
    requires d.Finite?
  {
    if d.negative then 0 - Magnitude(d) else Magnitude(d)
  }

  // ----- the code

  /** The scaling factor found by the loop: multiply by ten while below C_MAX / 10. */
  function Rho(c: nat): nat
    requires c > 0
    decreases C_MAX_DIV_TEN - c
  {
    if c < C_MAX_DIV_TEN then 1 + Rho(10 * c) else 0
  }

  function Scaled(c: nat): nat
    requires c > 0
    decreases C_MAX_DIV_TEN - c
  {
    if c < C_MAX_DIV_TEN then Scaled(10 * c) else c
  }

  /** Distance of the code from the middle of the unsigned 128-bit range. */
  function Offset(d: Decimal): nat
    requires d.Finite?
  {
    if d.coefficient == 0 then 0
    else if Rho(d.coefficient) <= d.exponent then
      Scaled(d.coefficient) + C_MAX * (d.exponent - Rho(d.coefficient))
    else Magnitude(d)
  }

  function DecimalCode(d: Decimal): int
    requires d.Finite?
  {
    if d.negative then TWO_127 - Offset(d) else TWO_127 + Offset(d)
  }

  // ----- facts about the scaling loop

  lemma {:induction false} ScaledIsProduct(c: nat)
    requires 0 < c
    ensures Scaled(c) == c * Pow10(Rho(c))
    ensures c <= C_MAX ==> C_MAX_DIV_TEN <= Scaled(c) <= C_MAX
    decreases C_MAX_DIV_TEN - c
  {
    if c < C_MAX_DIV_TEN {
      ScaledIsProduct(10 * c);
      MulAssociate(c, 10, Pow10(Rho(10 * c)));
    }
  }

  lemma {:induction false} RhoBound(c: nat)
    requires c > 0
    ensures Rho(c) <= 33
  {
    ScaledIsProduct(c);
    var r := Rho(c);
    if r >= 34 {
      RhoPredecessor(c);
      var p := Pow10(r - 1);
      Pow10Monotone(33, r - 1);
      Pow10Of33(33);
      MulLe(1, c, p);
    }
  }

  lemma {:induction false} Pow10Sum(a: nat, b: nat)
    ensures Pow10(a + b) == Pow10(a) * Pow10(b)
  {
    if a > 0 {
      Pow10Sum(a - 1, b);
      MulAssociate(10, Pow10(a - 1), Pow10(b));
      assert a + b - 1 == a - 1 + b;
    }
  }

  lemma Pow10Of33(n: nat)
    requires n == 33
    ensures Pow10(n) == C_MAX_DIV_TEN + 1
  {
    Pow10Doubled(1, 2, 10, 100);
    Pow10Doubled(2, 4, 100, 10000);
    Pow10Doubled(4, 8, 10000, 100000000);
    Pow10Doubled(8, 16, 100000000, 10000000000000000);
    Pow10Doubled(16, 32, 10000000000000000, 100000000000000000000000000000000);
    assert Pow10(n) == 10 * Pow10(n - 1);
  }

  lemma Pow10Doubled(n: nat, m: nat, x: nat, y: nat)
    requires Pow10(n) == x && m == n + n && y == x * x
    ensures Pow10(m) == y
  {
    Pow10Sum(n, n);
  }

  lemma {:induction false} Pow10Monotone(a: nat, b: nat)
    requires a <= b
    ensures Pow10(a) <= Pow10(b)
    decreases b
  {
    if a < b {
      Pow10Monotone(a, b - 1);
    }
  }

  /** Before its last multiplication the loop was still below C_MAX / 10. */
  lemma {:induction false} RhoPredecessor(c: nat)
    requires c > 0 && Rho(c) > 0
    ensures c * Pow10(Rho(c) - 1) < C_MAX_DIV_TEN
    ensures Scaled(c) == 10 * (c * Pow10(Rho(c) - 1))
    decreases C_MAX_DIV_TEN - c
  {
    if Rho(10 * c) > 0 {
      RhoPredecessor(10 * c);
      MulAssociate(c, 10, Pow10(Rho(10 * c) - 1));
      assert c * Pow10(Rho(c) - 1) == (10 * c) * Pow10(Rho(10 * c) - 1);
    } else {
      assert Pow10(Rho(c) - 1) == 1;
    }
  }

  /** The two ends of the scaled range are reached only without scaling. */
  lemma ScaledEnds(c: nat)
    requires 0 < c <= C_MAX
    ensures Scaled(c) == C_MAX_DIV_TEN <==> c == C_MAX_DIV_TEN
    ensures Scaled(c) >= C_MAX - 9 <==> c >= C_MAX - 9
    ensures c >= C_MAX_DIV_TEN ==> Rho(c) == 0
  {
    if Rho(c) > 0 {
      RhoPredecessor(c);
    }
  }

  // ----- order of magnitudes

  /** The coefficient that the strict comparison leaves unscaled, against a coefficient one exponent
      lower that it should not exceed. */
  predicate ClashBelow(x: Decimal, y: Decimal)
    requires x.Finite? && y.Finite?
  {
    x.coefficient == C_MAX_DIV_TEN && x.exponent == y.exponent + 1 && y.coefficient >= C_MAX - 9
  }

  lemma NormalMagnitude(d: Decimal)
    requires Canonical(d) && d.coefficient > 0 && Rho(d.coefficient) <= d.exponent
    ensures Magnitude(d) == Scaled(d.coefficient) * Pow10(d.exponent - Rho(d.coefficient))
  {
    var r := Rho(d.coefficient);
    ScaledIsProduct(d.coefficient);
    Pow10Sum(r, d.exponent - r);
    MulAssociate(d.coefficient, Pow10(r), Pow10(d.exponent - r));
  }

  lemma SmallMagnitude(d: Decimal)
    requires Canonical(d) && d.coefficient > 0 && Rho(d.coefficient) > d.exponent
    ensures 0 < Magnitude(d) < C_MAX_DIV_TEN
  {
    var r := Rho(d.coefficient);
    RhoPredecessor(d.coefficient);
    Pow10Monotone(d.exponent, r - 1);
    ProductBetween(d.coefficient, Pow10(d.exponent), Pow10(r - 1));
  }

  lemma ProductBetween(c: nat, p: nat, q: nat)
    requires 0 < c && 0 < p <= q
    ensures 0 < c * p <= c * q
  {
    MulLe(p, q, c);
    MulLe(1, p, c);
  }

  lemma NormalOrder(m: nat, e: nat, n: nat, f: nat)
    requires C_MAX_DIV_TEN <= m <= C_MAX && C_MAX_DIV_TEN <= n <= C_MAX && e < f
    ensures m + C_MAX * e < n + C_MAX * f
    ensures m * Pow10(e) < n * Pow10(f) <==> !(n == C_MAX_DIV_TEN && f == e + 1 && m >= C_MAX - 9)
  {
    var p := Pow10(e);
    if f == e + 1 {
      MulAssociate(n, 10, p);
      ProductOrder(m, n * 10, p);
    } else {
      Pow10Monotone(e + 2, f);
      ProductBetween(n, 100 * p, Pow10(f));
      MulAssociate(n, 100, p);
      ProductOrder(m, n * 100, p);
    }
  }

  lemma ProductOrder(x: nat, y: nat, p: nat)
    requires p > 0
    ensures x * p < y * p <==> x < y
  {
    if x < y {
      MulLe(x + 1, y, p);
      MulDistribute(x, 1, p);
    } else {
      MulLe(y, x, p);
    }
  }

  predicate OffsetsAgree(a: Decimal, b: Decimal)
    requires a.Finite? && b.Finite?
  {
    && (Magnitude(a) < Magnitude(b) <==> Offset(a) < Offset(b))
    && (Magnitude(b) < Magnitude(a) <==> Offset(b) < Offset(a))
  }

  lemma MagnitudeOrder(a: Decimal, b: Decimal)
    requires Canonical(a) && Canonical(b) && a.coefficient > 0 && b.coefficient > 0
    ensures OffsetsAgree(a, b) <==> !ClashBelow(a, b) && !ClashBelow(b, a)
  {
    ScaledEnds(a.coefficient);
    ScaledEnds(b.coefficient);
    ScaledIsProduct(a.coefficient);
    ScaledIsProduct(b.coefficient);
    var r, t := Rho(a.coefficient), Rho(b.coefficient);
    if r > a.exponent {
      SmallMagnitude(a);
      SmallAgainst(a, b);
    } else if t > b.exponent {
      SmallMagnitude(b);
      SmallAgainst(b, a);
    } else {
      NormalPair(a, b, a.exponent - r, b.exponent - t);
    }
  }

  /** A magnitude below the first scaled coefficient is its own offset. */
  lemma SmallAgainst(a: Decimal, b: Decimal)
    requires Canonical(a) && Canonical(b) && a.coefficient > 0 && b.coefficient > 0
    requires Rho(a.coefficient) > a.exponent && Magnitude(a) < C_MAX_DIV_TEN
    ensures OffsetsAgree(a, b)
    ensures !ClashBelow(a, b) && !ClashBelow(b, a)
  {
    ScaledEnds(a.coefficient);
    ScaledEnds(b.coefficient);
    if Rho(b.coefficient) <= b.exponent {
      NormalAtLeast(b);
    }
    assert Offset(a) == Magnitude(a);
  }

  lemma NormalAtLeast(d: Decimal)
    requires Canonical(d) && d.coefficient > 0 && Rho(d.coefficient) <= d.exponent
    ensures Magnitude(d) >= C_MAX_DIV_TEN && Offset(d) >= C_MAX_DIV_TEN
  {
    ScaledIsProduct(d.coefficient);
    NormalMagnitude(d);
    var k := d.exponent - Rho(d.coefficient);
    ProductBetween(Scaled(d.coefficient), 1, Pow10(k));
  }

  lemma NormalPair(a: Decimal, b: Decimal, e: nat, f: nat)
    requires Canonical(a) && Canonical(b) && a.coefficient > 0 && b.coefficient > 0
    requires Rho(a.coefficient) + e == a.exponent && Rho(b.coefficient) + f == b.exponent
    ensures OffsetsAgree(a, b) <==> !ClashBelow(a, b) && !ClashBelow(b, a)
  {
    ScaledEnds(a.coefficient);
    ScaledEnds(b.coefficient);
    ScaledIsProduct(a.coefficient);
    ScaledIsProduct(b.coefficient);
    NormalMagnitude(a);
    NormalMagnitude(b);
    var m, n := Scaled(a.coefficient), Scaled(b.coefficient);
    if e < f {
      NormalOrder(m, e, n, f);
    } else if f < e {
      NormalOrder(n, f, m, e);
    } else {
      ProductOrder(m, n, Pow10(e));
      ProductOrder(n, m, Pow10(e));
    }
  }

  // ----- order of the codes

  /** The one family of pairs on which the encoding is not order preserving. */
  predicate Clash(a: Decimal, b: Decimal)
    requires a.Finite? && b.Finite?
  {
    a.negative == b.negative && (ClashBelow(a, b) || ClashBelow(b, a))
  }

  predicate CodesAgree(a: Decimal, b: Decimal)
    requires a.Finite? && b.Finite?
  {
    && (Value(a) < Value(b) <==> DecimalCode(a) < DecimalCode(b))
    && (Value(a) == Value(b) <==> DecimalCode(a) == DecimalCode(b))
  }

  lemma OffsetZeroIffZero(d: Decimal)
    requires Canonical(d)
    ensures Offset(d) == 0 <==> Magnitude(d) == 0
    ensures Offset(d) == 0 <==> d.coefficient == 0
  {
    if d.coefficient > 0 {
      MulLe(1, d.coefficient, Pow10(d.exponent));
      ScaledIsProduct(d.coefficient);
      if Rho(d.coefficient) <= d.exponent {
        MulLe(0, d.exponent - Rho(d.coefficient), C_MAX);
      }
    }
  }

  /** Exactly when the codes of two canonical decimals compare like their values. */
  lemma DecimalOrderIff(a: Decimal, b: Decimal)
    requires Canonical(a) && Canonical(b)
    ensures CodesAgree(a, b) <==> !Clash(a, b)
  {
    OffsetZeroIffZero(a);
    OffsetZeroIffZero(b);
    if a.coefficient > 0 && b.coefficient > 0 {
      MagnitudeOrder(a, b);
    }
  }

  /** Away from the coefficient 10^33 - 1 the encoding is strictly order preserving and gives
      equal-valued representations one code. */
  lemma DecimalOrderPreserved(a: Decimal, b: Decimal)
    requires Canonical(a) && Canonical(b)
    requires a.coefficient != C_MAX_DIV_TEN && b.coefficient != C_MAX_DIV_TEN
    ensures Value(a) < Value(b) <==> DecimalCode(a) < DecimalCode(b)
    ensures Value(a) == Value(b) <==> DecimalCode(a) == DecimalCode(b)
  {
    DecimalOrderIff(a, b);
  }

  /** (10^33 - 1) * 10^(e + 1) is smaller than (10^34 - 1) * 10^e, but its code is larger. */
  lemma DecimalOrderCounterexample(e: nat)
    requires e < MAX_BIASED_EXPONENT
    ensures var x, y := Finite(false, C_MAX_DIV_TEN, e + 1), Finite(false, C_MAX, e);
            && Canonical(x) && Canonical(y)
            && Value(x) < Value(y) && DecimalCode(x) > DecimalCode(y)
  {
    var x, y := Finite(false, C_MAX_DIV_TEN, e + 1), Finite(false, C_MAX, e);
    assert Magnitude(x) == (10 * C_MAX_DIV_TEN) * Pow10(e);
    MulLe(10 * C_MAX_DIV_TEN + 1, C_MAX, Pow10(e));
    MulDistribute(10 * C_MAX_DIV_TEN, 1, Pow10(e));
    MulDistribute(e, 1, C_MAX);
  }

  /** The loop stops at the first power of ten that lifts the coefficient to 10^33 - 1. */
  lemma {:induction false} RhoIsFirst(c: nat, rho: nat)
    requires 0 < c && c * Pow10(rho) >= C_MAX_DIV_TEN && (rho > 0 ==> c * Pow10(rho - 1) < C_MAX_DIV_TEN)
    ensures Rho(c) == rho
    decreases rho
  {
    if rho > 0 {
      Pow10Monotone(0, rho - 1);
      MulLe(1, Pow10(rho - 1), c);
      MulAssociate(c, 10, Pow10(rho - 1));
      if rho > 1 {
        MulAssociate(c, 10, Pow10(rho - 2));
      }
      RhoIsFirst(10 * c, rho - 1);
    }
  }

  lemma BoundsArePowers()
    ensures C_MAX_DIV_TEN == Pow10(33) - 1 && C_MAX == Pow10(34) - 1
  {
    Pow10Of33(33);
    assert Pow10(34) == 10 * Pow10(33);
  }

  /** The code in closed form: the middle of the range, and away from it on the side of the sign the scaled
      coefficient and 10^34 - 1 for every exponent left, or the magnitude if the exponent is too small. */
  lemma DecimalCodeClosed(d: Decimal, rho: nat)
    requires Canonical(d) && d.coefficient > 0 && d.coefficient * Pow10(rho) >= C_MAX_DIV_TEN
    requires rho > 0 ==> d.coefficient * Pow10(rho - 1) < C_MAX_DIV_TEN
    ensures var offset := if rho <= d.exponent then d.coefficient * Pow10(rho) + C_MAX * (d.exponent - rho)
                          else d.coefficient * Pow10(d.exponent);
            DecimalCode(d) == 0x8000_0000_0000_0000_0000_0000_0000_0000 + if d.negative then 0 - offset else offset
  {
    RhoIsFirst(d.coefficient, rho);
    ScaledIsProduct(d.coefficient);
  }

  // ----- the operation

  /** 128-bit unsigned arithmetic. */
  function Add128(a: nat, b: nat): nat {
    (a + b) % TWO_128
  }

  function Mul128(a: nat, b: nat): nat {
    a * b % TWO_128
  }

  function Negate128(a: nat): nat {
    (0 - a) % TWO_128
  }

  lemma NoWrap(x: nat)
    requires x < TWO_128
    ensures x % TWO_128 == x
  {
  }

  lemma OffsetRange(d: Decimal)
    requires Canonical(d)
    ensures Offset(d) <= C_MAX * (MAX_BIASED_EXPONENT + 1) < TWO_127
  {
    if d.coefficient > 0 {
      ScaledIsProduct(d.coefficient);
      var r := Rho(d.coefficient);
      if r <= d.exponent {
        MulLe(d.exponent - r, MAX_BIASED_EXPONENT, C_MAX);
        MulDistribute(MAX_BIASED_EXPONENT, 1, C_MAX);
      } else {
        SmallMagnitude(d);
      }
    }
  }

  /** Multiplies by ten while below C_MAX / 10. */
  method ScaleCoefficient(coefficient: nat) returns (rho: nat, coeffScaled: nat)
    requires 0 < coefficient
    ensures rho == Rho(coefficient) && coeffScaled == Scaled(coefficient)
    ensures coeffScaled <= C_MAX <==> coefficient <= C_MAX
  {
    rho := 0;
    coeffScaled := coefficient;
    ScaledIsProduct(coefficient);
    while coeffScaled < C_MAX_DIV_TEN
      invariant 0 < coeffScaled
      invariant coeffScaled <= C_MAX <==> coefficient <= C_MAX
      invariant Scaled(coeffScaled) == Scaled(coefficient)
      invariant rho + Rho(coeffScaled) == Rho(coefficient)
      decreases C_MAX_DIV_TEN - coeffScaled
    {
      rho := rho + 1;
      NoWrap(coeffScaled * 10);
      coeffScaled := Mul128(coeffScaled, 10);
    }
  }

  /** The encoder: every 128-bit step stays in range. `aborted` is the failing assertion that the scaled
      coefficient is at most C_MAX, which takes a coefficient that is too large from the start. */
  method GetTypeInfoDecimal128(d: Decimal) returns (r: Result<OstType>, aborted: bool)
    requires Decoded(d)
    ensures aborted <==> d.Finite? && !Canonical(d)
    ensures r.Ok? <==> Canonical(d)
    ensures r.Ok? ==> 0 < DecimalCode(d) && r.value == OstType(DecimalCode(d), 0, TWO_128 - 1)
  {
    if d.NotFinite? {
      return Err, false;
    }
    if d.coefficient == 0 {
      return Ok(OstType(TWO_127, 0, TWO_128 - 1)), false;
    }
    var rho, coeffScaled := ScaleCoefficient(d.coefficient);
    if coeffScaled > C_MAX {
      return Err, true;
    }
    aborted := false;
    r := EncodeScaled(d, rho, coeffScaled);
  }

  method EncodeScaled(d: Decimal, rho: nat, coeffScaled: nat) returns (r: Result<OstType>)
    requires Canonical(d) && d.coefficient > 0
    requires rho == Rho(d.coefficient) && coeffScaled == Scaled(d.coefficient) <= C_MAX
    ensures 0 < DecimalCode(d) && r == Ok(OstType(DecimalCode(d), 0, TWO_128 - 1))
  {
    var result: nat;
    if rho <= d.exponent {
      result := NormalOffset(d, rho, coeffScaled);
    } else {
      result := SmallOffset(d);
    }
    result := AroundMidpoint(d, result);
    r := Ok(OstType(result, 0, TWO_128 - 1));
  }

  method NormalOffset(d: Decimal, rho: nat, coeffScaled: nat) returns (result: nat)
    requires Canonical(d) && d.coefficient > 0
    requires rho == Rho(d.coefficient) <= d.exponent && coeffScaled == Scaled(d.coefficient) <= C_MAX
    ensures result == Offset(d)
  {
    var expDiff := d.exponent - rho;
    MulLe(expDiff, MAX_BIASED_EXPONENT, C_MAX);
    NoWrap(C_MAX * expDiff);
    var cmaxScaled := Mul128(C_MAX, expDiff);
    NoWrap(coeffScaled + cmaxScaled);
    result := Add128(coeffScaled, cmaxScaled);
  }

  /** The exponent is below the scaling factor, hence fits the 8 bits to which it is cast. */
  method SmallOffset(d: Decimal) returns (result: nat)
    requires Canonical(d) && d.coefficient > 0 && Rho(d.coefficient) > d.exponent
    ensures result == Offset(d)
  {
    OffsetRange(d);
    RhoBound(d.coefficient);
    var exponent := d.exponent % 256;
    assert exponent == d.exponent;
    var biasedScale := Pow10(exponent);
    NoWrap(Magnitude(d));
    assert biasedScale * d.coefficient == Magnitude(d);
    result := Mul128(biasedScale, d.coefficient);
  }

  method AroundMidpoint(d: Decimal, offset: nat) returns (result: nat)
    requires Canonical(d) && offset == Offset(d)
    ensures 0 < DecimalCode(d) == result
  {
    OffsetRange(d);
    NoWrap(offset + TWO_127);
    result := Add128(offset, TWO_127);
    if d.negative {
      DivUnique(0 - result, TWO_128, -1, TWO_128 - result);
      result := Negate128(result);
    }
  }

  // ----- insert and query

  datatype DecimalQuery = DecimalQuery(lower: Decimal, includeLower: bool, upper: Decimal, includeUpper: bool)

  predicate CanonicalQuery(q: DecimalQuery) {
    Canonical(q.lower) && Canonical(q.upper)
  }

  predicate Satisfies(v: Decimal, q: DecimalQuery)
    requires Canonical(v) && CanonicalQuery(q)
  {
    InBounds(Value(v), Value(q.lower), q.includeLower, Value(q.upper), q.includeUpper)
  }

  function DecimalEdges(v: Decimal, sparsity: nat, trimFactorOpt: Option<int>): Result<EdgeSet>
    requires Canonical(v)
  {
    OffsetRange(v);
    IndexEdges(DecimalCode(v), TWO_128 - 1, sparsity, trimFactorOpt)
  }

  function DecimalMincover(q: DecimalQuery, sparsity: nat, trimFactorOpt: Option<int>): Result<Mincover>
    requires CanonicalQuery(q)
  {
    OffsetRange(q.lower);
    OffsetRange(q.upper);
    IndexMincover(DecimalCode(q.lower), q.includeLower, DecimalCode(q.upper), q.includeUpper, TWO_128 - 1,
                  sparsity, trimFactorOpt)
  }

  method GetEdgesDecimal128(v: Decimal, sparsity: nat, trimFactorOpt: Option<int>)
    returns (r: Result<EdgeSet>, aborted: bool)
    requires Decoded(v)
    ensures aborted <==> v.Finite? && !Canonical(v)
    ensures r == if Canonical(v) then DecimalEdges(v, sparsity, trimFactorOpt) else Err
  {
    var got, failed := GetTypeInfoDecimal128(v);
    if got.Err? {
      return Err, failed;
    }
    var width := 128;
    WordSizes(64, width);
    aborted := false;
    r := GetEdges(got.value, width, sparsity, trimFactorOpt);
  }

  /** The lower end is encoded first. */
  method GetMincoverDecimal128(q: DecimalQuery, sparsity: nat, trimFactorOpt: Option<int>)
    returns (r: Result<Mincover>, aborted: bool)
    requires Decoded(q.lower) && Decoded(q.upper)
    ensures aborted <==>
              q.lower.Finite? && (!Canonical(q.lower) || (q.upper.Finite? && !Canonical(q.upper)))
    ensures r == if CanonicalQuery(q) then DecimalMincover(q, sparsity, trimFactorOpt) else Err
  {
    var a, failed := GetTypeInfoDecimal128(q.lower);
    if a.Err? {
      return Err, failed;
    }
    var b, failedToo := GetTypeInfoDecimal128(q.upper);
    if b.Err? {
      return Err, failedToo;
    }
    var width := 128;
    WordSizes(64, width);
    OffsetRange(q.lower);
    OffsetRange(q.upper);
    aborted := false;
    r := GetMincover(a.value, q.includeLower, b.value, q.includeUpper, width, sparsity, trimFactorOpt);
  }

  // ----- which queries are answered right

  predicate MeetsLower(v: Decimal, q: DecimalQuery)
    requires v.Finite? && q.lower.Finite?
  {
    if q.includeLower then Value(q.lower) <= Value(v) else Value(q.lower) < Value(v)
  }

  predicate MeetsUpper(v: Decimal, q: DecimalQuery)
    requires v.Finite? && q.upper.Finite?
  {
    if q.includeUpper then Value(v) <= Value(q.upper) else Value(v) < Value(q.upper)
  }

  /** The clashing pairs, seen from the decimal whose code is too large: its value is not the greater one. */
  predicate CodeAbove(a: Decimal, b: Decimal)
    requires a.Finite? && b.Finite?
  {
    a.negative == b.negative && if a.negative then ClashBelow(b, a) else ClashBelow(a, b)
  }

  /** In a clash the codes are the wrong way round, or differ for one value. */
  lemma ClashReverses(a: Decimal, b: Decimal)
    requires Canonical(a) && Canonical(b) && CodeAbove(a, b)
    ensures Value(a) <= Value(b) && DecimalCode(a) > DecimalCode(b)
  {
    if a.negative {
      OffsetsReverse(b, a);
    } else {
      OffsetsReverse(a, b);
    }
  }

  lemma OffsetsReverse(x: Decimal, y: Decimal)
    requires Canonical(x) && Canonical(y) && ClashBelow(x, y)
    ensures Magnitude(x) <= Magnitude(y) && Offset(x) > Offset(y)
  {
    var e := y.exponent;
    assert Magnitude(x) == (10 * C_MAX_DIV_TEN) * Pow10(e);
    MulLe(10 * C_MAX_DIV_TEN, y.coefficient, Pow10(e));
    MulDistribute(e, 1, C_MAX);
  }

  /** The lower end is judged wrongly: it lets a value in that does not meet it, or keeps one out that
      does. The index looks at codes only. */
  predicate LowerMisled(v: Decimal, q: DecimalQuery)
    requires v.Finite? && q.lower.Finite?
  {
    || (CodeAbove(v, q.lower) && !(q.includeLower && Value(v) == Value(q.lower)))
    || (CodeAbove(q.lower, v) && (q.includeLower || Value(v) != Value(q.lower)))
  }

  predicate UpperMisled(v: Decimal, q: DecimalQuery)
    requires v.Finite? && q.upper.Finite?
  {
    || (CodeAbove(q.upper, v) && !(q.includeUpper && Value(v) == Value(q.upper)))
    || (CodeAbove(v, q.upper) && (q.includeUpper || Value(v) != Value(q.upper)))
  }

  lemma LowerByCode(v: Decimal, q: DecimalQuery)
    requires Canonical(v) && CanonicalQuery(q)
    ensures (if q.includeLower then DecimalCode(q.lower) <= DecimalCode(v) else DecimalCode(q.lower) < DecimalCode(v))
            <==> MeetsLower(v, q) != LowerMisled(v, q)
  {
    DecimalOrderIff(v, q.lower);
    if CodeAbove(v, q.lower) {
      ClashReverses(v, q.lower);
    } else if CodeAbove(q.lower, v) {
      ClashReverses(q.lower, v);
    }
  }

  lemma UpperByCode(v: Decimal, q: DecimalQuery)
    requires Canonical(v) && CanonicalQuery(q)
    ensures (if q.includeUpper then DecimalCode(v) <= DecimalCode(q.upper) else DecimalCode(v) < DecimalCode(q.upper))
            <==> MeetsUpper(v, q) != UpperMisled(v, q)
  {
    DecimalOrderIff(v, q.upper);
    if CodeAbove(v, q.upper) {
      ClashReverses(v, q.upper);
    } else if CodeAbove(q.upper, v) {
      ClashReverses(q.upper, v);
    }
  }

  /** The number of strings that a stored decimal and a query share: none if no cover is made. */
  ghost function SharedCount(v: Decimal, q: DecimalQuery, sparsity: nat, trimFactorOpt: Option<int>): nat
    requires Canonical(v) && CanonicalQuery(q)
  {
    var e, c := DecimalEdges(v, sparsity, trimFactorOpt), DecimalMincover(q, sparsity, trimFactorOpt);
    if e.Ok? && c.Ok? then |SharedStrings(e.value.edges, c.value.edges)| else 0
  }

  /** With usable options, a query whose code bounds admit some code gets its cover. */
  lemma AdmittedGetsCover(v: Decimal, q: DecimalQuery, sparsity: nat, trimFactorOpt: Option<int>)
    requires Canonical(v) && CanonicalQuery(q) && DecimalEdges(v, sparsity, trimFactorOpt).Ok?
    requires InBounds(DecimalCode(v), DecimalCode(q.lower), q.includeLower, DecimalCode(q.upper), q.includeUpper)
    ensures DecimalMincover(q, sparsity, trimFactorOpt).Ok?
  {
    OffsetRange(v);
    OffsetRange(q.lower);
    OffsetRange(q.upper);
    MincoverSucceedsIff(DecimalCode(q.lower), q.includeLower, DecimalCode(q.upper), q.includeUpper, TWO_128 - 1,
                        sparsity, trimFactorOpt);
  }

  /** End to end, for every canonical value and query: one shared string exactly when both ends admit the
      value, where a misled end admits what it should refuse and refuses what it should admit; otherwise
      none, and this includes every query for which no cover is made. */
  lemma DecimalQueryAnswer(v: Decimal, q: DecimalQuery, sparsity: nat, trimFactorOpt: Option<int>)
    requires Canonical(v) && CanonicalQuery(q) && DecimalEdges(v, sparsity, trimFactorOpt).Ok?
    ensures SharedCount(v, q, sparsity, trimFactorOpt) ==
            if MeetsLower(v, q) != LowerMisled(v, q) && MeetsUpper(v, q) != UpperMisled(v, q) then 1 else 0
    ensures var e, c := DecimalEdges(v, sparsity, trimFactorOpt), DecimalMincover(q, sparsity, trimFactorOpt);
            c.Ok? ==> e.value.usedTrimFactor == c.value.usedTrimFactor
  {
    OffsetRange(v);
    OffsetRange(q.lower);
    OffsetRange(q.upper);
    LowerByCode(v, q);
    UpperByCode(v, q);
    if DecimalMincover(q, sparsity, trimFactorOpt).Ok? {
      EncodedQueryMatches(DecimalCode(v), DecimalCode(q.lower), q.includeLower, DecimalCode(q.upper), q.includeUpper,
                          TWO_128 - 1, sparsity, trimFactorOpt);
    } else if MeetsLower(v, q) != LowerMisled(v, q) && MeetsUpper(v, q) != UpperMisled(v, q) {
      AdmittedGetsCover(v, q, sparsity, trimFactorOpt);
    }
  }

  /** The queries that are answered wrongly for v: one end is misled and the other does not exclude v, or
      both are and v meets both or neither. */
  predicate Misanswered(v: Decimal, q: DecimalQuery)
    requires v.Finite? && q.lower.Finite? && q.upper.Finite?
  {
    if LowerMisled(v, q) then
      if UpperMisled(v, q) then MeetsLower(v, q) == MeetsUpper(v, q) else MeetsUpper(v, q)
    else UpperMisled(v, q) && MeetsLower(v, q)
  }

  /** The answer is right, one shared string exactly when the stored decimal satisfies the query, if and
      only if the query is not in that family. */
  lemma DecimalQueryRightIff(v: Decimal, q: DecimalQuery, sparsity: nat, trimFactorOpt: Option<int>)
    requires Canonical(v) && CanonicalQuery(q) && DecimalEdges(v, sparsity, trimFactorOpt).Ok?
    ensures SharedCount(v, q, sparsity, trimFactorOpt) == (if Satisfies(v, q) then 1 else 0) <==> !Misanswered(v, q)
  {
    DecimalQueryAnswer(v, q, sparsity, trimFactorOpt);
  }

  /** In particular when neither end clashes with the stored decimal. */
  lemma DecimalQueryMatches(v: Decimal, q: DecimalQuery, sparsity: nat, trimFactorOpt: Option<int>)
    requires Canonical(v) && CanonicalQuery(q) && DecimalEdges(v, sparsity, trimFactorOpt).Ok?
    requires !Clash(v, q.lower) && !Clash(v, q.upper)
    ensures SharedCount(v, q, sparsity, trimFactorOpt) == if Satisfies(v, q) then 1 else 0
  {
    DecimalQueryRightIff(v, q, sparsity, trimFactorOpt);
  }

  // ----- which queries are refused

  /** Some code lies within the code bounds. */
  predicate Room(q: DecimalQuery)
    requires q.lower.Finite? && q.upper.Finite?
  {
    var first := if q.includeLower then DecimalCode(q.lower) else DecimalCode(q.lower) + 1;
    var last := if q.includeUpper then DecimalCode(q.upper) else DecimalCode(q.upper) - 1;
    first <= last
  }

  /** With usable options, a cover is made exactly when there is room. */
  lemma CoverMadeIffRoom(q: DecimalQuery, sparsity: nat, trimFactorOpt: Option<int>)
    requires CanonicalQuery(q) && DecimalEdges(q.lower, sparsity, trimFactorOpt).Ok?
    ensures DecimalMincover(q, sparsity, trimFactorOpt).Ok? <==> Room(q)
  {
    OffsetRange(q.lower);
    OffsetRange(q.upper);
  }

  /** The decimal after one with coefficient 10^33 - 1, away from zero. */
  function NextAway(d: Decimal): Decimal
    requires d.Finite?
  {
    Finite(d.negative, C_MAX_DIV_TEN + 1, d.exponent)
  }

  /** It has the next code, and clashes with nothing. */
  lemma NextAwayCode(d: Decimal, b: Decimal)
    requires Canonical(d) && d.coefficient == C_MAX_DIV_TEN && Canonical(b)
    ensures Canonical(NextAway(d)) && CodesAgree(NextAway(d), b)
    ensures Magnitude(NextAway(d)) == Magnitude(d) + Pow10(d.exponent)
    ensures Offset(NextAway(d)) == Offset(d) + 1
  {
    DecimalOrderIff(NextAway(d), b);
    MulDistribute(C_MAX_DIV_TEN, 1, Pow10(d.exponent));
  }

  /** The open range from a coefficient 10^33 - 1 to the next decimal away from zero with that exponent: the
      codes of its ends are adjacent, although values of the next lower exponent lie between. */
  predicate Pinched(q: DecimalQuery)
    requires q.lower.Finite? && q.upper.Finite?
  {
    && !q.includeLower && !q.includeUpper
    && (|| (!q.lower.negative && q.lower.coefficient == C_MAX_DIV_TEN
            && Value(q.upper) == Value(q.lower) + Pow10(q.lower.exponent))
        || (q.upper.negative && q.upper.coefficient == C_MAX_DIV_TEN
            && Value(q.lower) == Value(q.upper) - Pow10(q.upper.exponent)))
  }

  lemma PinchedHasNoRoom(q: DecimalQuery)
    requires CanonicalQuery(q) && Pinched(q)
    ensures !Room(q)
  {
    if !q.lower.negative && q.lower.coefficient == C_MAX_DIV_TEN
       && Value(q.upper) == Value(q.lower) + Pow10(q.lower.exponent) {
      NextAwayCode(q.lower, q.upper);
    } else {
      NextAwayCode(q.upper, q.lower);
    }
  }

  /** The same value without the clashing coefficient, where there is a lower exponent. */
  function Plain(v: Decimal): Decimal
    requires v.Finite?
  {
    if v.coefficient == C_MAX_DIV_TEN && v.exponent > 0 then Finite(v.negative, C_MAX - 9, v.exponent - 1) else v
  }

  lemma PlainIsSame(v: Decimal, b: Decimal)
    requires Canonical(v) && b.Finite?
    ensures Canonical(Plain(v)) && Value(Plain(v)) == Value(v) && !ClashBelow(Plain(v), b)
  {
    if v.coefficient == C_MAX_DIV_TEN && v.exponent > 0 {
      MulAssociate(C_MAX_DIV_TEN, 10, Pow10(v.exponent - 1));
    }
  }

  /** Codes of ordered values that do not clash the wrong way are ordered. */
  lemma CodesOrdered(a: Decimal, b: Decimal)
    requires Canonical(a) && Canonical(b) && !CodeAbove(a, b)
    ensures Value(a) < Value(b) ==> DecimalCode(a) < DecimalCode(b)
    ensures Value(a) <= Value(b) ==> DecimalCode(a) <= DecimalCode(b)
  {
    DecimalOrderIff(a, b);
    if CodeAbove(b, a) {
      ClashReverses(b, a);
    }
  }

  /** Two ends that are ordered, do not clash and are not pinched, of which the lower one has coefficient
      10^33 - 1, leave a code between them; and likewise for a negative upper one. */
  lemma RoomBesideClash(q: DecimalQuery)
    requires CanonicalQuery(q) && Value(q.lower) < Value(q.upper) && !CodeAbove(q.lower, q.upper)
    requires !q.includeLower && !q.includeUpper && !Pinched(q)
    requires || (!q.lower.negative && q.lower.coefficient == C_MAX_DIV_TEN)
             || (q.upper.negative && q.upper.coefficient == C_MAX_DIV_TEN)
    ensures Room(q)
  {
    CodesOrdered(q.lower, q.upper);
    if !q.lower.negative && q.lower.coefficient == C_MAX_DIV_TEN {
      NextAwayCode(q.lower, q.upper);
    } else {
      NextAwayCode(q.upper, q.lower);
    }
  }

  /** A query that some decimal satisfies has room unless its ends clash or pinch. */
  lemma SatisfiableHasRoom(v: Decimal, q: DecimalQuery)
    requires Canonical(v) && CanonicalQuery(q) && Satisfies(v, q)
    requires !CodeAbove(q.lower, q.upper) && !Pinched(q)
    ensures Room(q)
  {
    CodesOrdered(q.lower, q.upper);
    if !q.includeLower && !q.includeUpper {
      var p := Plain(v);
      PlainIsSame(v, q.lower);
      PlainIsSame(v, q.upper);
      if CodeAbove(q.lower, p) {
        NoNegativeClash(q.lower, p);
        RoomBesideClash(q);
      } else if CodeAbove(p, q.upper) {
        RoomBesideClash(q);
      } else {
        CodesOrdered(q.lower, p);
        CodesOrdered(p, q.upper);
      }
    }
  }

  /** If a code is above that of a decimal which is no lower end of a clash, both are positive. */
  lemma NoNegativeClash(a: Decimal, p: Decimal)
    requires Canonical(a) && Canonical(p) && CodeAbove(a, p) && !ClashBelow(p, a)
    ensures !a.negative && a.coefficient == C_MAX_DIV_TEN
  {
  }

  /** The exact condition: a query that some decimal satisfies is refused if and only if the code of its
      lower end is above that of its upper end in a clash, or its ends pinch. */
  lemma DecimalQueryRefusedIff(v: Decimal, q: DecimalQuery, sparsity: nat, trimFactorOpt: Option<int>)
    requires Canonical(v) && CanonicalQuery(q) && Satisfies(v, q)
    requires DecimalEdges(v, sparsity, trimFactorOpt).Ok?
    ensures DecimalMincover(q, sparsity, trimFactorOpt).Err? <==> CodeAbove(q.lower, q.upper) || Pinched(q)
  {
    CoverMadeIffRoom(q, sparsity, trimFactorOpt);
    if CodeAbove(q.lower, q.upper) {
      ClashReverses(q.lower, q.upper);
    } else if Pinched(q) {
      PinchedHasNoRoom(q);
    } else {
      SatisfiableHasRoom(v, q);
    }
  }

  // ----- witnesses

  /** The clash is observable: this stored decimal satisfies the query and shares no string with it. */
  lemma DecimalQueryMissed(sparsity: nat)
    requires sparsity >= 1
    ensures var v := Finite(false, C_MAX_DIV_TEN, 1);
            var q := DecimalQuery(Finite(false, 0, 0), true, Finite(false, C_MAX, 0), true);
            && Canonical(v) && CanonicalQuery(q) && Satisfies(v, q)
            && DecimalEdges(v, sparsity, Some(0)).Ok? && DecimalMincover(q, sparsity, Some(0)).Ok?
            && SharedStrings(DecimalEdges(v, sparsity, Some(0)).value.edges,
                             DecimalMincover(q, sparsity, Some(0)).value.edges) == {}
  {
    var v := Finite(false, C_MAX_DIV_TEN, 1);
    var q := DecimalQuery(Finite(false, 0, 0), true, Finite(false, C_MAX, 0), true);
    OffsetRange(q.upper);
    BitLengthBounds(TWO_128 - 1);
    DecimalQueryAnswer(v, q, sparsity, Some(0));
  }

  /** And this one lies below the query's lower end and shares a string with it. */
  lemma DecimalQueryFalselyFound(sparsity: nat)
    requires sparsity >= 1
    ensures var v := Finite(false, C_MAX_DIV_TEN, 1);
            var q := DecimalQuery(Finite(false, C_MAX, 0), true, Finite(false, C_MAX, 1), true);
            && Canonical(v) && CanonicalQuery(q) && !Satisfies(v, q)
            && DecimalEdges(v, sparsity, Some(0)).Ok? && DecimalMincover(q, sparsity, Some(0)).Ok?
            && |SharedStrings(DecimalEdges(v, sparsity, Some(0)).value.edges,
                              DecimalMincover(q, sparsity, Some(0)).value.edges)| == 1
  {
    var v := Finite(false, C_MAX_DIV_TEN, 1);
    var q := DecimalQuery(Finite(false, C_MAX, 0), true, Finite(false, C_MAX, 1), true);
    OffsetRange(q.upper);
    BitLengthBounds(TWO_128 - 1);
    DecimalQueryAnswer(v, q, sparsity, Some(0));
  }

  /** A clash between its ends: this query is satisfied by its own lower end, and is refused. */
  lemma DecimalQueryRefused(sparsity: nat, trimFactorOpt: Option<int>)
    ensures var q := DecimalQuery(Finite(false, C_MAX_DIV_TEN, 1), true, Finite(false, C_MAX, 0), true);
            CanonicalQuery(q) && Satisfies(q.lower, q) && DecimalMincover(q, sparsity, trimFactorOpt).Err?
  {
    var q := DecimalQuery(Finite(false, C_MAX_DIV_TEN, 1), true, Finite(false, C_MAX, 0), true);
    ClashReverses(q.lower, q.upper);
    OffsetRange(q.lower);
    OffsetRange(q.upper);
  }

  /** Without any clash of its ends: this open range holds a decimal, its ends pinch, and it is refused. */
  lemma DecimalQueryPinched(sparsity: nat, trimFactorOpt: Option<int>)
    ensures var q := DecimalQuery(Finite(false, C_MAX_DIV_TEN, 1), false, Finite(false, C_MAX_DIV_TEN + 1, 1), false);
            && CanonicalQuery(q) && Satisfies(Finite(false, C_MAX, 0), q) && !Clash(q.lower, q.upper)
            && DecimalMincover(q, sparsity, trimFactorOpt).Err?
  {
    var q := DecimalQuery(Finite(false, C_MAX_DIV_TEN, 1), false, Finite(false, C_MAX_DIV_TEN + 1, 1), false);
    PinchedHasNoRoom(q);
    OffsetRange(q.lower);
    OffsetRange(q.upper);
  }
}

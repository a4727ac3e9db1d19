/** Powers of two, fixed-width bit strings and leading-zero counts. */
module Bits {

  function Pow2(n: nat): (p: nat)
    ensures p >= 1
  {
    if n == 0 then 1 else 2 * Pow2(n - 1)
  }

  lemma {:induction false} Pow2Add(a: nat, b: nat)
    ensures Pow2(a + b) == Pow2(a) * Pow2(b)
  {
    if a > 0 {
      Pow2Add(a - 1, b);
      assert a + b - 1 == a - 1 + b;
      assert 2 * (Pow2(a - 1) * Pow2(b)) == (2 * Pow2(a - 1)) * Pow2(b);
    }
  }

  lemma {:induction false} Pow2Monotone(a: nat, b: nat)
    requires a <= b
    ensures Pow2(a) <= Pow2(b)
    decreases b
  {
    if a < b {
      Pow2Monotone(a, b - 1);
    }
  }

  lemma Pow2Doubled(n: nat, m: nat, x: nat, y: nat)
    requires Pow2(n) == x && m == n + n && y == x * x
    ensures Pow2(m) == y
  {
    Pow2Add(n, n);
  }

  /** The 64-bit and 128-bit ranges, spelled out. */
  lemma WordSizes(n: nat, m: nat)
    requires n == 64 && m == 128
    ensures Pow2(n) == 0x1_0000_0000_0000_0000
    ensures Pow2(m - 1) == 0x8000_0000_0000_0000_0000_0000_0000_0000
    ensures Pow2(m) == 0x1_0000_0000_0000_0000_0000_0000_0000_0000
  {
    Pow2Doubled(1, 2, 2, 4);
    Pow2Doubled(2, 4, 4, 16);
    Pow2Doubled(4, 8, 16, 0x100);
    Pow2Doubled(8, 16, 0x100, 0x1_0000);
    Pow2Doubled(16, 32, 0x1_0000, 0x1_0000_0000);
    Pow2Doubled(32, n, 0x1_0000_0000, 0x1_0000_0000_0000_0000);
    Pow2Doubled(n, m, 0x1_0000_0000_0000_0000, 0x1_0000_0000_0000_0000_0000_0000_0000_0000);
  }

  lemma MulLe(a: int, b: int, c: int)
    requires a <= b && 0 <= c
    ensures a * c <= b * c
  {
  }

  lemma MulDistribute(a: int, b: int, c: int)
    ensures (a + b) * c == a * c + b * c
  {
  }

  lemma MulAssociate(a: int, b: int, c: int)
    ensures (a * b) * c == a * (b * c)
  {
  }

  lemma DivModLaw(x: int, d: int)
    requires d > 0
    ensures x == (x / d) * d + x % d && 0 <= x % d < d
    ensures 0 <= x ==> 0 <= x / d
  {
    if x / d <= -1 {
      MulLe(x / d, -1, d);
    }
  }

  /** Quotient and remainder are determined by their defining equation. */
  lemma DivUnique(x: int, d: int, q: int, r: int)
    requires 0 <= r < d && x == q * d + r
    ensures x / d == q && x % d == r
  {
    DivModLaw(x, d);
    var k := x / d - q;
    MulDistribute(k, q, d);
    if k >= 1 {
      MulLe(1, k, d);
    } else if k <= -1 {
      MulLe(k, -1, d);
    }
  }

  lemma DivDiv(x: nat, a: nat, b: nat)
    requires a > 0 && b > 0
    ensures a * b > 0 && x / a / b == x / (a * b)
  {
    var y, r := x / a, x % a;
    var z, t := y / b, y % b;
    DivModLaw(x, a);
    DivModLaw(y, b);
    MulDistribute(z * b, t, a);
    MulAssociate(z, b, a);
    MulLe(0, t, a);
    MulLe(t, b - 1, a);
    MulDistribute(b, -1, a);
    var p := a * b;
    assert b * a == p;
    assert 0 < p;
    DivUnique(x, p, z, t * a + r);
  }

  function Digit(bit: nat): char {
    if bit == 0 then '0' else '1'
  }

  /** The low n bits of v, most significant first. */
  function BitString(v: nat, n: nat): (s: string)
    ensures |s| == n
    ensures forall i :: 0 <= i < n ==> s[i] == '0' || s[i] == '1'
  {
    if n == 0 then "" else BitString(v / 2, n - 1) + [Digit(v % 2)]
  }

  /** Logical right shift, one bit at a time. */
  function Shr(v: nat, n: nat): nat {
    if n == 0 then v else Shr(v / 2, n - 1)
  }

  lemma {:induction false} ShrIsDiv(v: nat, n: nat)
    ensures Shr(v, n) == v / Pow2(n)
  {
    if n > 0 {
      ShrIsDiv(v / 2, n - 1);
      DivDiv(v, 2, Pow2(n - 1));
    }
  }

  /** Shifting by n + 1 is shifting by n and halving. */
  lemma {:induction false} ShrStep(v: nat, n: nat)
    ensures Shr(v, n + 1) == Shr(v, n) / 2
  {
    if n > 0 {
      ShrStep(v / 2, n - 1);
    }
  }

  /** Cutting a bit string cuts the number: the front is the shifted value, the back the low bits. */
  lemma {:induction false} BitStringSplit(v: nat, m: nat, n: nat)
    ensures BitString(v, m + n) == BitString(Shr(v, n), m) + BitString(v, n)
  {
    if n > 0 {
      BitStringSplit(v / 2, m, n - 1);
      assert m + n - 1 == m + (n - 1);
    }
  }

  lemma BitStringSuffix(v: nat, n: nat, k: nat)
    requires k <= n
    ensures BitString(v, n)[n - k..] == BitString(v, k)
  {
    BitStringSplit(v, n - k, k);
  }

  lemma {:induction false} BitStringInjective(a: nat, b: nat, n: nat)
    requires a < Pow2(n) && b < Pow2(n)
    requires BitString(a, n) == BitString(b, n)
    ensures a == b
  {
    if n > 0 {
      var s, t := BitString(a / 2, n - 1), BitString(b / 2, n - 1);
      assert BitString(a, n)[..n - 1] == s && BitString(b, n)[..n - 1] == t;
      assert BitString(a, n)[n - 1] == Digit(a % 2) && BitString(b, n)[n - 1] == Digit(b % 2);
      BitStringInjective(a / 2, b / 2, n - 1);
    }
  }

  /** The k-th character is '1' exactly when the bit that it stands for is set, the most significant first. */
  lemma {:induction false} BitStringDigits(v: nat, n: nat, k: nat)
    requires k < n
    ensures BitString(v, n)[k] == '1' <==> Shr(v, n - 1 - k) % 2 == 1
  {
    if k < n - 1 {
      BitStringDigits(v / 2, n - 1, k);
    }
  }

  /** `bit & v` for a mask that is zero or a single bit. */
  function BitAnd(bit: nat, v: nat): nat {
    if bit == 0 then 0 else v / bit % 2 * bit
  }

  lemma MaskedBit(v: nat, bit: nat)
    requires bit > 0
    ensures BitAnd(bit, v) == 0 <==> v / bit % 2 == 0
  {
    if v / bit % 2 == 1 {
      assert BitAnd(bit, v) == 1 * bit;
    }
  }

  /** Writes the characters from the most significant bit down, shifting a one-bit mask right. */
  method ConvertToBitstring(v: nat, width: nat) returns (s: string)
    requires width > 0
    ensures s == BitString(v, width)
  {
    s := "";
    var bit := Pow2(width - 1);
    ghost var n := 0;
    while bit > 0
      invariant 0 <= n <= width
      invariant bit == if n == width then 0 else Pow2(width - 1 - n)
      invariant s == BitString(Shr(v, width - n), n)
      decreases width - n
    {
      ShrIsDiv(v, width - 1 - n);
      ShrStep(v, width - 1 - n);
      MaskedBit(v, bit);
      s := s + [if BitAnd(bit, v) != 0 then '1' else '0'];
      bit := bit / 2;
      n := n + 1;
    }
  }

  /** A double-width value is converted as two halves. */
  method ConvertToBitstringWide(v: nat, half: nat) returns (s: string)
    requires half > 0
    ensures s == BitString(v, 2 * half)
  {
    var los := ConvertToBitstring(v % Pow2(half), half);
    var his := ConvertToBitstring(Shr(v, half), half);
    s := his + los;
    BitStringSplit(v, half, half);
    BitStringLow(v, half);
    assert half + half == 2 * half;
  }

  /** The low n bits do not depend on the bits above them. */
  lemma {:induction false} BitStringLow(v: nat, n: nat)
    ensures BitString(v % Pow2(n), n) == BitString(v, n)
  {
    if n > 0 {
      HalveMod(v, Pow2(n - 1));
      BitStringLow(v / 2, n - 1);
    }
  }

  /** Halving commutes with taking the low bits. */
  lemma HalveMod(v: nat, p: nat)
    requires p > 0
    ensures v % (2 * p) / 2 == v / 2 % p
    ensures v % (2 * p) % 2 == v % 2
  {
    var q, r := v / (2 * p), v % (2 * p);
    DivModLaw(v, 2 * p);
    MulAssociate(2, p, q);
    var t := p * q;
    assert q * (2 * p) == 2 * t;
    assert v == 2 * t + r;
    assert t == q * p;
    DivUnique(v / 2, p, q, r / 2);
  }

  /** Number of bits needed to write v; 0 for 0. */
  function BitLength(v: nat): nat {
    if v == 0 then 0 else 1 + BitLength(v / 2)
  }

  lemma {:induction false} BitLengthBounds(v: nat)
    ensures v < Pow2(BitLength(v))
    ensures v > 0 ==> BitLength(v) > 0 && Pow2(BitLength(v) - 1) <= v
  {
    if v > 0 {
      BitLengthBounds(v / 2);
    }
  }

  /** The bounds determine the bit length. */
  lemma BitLengthUnique(v: nat, n: nat)
    requires v < Pow2(n) && (n > 0 ==> Pow2(n - 1) <= v)
    ensures BitLength(v) == n
  {
    BitLengthBounds(v);
    var k := BitLength(v);
    if k < n {
      Pow2Monotone(k, n - 1);
    } else if k > n {
      Pow2Monotone(n, k - 1);
    }
  }

  method CountLeadingZeros(v: nat, width: nat) returns (count: nat)
    requires width > 0 && v < Pow2(width)
    ensures count <= width && BitLength(v) == width - count
  {
    var bit := Pow2(width - 1);
    count := 0;
    while BitAnd(bit, v) == 0 && bit > 0
      invariant 0 <= count <= width
      invariant bit == if count == width then 0 else Pow2(width - 1 - count)
      invariant v < Pow2(width - count)
      decreases width - count
    {
      if v >= bit {
        DivUnique(v, bit, 1, v - bit);
      }
      bit := bit / 2;
      count := count + 1;
    }
    if count < width && v < bit {
      DivUnique(v, bit, 0, v);
    }
    BitLengthUnique(v, width - count);
  }

  /** The double-width count looks at the low half only when the high half is zero. */
  method CountLeadingZerosWide(v: nat, half: nat) returns (count: nat)
    requires half > 0 && v < Pow2(2 * half)
    ensures count <= 2 * half && BitLength(v) == 2 * half - count
  {
    ShrLess(v, half, half);
    assert half + half == 2 * half;
    var hi := CountLeadingZeros(Shr(v, half), half);
    var lo := CountLeadingZeros(v % Pow2(half), half);
    count := hi + (if hi == half then 1 else 0) * lo;
    WideBitLength(v, half);
    ZeroHasNoBits(Shr(v, half));
  }

  lemma ZeroHasNoBits(v: nat)
    ensures BitLength(v) == 0 <==> v == 0
  {
  }

  lemma {:induction false} ShrLess(v: nat, a: nat, b: nat)
    requires v < Pow2(a + b)
    ensures Shr(v, b) < Pow2(a)
  {
    if b > 0 {
      assert a + b - 1 == a + (b - 1);
      ShrLess(v / 2, a, b - 1);
    }
  }

  lemma {:induction false} ShrZero(v: nat, n: nat)
    requires Shr(v, n) == 0
    ensures v < Pow2(n)
  {
    if n > 0 {
      ShrZero(v / 2, n - 1);
    }
  }

  lemma {:induction false} ShrBitLength(v: nat, n: nat)
    requires Shr(v, n) > 0
    ensures BitLength(v) == BitLength(Shr(v, n)) + n
  {
    if n > 0 {
      ShrBitLength(v / 2, n - 1);
      if v == 0 {
        ShrOfZero(n);
      }
    }
  }

  lemma {:induction false} ShrOfZero(n: nat)
    ensures Shr(0, n) == 0
  {
    if n > 0 {
      ShrOfZero(n - 1);
    }
  }

  lemma WideBitLength(v: nat, half: nat)
    ensures BitLength(v) == if Shr(v, half) == 0 then BitLength(v % Pow2(half)) else BitLength(Shr(v, half)) + half
  {
    if Shr(v, half) == 0 {
      ShrZero(v, half);
      DivUnique(v, Pow2(half), 0, v);
    } else {
      ShrBitLength(v, half);
    }
  }

  const WIDE: nat := 128

  /** The conversion for a given integer width: 128-bit values go through two 64-bit halves. */
  method BitstringOf(v: nat, width: nat) returns (s: string)
    requires width > 0
    ensures s == BitString(v, width)
  {
    if width == WIDE {
      s := ConvertToBitstringWide(v, 64);
    } else {
      s := ConvertToBitstring(v, width);
    }
  }

  method LeadingZerosOf(v: nat, width: nat) returns (count: nat)
    requires width > 0 && v < Pow2(width)
    ensures count <= width && BitLength(v) == width - count
  {
    if width == WIDE {
      count := CountLeadingZerosWide(v, 64);
    } else {
      count := CountLeadingZeros(v, width);
    }
  }
}

/** The code points of valid text are the encodings of Unicode scalar values (section 3 of RFC 3629). */
module Utf8Scalar {
  import opened Common
  import opened Utf8

  /** The characters of a text: Unicode scalar values other than NUL. */
  predicate IsScalar(u: nat) {
    1 <= u <= 0x10FFFF && !(0xD800 <= u <= 0xDFFF)
  }

  /** The shortest encoding, one to four bytes. */
  function ScalarBytes(u: nat): bytes
    requires u <= 0x10FFFF
  {
    if u < 0x80 then [u]
    else if u < 0x800 then [0xC0 + u / 64, 0x80 + u % 64]
    else if u < 0x1_0000 then [0xE0 + u / 4096, 0x80 + u / 64 % 64, 0x80 + u % 64]
    else [0xF0 + u / 262144, 0x80 + u / 4096 % 64, 0x80 + u / 64 % 64, 0x80 + u % 64]
  }

  lemma LowDigit(high: nat, low: nat)
    requires low < 64
    ensures (64 * high + low) / 64 == high && (64 * high + low) % 64 == low
  {
  }

  lemma Shift64(u: nat)
    ensures u / 4096 == u / 64 / 64 && u / 262144 == u / 4096 / 64
    ensures u == 64 * (u / 64) + u % 64
  {
  }

  lemma ScalarIsWellFormed(u: nat)
    requires IsScalar(u)
    ensures WellFormedChar(ScalarBytes(u))
  {
    Shift64(u);
    Shift64(u / 64);
    Shift64(u / 4096);
  }

  /** A number from its digits in base 64. */
  function FromDigits(a: nat, b: nat, c: nat, d: nat): nat {
    64 * (64 * (64 * a + b) + c) + d
  }

  lemma DigitsOf(a: nat, b: nat, c: nat, d: nat)
    requires b < 64 && c < 64 && d < 64
    ensures var u := FromDigits(a, b, c, d);
            && u / 262144 == a && u / 4096 == 64 * a + b && u / 4096 % 64 == b
            && u / 64 % 64 == c && u % 64 == d
  {
    LowDigit(64 * (64 * a + b) + c, d);
    LowDigit(64 * a + b, c);
    LowDigit(a, b);
    Shift64(FromDigits(a, b, c, d));
  }

  lemma WellFormedIsScalar(c: bytes) returns (u: nat)
    requires WellFormedChar(c)
    ensures IsScalar(u) && c == ScalarBytes(u)
  {
    var d := seq(|c|, i requires 0 <= i < |c| => c[i] as int);
    if |c| == 1 {
      u := d[0];
    } else if |c| == 2 {
      u := FromDigits(0, 0, d[0] - 0xC0, d[1] - 0x80);
      DigitsOf(0, 0, d[0] - 0xC0, d[1] - 0x80);
    } else if |c| == 3 {
      u := FromDigits(0, d[0] - 0xE0, d[1] - 0x80, d[2] - 0x80);
      DigitsOf(0, d[0] - 0xE0, d[1] - 0x80, d[2] - 0x80);
    } else {
      u := FromDigits(d[0] - 0xF0, d[1] - 0x80, d[2] - 0x80, d[3] - 0x80);
      DigitsOf(d[0] - 0xF0, d[1] - 0x80, d[2] - 0x80, d[3] - 0x80);
    }
  }

  /** The code points accepted are exactly the encodings of scalar values: no overlong form, no surrogate,
      nothing beyond U+10FFFF. */
  lemma CharIffScalar(c: bytes)
    ensures WellFormedChar(c) <==> exists u :: IsScalar(u) && c == ScalarBytes(u)
  {
    if WellFormedChar(c) {
      var u := WellFormedIsScalar(c);
    }
    if u :| IsScalar(u) && c == ScalarBytes(u) {
      ScalarIsWellFormed(u);
    }
  }
}

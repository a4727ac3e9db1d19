/** Length-hiding arithmetic: padded lengths and the number of substrings. */
module SubstringCount {
  import opened Common

  const OVERHEAD_BYTES: nat := 5
  const MAX_ENCODE_BYTE_LEN: nat := 16777216
  const MAX_I32: nat := 0x7FFF_FFFF

  /** Ciphertext length of a string of len bytes with a 16-byte block cipher. */
  function EncryptedLen(len: nat): nat {
    16 * ((len + OVERHEAD_BYTES + 16) / 16)
  }

  function PaddedLen(len: nat): nat
    ensures PaddedLen(len) > len
  {
    EncryptedLen(len) - OVERHEAD_BYTES
  }

  /** The padding rule of section 6.3 of RFC 5652 with block size 16. */
  lemma PaddingRule(len: nat)
    ensures var l := len + 5; EncryptedLen(len) == l + (16 - l % 16)
  {
  }

  /** The longest string with the same ciphertext length is one byte shorter than the padded length:
      a string of the padded length itself fills the block and gets another one. */
  lemma PaddedLenIsOneMore(len: nat, other: nat)
    ensures EncryptedLen(other) == EncryptedLen(len) ==> other <= PaddedLen(len) - 1
    ensures EncryptedLen(PaddedLen(len) - 1) == EncryptedLen(len)
    ensures EncryptedLen(PaddedLen(len)) == EncryptedLen(len) + 16
  {
  }

  /** Number of (start, length) pairs of substrings of length lb..ub in n code points, counted by end. */
  function CountSubstrings(n: nat, lb: nat, ub: nat): nat
    requires 1 <= lb <= ub
  {
    if n < lb then 0 else CountSubstrings(n - 1, lb, ub) + (Min(n, ub) - lb + 1)
  }

  lemma {:induction false} CountMonotone(m: nat, n: nat, lb: nat, ub: nat)
    requires 1 <= lb <= ub && m <= n
    ensures CountSubstrings(m, lb, ub) <= CountSubstrings(n, lb, ub)
    decreases n
  {
    if m < n {
      CountMonotone(m, n - 1, lb, ub);
    }
  }

  /** (A + B)(B - A + 1) of the closed form, before the division by two. */
  function ClosedProduct(n: nat, lb: nat, ub: nat): nat
    requires 1 <= lb <= ub && lb <= n
  {
    var a := n - Min(n, ub) + 1;
    var b := n - lb + 1;
    (a + b) * (b - a + 1)
  }

  /** While the length is at most ub, both factors grow by one. */
  lemma Triangle(w: nat)
    requires w >= 1
    ensures (w + 1) * w == w * (w - 1) + 2 * w
  {
  }

  /** Beyond ub only the first factor grows, by two. */
  lemma Strip(s: nat, w: nat)
    requires s >= 2
    ensures s * w == (s - 2) * w + 2 * w
  {
  }

  lemma {:induction false} ClosedForm(n: nat, lb: nat, ub: nat)
    requires 1 <= lb <= ub && lb <= n
    ensures ClosedProduct(n, lb, ub) == 2 * CountSubstrings(n, lb, ub)
  {
    var w := Min(n, ub) - lb + 1;
    if n == lb {
      assert CountSubstrings(n - 1, lb, ub) == 0;
      assert ClosedProduct(n, lb, ub) == 2 * 1;
    } else {
      ClosedForm(n - 1, lb, ub);
      assert CountSubstrings(n, lb, ub) == CountSubstrings(n - 1, lb, ub) + w;
      if n <= ub {
        Triangle(w);
      } else {
        Strip((n - ub + 1) + (n - lb + 1), w);
      }
    }
  }

  /** The closed form in 32-bit unsigned arithmetic. */
  function CalcNumberOfSubstrings(strlen: nat, lb: nat, ub: nat): nat
    requires 1 <= lb <= ub
  {
    if lb > strlen then 0
    else
      var largestSubstr := Min(strlen, ub);
      var largestCount := (strlen - largestSubstr + 1) % U32;
      var smallestCount := (strlen - lb + 1) % U32;
      ((largestCount + smallestCount) % U32 * ((smallestCount - largestCount + 1) % U32)) % U32 / 2
  }

  /** The product fits in 32 bits. */
  predicate NoWrap(strlen: nat, lb: nat, ub: nat)
    requires 1 <= lb <= ub
  {
    lb > strlen || ClosedProduct(strlen, lb, ub) < U32
  }

  lemma HalfOfMod(x: nat, half: nat)
    requires x == 2 * half
    ensures x % U32 / 2 == half <==> x < U32
  {
  }

  /** The computed count is the number of substrings exactly when the product does not wrap. */
  lemma CalcExactIff(strlen: nat, lb: nat, ub: nat)
    requires 1 <= lb <= ub && strlen <= MAX_ENCODE_BYTE_LEN + 16
    ensures CalcNumberOfSubstrings(strlen, lb, ub) == CountSubstrings(strlen, lb, ub) <==> NoWrap(strlen, lb, ub)
  {
    if lb <= strlen {
      var a, b := strlen - Min(strlen, ub) + 1, strlen - lb + 1;
      ClosedForm(strlen, lb, ub);
      SmallMod(a);
      SmallMod(b);
      SmallMod(a + b);
      SmallMod(b - a + 1);
      HalfOfMod((a + b) * (b - a + 1), CountSubstrings(strlen, lb, ub));
    }
  }

  lemma ProductBound(a: nat, b: nat, n: nat)
    requires 1 <= a <= b <= n
    ensures (a + b) * (b - a + 1) <= (n + 1) * n
  {
    assert (a + b) * (b - a + 1) == b * b + b - a * a + a;
    assert a * a >= a;
    assert b * b <= n * n;
    assert (n + 1) * n == n * n + n;
  }

  /** Up to 65535 code points the count is right. */
  lemma NoWrapUpTo65535(strlen: nat, lb: nat, ub: nat)
    requires 1 <= lb <= ub && strlen <= 65535
    ensures CalcNumberOfSubstrings(strlen, lb, ub) == CountSubstrings(strlen, lb, ub)
  {
    CalcExactIff(strlen, lb, ub);
    if lb <= strlen {
      ProductBound(strlen - Min(strlen, ub) + 1, strlen - lb + 1, strlen);
      assert (strlen + 1) * strlen <= 65536 * 65535;
    }
  }

  /** At 65536 code points it can be wrong: 32768 instead of 2147516416. */
  lemma WrapAt65536()
    ensures CalcNumberOfSubstrings(65536, 1, 65536) == 32768
    ensures CountSubstrings(65536, 1, 65536) == 2147516416
  {
    ClosedForm(65536, 1, 65536);
    assert ClosedProduct(65536, 1, 65536) == 65537 * 65536;
  }

  // ----- the formula of the paper

  /** sum over lengths j = lo..hi of (n - j + 1) */
  function SumByLength(n: int, lo: int, hi: int): int
    decreases hi - lo
  {
    if hi < lo then 0 else SumByLength(n, lo, hi - 1) + (n - hi + 1)
  }

  lemma {:induction false} SumStep(n: int, lo: int, hi: int)
    requires lo <= hi + 1
    ensures SumByLength(n, lo, hi) == SumByLength(n - 1, lo, hi) + (hi - lo + 1)
    decreases hi - lo
  {
    if lo <= hi {
      SumStep(n, lo, hi - 1);
    }
  }

  /** Counting by end position and counting by length agree. */
  lemma {:induction false} CountIsSumByLength(n: nat, lb: nat, ub: nat)
    requires 1 <= lb <= ub
    ensures CountSubstrings(n, lb, ub) == SumByLength(n, lb, Min(n, ub))
  {
    if n >= lb {
      CountIsSumByLength(n - 1, lb, ub);
      var h := Min(n, ub);
      if n <= ub {
        SumStep(n, lb, n - 1);
      } else {
        SumStep(n, lb, ub);
      }
    }
  }

  /** The simplified count equals the smaller of the paper's two sums. */
  lemma MsizeIsPaperFormula(mlen: nat, paddedLen: nat, lb: nat, ub: nat)
    requires 1 <= lb <= ub <= mlen && lb <= paddedLen
    ensures CountSubstrings(Min(mlen, paddedLen), lb, ub)
         == Min(SumByLength(mlen, lb, ub), SumByLength(paddedLen, lb, Min(ub, paddedLen)))
  {
    CountIsSumByLength(mlen, lb, ub);
    CountIsSumByLength(paddedLen, lb, ub);
    CountMonotone(Min(mlen, paddedLen), mlen, lb, ub);
    CountMonotone(Min(mlen, paddedLen), paddedLen, lb, ub);
  }
}

/** Strings indexed for prefix, suffix and substring search, and the check of query strings. */
module TextSearch {
  import opened Common
  import opened Utf8
  import opened StringSets
  import opened SubstringCount

  /** Length bounds in code points, as the placeholder parser accepts them. */
  datatype AffixSpec = AffixSpec(lb: nat, ub: nat)

  datatype SubstringSpec = SubstringSpec(mlen: nat, lb: nat, ub: nat)

  predicate ValidAffixSpec(s: AffixSpec) {
    1 <= s.lb <= s.ub <= MAX_I32
  }

  predicate ValidSubstringSpec(s: SubstringSpec) {
    1 <= s.lb <= s.ub <= s.mlen <= MAX_I32
  }

  // ----- prefixes and suffixes

  /** The number of entries an affix tree stands for: a function of the bounds and the padded length. */
  function AffixMsize(paddedLen: nat, s: AffixSpec): nat
    requires s.lb <= s.ub && s.lb <= paddedLen
  {
    Min(paddedLen, s.ub) - s.lb + 1
  }

  function RealAffix(n: nat, len: nat, isPrefix: bool): Affix
    requires len <= n
  {
    if isPrefix then Affix(0, len, 1) else Affix(n - len, n, 1)
  }

  /** The affixes of length lb..hi, shortest first. */
  function RealAffixes(n: nat, lb: nat, hi: nat, isPrefix: bool): (s: seq<Affix>)
    requires hi <= n
    ensures |s| == if hi >= lb then hi - lb + 1 else 0
    ensures forall k :: 0 <= k < |s| ==> s[k] == RealAffix(n, lb + k, isPrefix)
    decreases hi
  {
    if hi < lb then []
    else if hi == 0 then [RealAffix(n, 0, isPrefix)]
    else RealAffixes(n, lb, hi - 1, isPrefix) + [RealAffix(n, hi, isPrefix)]
  }

  /** Everything inserted for a text of n code points. */
  function AffixItems(n: nat, paddedLen: nat, s: AffixSpec, isPrefix: bool): seq<Affix>
    requires s.lb <= s.ub && s.lb <= paddedLen
  {
    var own := RealAffixes(n, s.lb, Min(n, s.ub), isPrefix);
    var msize := AffixMsize(paddedLen, s);
    if msize > |own| then own + [Affix(0, n + 1, msize - |own|)] else own
  }

  /** Fills a set of exactly the needed size; no insertion is refused. */
  method GenerateAffixTree(
    base: BaseString, ghost cs: seq<bytes>, unfoldedByteLen: nat, spec: AffixSpec, isPrefix: bool, msizeIn: nat)
    returns (tree: AffixSet?, msizeOut: nat)
    requires BaseOf(base, cs) && ValidAffixSpec(spec)
    requires unfoldedByteLen <= MAX_ENCODE_BYTE_LEN && |cs| <= unfoldedByteLen
    ensures tree == null <==> PaddedLen(unfoldedByteLen) < spec.lb
    ensures tree == null ==> msizeOut == msizeIn
    ensures tree != null ==>
              && fresh(tree) && fresh(tree.slots) && tree.Valid() && tree.base == base && tree.cs == cs
              && tree.slots[..] == tree.Items() == AffixItems(|cs|, PaddedLen(unfoldedByteLen), spec, isPrefix)
              && msizeOut == (msizeIn + AffixMsize(PaddedLen(unfoldedByteLen), spec)) % U32
  {
    var paddedLen := PaddedLen(unfoldedByteLen);
    if paddedLen < spec.lb {
      return null, msizeIn;
    }
    tree := FillAffixTree(base, cs, paddedLen, spec, isPrefix);
    msizeOut := (msizeIn + (Min(paddedLen, spec.ub) - spec.lb + 1)) % U32;
  }

  method FillAffixTree(base: BaseString, ghost cs: seq<bytes>, paddedLen: nat, spec: AffixSpec, isPrefix: bool)
    returns (affixes: AffixSet)
    requires BaseOf(base, cs) && ValidAffixSpec(spec) && spec.lb <= paddedLen && |cs| <= paddedLen
    ensures fresh(affixes) && fresh(affixes.slots) && affixes.Valid() && affixes.base == base && affixes.cs == cs
    ensures affixes.slots[..] == affixes.Items() == AffixItems(|cs|, paddedLen, spec, isPrefix)
  {
    var msize := Min(paddedLen, spec.ub) - spec.lb + 1;
    var foldedLen := |base.offsets| - 1;
    var realMaxLen := Min(foldedLen, spec.ub);
    var realSubstrings := if realMaxLen >= spec.lb then realMaxLen - spec.lb + 1 else 0;
    var setSize := if realSubstrings == msize then realSubstrings else realSubstrings + 1;
    affixes := new AffixSet(base, cs, setSize);
    var nInserted := InsertAffixes(affixes, foldedLen, spec.lb, realMaxLen, isPrefix);
    nInserted := PadAffixes(affixes, msize - realSubstrings, nInserted);
    assert nInserted == setSize;
  }

  /** Adds the padding entry, if there is anything to pad; there is room for it. */
  method PadAffixes(affixes: AffixSet, padding: nat, count: nat) returns (nInserted: nat)
    requires affixes.Valid() && count == |affixes.Items()| && (padding > 0 ==> count < affixes.slots.Length)
    modifies affixes`curIdx, affixes.slots
    ensures affixes.Valid() && nInserted == |affixes.Items()|
    ensures affixes.Items() ==
            old(affixes.Items()) + if padding > 0 then [Affix(0, |affixes.base.offsets|, padding)] else []
  {
    nInserted := count;
    if padding != 0 {
      var ok := affixes.InsertBaseString(padding);
      assert ok;
      nInserted := count + 1;
    }
  }

  /** Inserts the affixes of length lb..hi. */
  method InsertAffixes(affixes: AffixSet, foldedLen: nat, lb: nat, hi: nat, isPrefix: bool) returns (nInserted: nat)
    requires affixes.Valid() && affixes.Items() == [] && foldedLen == |affixes.base.offsets| - 1
    requires 1 <= lb && hi <= foldedLen && hi - lb + 1 <= affixes.slots.Length
    modifies affixes`curIdx, affixes.slots
    ensures affixes.Valid() && affixes.Items() == RealAffixes(foldedLen, lb, hi, isPrefix)
    ensures nInserted == |affixes.Items()|
  {
    nInserted := 0;
    var i := lb;
    while i < hi + 1
      invariant lb <= i <= Max(lb, hi + 1)
      invariant affixes.Valid() && nInserted == |affixes.Items()| == i - lb
      invariant forall k :: 0 <= k < nInserted ==> affixes.Items()[k] == RealAffix(foldedLen, lb + k, isPrefix)
    {
      var ok: bool;
      if isPrefix {
        ok := affixes.Insert(0, i);
      } else {
        ok := affixes.Insert(foldedLen - i, foldedLen);
      }
      assert ok;
      i := i + 1;
      nInserted := nInserted + 1;
    }
    assert affixes.Items() == RealAffixes(foldedLen, lb, hi, isPrefix);
  }

  /** What iterating over an affix tree yields for a text with code points cs. */
  function AffixString(cs: seq<bytes>, a: Affix): bytes {
    if a.start <= a.end <= |cs| then Flatten(cs[a.start..a.end]) else Flatten(cs) + [BAD_CHAR]
  }

  lemma AffixEntryString(base: BaseString, cs: seq<bytes>, a: Affix)
    requires BaseOf(base, cs) && ValidRange(base, a.start, a.end)
    requires a.end <= |cs| || (a.start == 0 && a.end == |cs| + 1)
    ensures RangeOk(base, a.start, a.end)
    ensures AffixEntry(base, a) == Entry(AffixString(cs, a), a.count)
  {
    RangeBytes(base, cs, a.start, a.end);
  }

  function SumAffixCounts(items: seq<Affix>): nat {
    if items == [] then 0 else SumAffixCounts(items[..|items| - 1]) + items[|items| - 1].count
  }

  lemma {:induction false} RealAffixCounts(n: nat, lb: nat, hi: nat, isPrefix: bool)
    requires hi <= n && lb >= 1
    ensures SumAffixCounts(RealAffixes(n, lb, hi, isPrefix)) == |RealAffixes(n, lb, hi, isPrefix)|
    decreases hi
  {
    if hi >= lb {
      RealAffixCounts(n, lb, hi - 1, isPrefix);
      SumAffixAppend(RealAffixes(n, lb, hi - 1, isPrefix), RealAffix(n, hi, isPrefix));
    }
  }

  lemma SumAffixAppend(items: seq<Affix>, a: Affix)
    ensures SumAffixCounts(items + [a]) == SumAffixCounts(items) + a.count
  {
    assert (items + [a])[..|items|] == items;
  }

  /** That size is the number of affixes of a text of the padded length, which is not padded. */
  lemma LongestNotPadded(paddedLen: nat, s: AffixSpec, isPrefix: bool)
    requires ValidAffixSpec(s) && s.lb <= paddedLen
    ensures var longest := RealAffixes(paddedLen, s.lb, Min(paddedLen, s.ub), isPrefix);
            AffixMsize(paddedLen, s) == |longest| && AffixItems(paddedLen, paddedLen, s, isPrefix) == longest
  {
  }

  /** The counts hide the text: they add up to a number fixed by the bounds and the padded length. */
  lemma AffixCountsHideLength(n: nat, paddedLen: nat, s: AffixSpec, isPrefix: bool)
    requires ValidAffixSpec(s) && s.lb <= paddedLen && n <= paddedLen
    ensures SumAffixCounts(AffixItems(n, paddedLen, s, isPrefix)) == AffixMsize(paddedLen, s)
  {
    RealAffixCounts(n, s.lb, Min(n, s.ub), isPrefix);
    PaddedCounts(RealAffixes(n, s.lb, Min(n, s.ub), isPrefix), AffixMsize(paddedLen, s), n + 1);
  }

  lemma PaddedCounts(own: seq<Affix>, msize: nat, end: nat)
    requires SumAffixCounts(own) == |own| <= msize
    ensures SumAffixCounts(if msize > |own| then own + [Affix(0, end, msize - |own|)] else own) == msize
  {
    if msize > |own| {
      SumAffixAppend(own, Affix(0, end, msize - |own|));
    }
  }

  /** q is the text's prefix or suffix. */
  predicate HasAffix(t: bytes, q: bytes, isPrefix: bool) {
    if isPrefix then q <= t else EndsWith(t, q)
  }

  ghost predicate YieldsString(cs: seq<bytes>, items: seq<Affix>, q: bytes) {
    exists k :: 0 <= k < |items| && AffixString(cs, items[k]) == q
  }

  /** A query within the length bounds is yielded by the tree exactly when it is a prefix (suffix) of
      the text, byte for byte; the padding entry never equals it. */
  lemma AffixQueryMatches(cs: seq<bytes>, qs: seq<bytes>, paddedLen: nat, s: AffixSpec, isPrefix: bool)
    requires WellFormed(cs) && WellFormed(qs) && ValidAffixSpec(s)
    requires s.lb <= |qs| <= s.ub && s.lb <= paddedLen
    ensures YieldsString(cs, AffixItems(|cs|, paddedLen, s, isPrefix), Flatten(qs)) <==>
            HasAffix(Flatten(cs), Flatten(qs), isPrefix)
  {
    var items := AffixItems(|cs|, paddedLen, s, isPrefix);
    CharAffix(cs, qs, isPrefix);
    if k :| 0 <= k < |items| && AffixString(cs, items[k]) == Flatten(qs) {
      ItemShape(|cs|, paddedLen, s, isPrefix, k);
      YieldedIsAffix(cs, qs, items[k], isPrefix);
    }
    if HasAffix(Flatten(cs), Flatten(qs), isPrefix) {
      AffixIsYielded(cs, qs, paddedLen, s, isPrefix);
    }
  }

  lemma CharAffix(cs: seq<bytes>, qs: seq<bytes>, isPrefix: bool)
    requires WellFormed(cs) && WellFormed(qs) && qs != []
    ensures HasAffix(Flatten(cs), Flatten(qs), isPrefix) <==> if isPrefix then qs <= cs else EndsWith(cs, qs)
  {
    BytePrefixIsCharPrefix(cs, qs);
    ByteSuffixIsCharSuffix(cs, qs);
  }

  /** Every entry is an affix of the text or the padding. */
  lemma ItemShape(n: nat, paddedLen: nat, s: AffixSpec, isPrefix: bool, k: nat)
    requires s.lb <= s.ub && s.lb <= paddedLen && k < |AffixItems(n, paddedLen, s, isPrefix)|
    ensures var a := AffixItems(n, paddedLen, s, isPrefix)[k];
            a.end == n + 1 || (a.start <= a.end <= n && a == RealAffix(n, a.end - a.start, isPrefix))
  {
  }

  lemma AffixIsYielded(cs: seq<bytes>, qs: seq<bytes>, paddedLen: nat, s: AffixSpec, isPrefix: bool)
    requires ValidAffixSpec(s) && s.lb <= |qs| <= s.ub && s.lb <= paddedLen
    requires if isPrefix then qs <= cs else EndsWith(cs, qs)
    ensures YieldsString(cs, AffixItems(|cs|, paddedLen, s, isPrefix), Flatten(qs))
  {
    var items, k := AffixItems(|cs|, paddedLen, s, isPrefix), |qs| - s.lb;
    RealAffixString(cs, qs, isPrefix);
    OwnItem(|cs|, paddedLen, s, isPrefix, k);
    assert items[k] == RealAffix(|cs|, |qs|, isPrefix);
    YieldedAt(cs, items, k);
  }

  lemma YieldedAt(cs: seq<bytes>, items: seq<Affix>, k: nat)
    requires k < |items|
    ensures YieldsString(cs, items, AffixString(cs, items[k]))
  {
  }

  lemma RealAffixString(cs: seq<bytes>, qs: seq<bytes>, isPrefix: bool)
    requires if isPrefix then qs <= cs else EndsWith(cs, qs)
    ensures AffixString(cs, RealAffix(|cs|, |qs|, isPrefix)) == Flatten(qs)
  {
    var a := RealAffix(|cs|, |qs|, isPrefix);
    assert cs[a.start..a.end] == qs;
  }

  lemma OwnItem(n: nat, paddedLen: nat, s: AffixSpec, isPrefix: bool, k: nat)
    requires s.lb <= s.ub && s.lb <= paddedLen && s.lb + k <= Min(n, s.ub)
    ensures k < |AffixItems(n, paddedLen, s, isPrefix)|
    ensures AffixItems(n, paddedLen, s, isPrefix)[k] == RealAffix(n, s.lb + k, isPrefix)
  {
  }

  lemma YieldedIsAffix(cs: seq<bytes>, qs: seq<bytes>, a: Affix, isPrefix: bool)
    requires WellFormed(cs) && WellFormed(qs) && qs != [] && AffixString(cs, a) == Flatten(qs)
    requires a.end == |cs| + 1 || (a.start <= a.end <= |cs| && a == RealAffix(|cs|, a.end - a.start, isPrefix))
    ensures if isPrefix then qs <= cs else EndsWith(cs, qs)
  {
    NoBadChar(qs);
    var padded := Flatten(cs) + [BAD_CHAR];
    assert padded[|Flatten(cs)|] == BAD_CHAR;
    if a.end != |cs| + 1 {
      FlattenInjective(cs[a.start..a.end], qs);
    }
  }

  // ----- substrings

  /** The substrings of lb..ub code points that start before code point i. */
  ghost function SubstringsBefore(cs: seq<bytes>, lb: nat, ub: nat, i: nat): set<bytes>
    requires i <= |cs| + 1
  {
    set a, e | 0 <= a < i && a + lb <= e <= Min(|cs|, a + ub) :: Flatten(cs[a..e])
  }

  /** Those that start at i and end before e. */
  ghost function RowBefore(cs: seq<bytes>, i: nat, lb: nat, e: nat): set<bytes>
    requires e <= |cs| + 1
  {
    set j | i + lb <= j < e :: Flatten(cs[i..j])
  }

  ghost function SubstringsOf(cs: seq<bytes>, lb: nat, ub: nat): set<bytes> {
    set a, e | 0 <= a <= |cs| && a + lb <= e <= Min(|cs|, a + ub) :: Flatten(cs[a..e])
  }

  lemma NothingBefore(cs: seq<bytes>, lb: nat, ub: nat)
    ensures SubstringsBefore(cs, lb, ub, 0) == {}
  {
  }

  lemma EmptyRow(cs: seq<bytes>, i: nat, lb: nat)
    requires i + lb <= |cs|
    ensures RowBefore(cs, i, lb, i + lb) == {}
  {
  }

  lemma SubstringsNextRow(cs: seq<bytes>, lb: nat, ub: nat, i: nat)
    requires i + lb <= |cs| && lb <= ub
    ensures SubstringsBefore(cs, lb, ub, i + 1)
         == SubstringsBefore(cs, lb, ub, i) + RowBefore(cs, i, lb, Min(|cs|, i + ub) + 1)
  {
  }

  lemma SubstringsComplete(cs: seq<bytes>, lb: nat, ub: nat, i: nat)
    requires i <= |cs| + 1 && |cs| < i + lb
    ensures SubstringsBefore(cs, lb, ub, i) == SubstringsOf(cs, lb, ub)
  {
  }

  lemma RowNext(cs: seq<bytes>, i: nat, lb: nat, e: nat)
    requires i + lb <= e <= |cs|
    ensures RowBefore(cs, i, lb, e + 1) == RowBefore(cs, i, lb, e) + {Flatten(cs[i..e])}
  {
  }

  lemma {:induction false} RowSize(cs: seq<bytes>, i: nat, lb: nat, e: nat)
    requires i + lb <= e <= |cs| + 1
    ensures |RowBefore(cs, i, lb, e)| <= e - (i + lb)
  {
    if e == i + lb {
      assert RowBefore(cs, i, lb, e) == {};
    } else {
      RowSize(cs, i, lb, e - 1);
      RowNext(cs, i, lb, e - 1);
      UnionSize(RowBefore(cs, i, lb, e - 1), {Flatten(cs[i..e - 1])}, RowBefore(cs, i, lb, e), e - 1 - (i + lb), 1);
    }
  }

  /** At most as many distinct substrings as positions. */
  lemma {:induction false} SubstringsBeforeSize(cs: seq<bytes>, lb: nat, ub: nat, i: nat)
    requires 1 <= lb <= ub && i + lb <= |cs| + 1
    ensures |SubstringsBefore(cs, lb, ub, i)| <= CountSubstrings(|cs|, lb, ub) - CountSubstrings(|cs| - i, lb, ub)
  {
    if i == 0 {
      assert SubstringsBefore(cs, lb, ub, i) == {};
    } else {
      var k := i - 1;
      SubstringsBeforeSize(cs, lb, ub, k);
      CountStep(|cs| - k, lb, ub);
      NextRowSize(cs, lb, ub, k);
    }
  }

  lemma CountStep(n: nat, lb: nat, ub: nat)
    requires 1 <= lb <= ub && lb <= n
    ensures CountSubstrings(n, lb, ub) == CountSubstrings(n - 1, lb, ub) + (Min(n, ub) - lb + 1)
  {
  }

  lemma NextRowSize(cs: seq<bytes>, lb: nat, ub: nat, k: nat)
    requires 1 <= lb <= ub && k + lb <= |cs|
    ensures |SubstringsBefore(cs, lb, ub, k + 1)| <= |SubstringsBefore(cs, lb, ub, k)| + (Min(|cs| - k, ub) - lb + 1)
  {
    var front, row := SubstringsBefore(cs, lb, ub, k), RowBefore(cs, k, lb, Min(|cs|, k + ub) + 1);
    SubstringsNextRow(cs, lb, ub, k);
    RowSize(cs, k, lb, Min(|cs|, k + ub) + 1);
    UnionSize(front, row, SubstringsBefore(cs, lb, ub, k + 1), |front|, Min(|cs| - k, ub) - lb + 1);
  }

  lemma UnionSize<T>(a: set<T>, b: set<T>, c: set<T>, m: int, n: int)
    requires c == a + b && |a| <= m && |b| <= n
    ensures |c| <= m + n
  {
    assert |a + b| == |a| + |b - a|;
    assert b == (b - a) + (b * a);
  }

  lemma SubstringsSize(cs: seq<bytes>, lb: nat, ub: nat)
    requires 1 <= lb <= ub
    ensures |SubstringsOf(cs, lb, ub)| <= CountSubstrings(|cs|, lb, ub)
  {
    if |cs| < lb {
      assert SubstringsOf(cs, lb, ub) == {};
    } else {
      var i := |cs| - lb + 1;
      SubstringsBeforeSize(cs, lb, ub, i);
      SubstringsComplete(cs, lb, ub, i);
    }
  }

  ghost function Prefixes(cs: seq<bytes>, k: nat): set<bytes>
    requires k <= |cs|
  {
    set e | 1 <= e <= k :: Flatten(cs[0..e])
  }

  /** Prefixes of different lengths differ. */
  lemma {:induction false} PrefixCount(cs: seq<bytes>, k: nat)
    requires WellFormed(cs) && k <= |cs|
    ensures |Prefixes(cs, k)| == k
  {
    if k == 0 {
      assert Prefixes(cs, k) == {};
    } else {
      PrefixCount(cs, k - 1);
      var longest := Flatten(cs[0..k]);
      assert Prefixes(cs, k) == Prefixes(cs, k - 1) + {longest};
      if longest in Prefixes(cs, k - 1) {
        var e :| 1 <= e <= k - 1 && Flatten(cs[0..e]) == longest;
        FlattenInjective(cs[0..e], cs[0..k]);
      }
    }
  }

  /** With lower bound 1 there are at least as many distinct substrings as prefixes within the bounds. */
  lemma PrefixesAreSubstrings(cs: seq<bytes>, ub: nat)
    requires WellFormed(cs) && 1 <= ub
    ensures Min(|cs|, ub) <= |SubstringsOf(cs, 1, ub)|
  {
    var k := Min(|cs|, ub);
    PrefixCount(cs, k);
    var all, prefixes := SubstringsOf(cs, 1, ub), Prefixes(cs, k);
    assert prefixes <= all;
    assert all == prefixes + (all - prefixes);
  }

  /** A query within the length bounds is an indexed substring exactly when it occurs in the text,
      byte for byte. */
  lemma SubstringQueryMatches(cs: seq<bytes>, qs: seq<bytes>, lb: nat, ub: nat)
    requires WellFormed(cs) && WellFormed(qs) && 1 <= lb <= |qs| <= ub
    ensures Flatten(qs) in SubstringsOf(cs, lb, ub) <==> Occurs(Flatten(qs), Flatten(cs))
  {
    ByteMatchIsCharMatch(cs, qs);
    if Flatten(qs) in SubstringsOf(cs, lb, ub) {
      var a, e :| 0 <= a <= |cs| && a + lb <= e <= Min(|cs|, a + ub) && Flatten(cs[a..e]) == Flatten(qs);
      FlattenInjective(cs[a..e], qs);
      assert OccursAt(qs, cs, a);
    }
    if k :| OccursAt(qs, cs, k) {
      assert Flatten(cs[k..k + |qs|]) in SubstringsOf(cs, lb, ub);
    }
  }

  /** The number of entries a substring tree stands for, as computed. */
  function SubstringMsize(unfoldedByteLen: nat, s: SubstringSpec): nat
    requires ValidSubstringSpec(s)
  {
    CalcNumberOfSubstrings(Min(s.mlen, PaddedLen(unfoldedByteLen)), s.lb, s.ub)
  }

  /** The computed size of the tree is too small for the substrings counted in 32 bits. */
  ghost predicate NoRoom(cs: seq<bytes>, unfoldedByteLen: nat, s: SubstringSpec)
    requires ValidSubstringSpec(s)
  {
    && PaddedLen(unfoldedByteLen) >= s.lb
    && SubstringMsize(unfoldedByteLen, s) < |SubstringsOf(cs, s.lb, s.ub)| % U32
  }

  /** Any text of 32769 to 65536 code points indexed with bounds 1 and 65536: the count wraps to 32768, and
      its prefixes alone are more. */
  lemma NoRoomAt65536(cs: seq<bytes>, unfoldedByteLen: nat, s: SubstringSpec)
    requires WellFormed(cs) && ValidSubstringSpec(s)
    requires s.lb == 1 && s.ub == s.mlen == 65536 && 32768 < |cs| <= 65536 <= PaddedLen(unfoldedByteLen)
    ensures SubstringMsize(unfoldedByteLen, s) == 32768 && NoRoom(cs, unfoldedByteLen, s)
  {
    WrapAt65536();
    PrefixesAreSubstrings(cs, s.ub);
    SubstringsSize(cs, s.lb, s.ub);
    CountMonotone(|cs|, 65536, s.lb, s.ub);
    SmallMod(|SubstringsOf(cs, s.lb, s.ub)|);
  }

  /** Inserts every substring; pads up to the computed size. `aborted` is the failing assertion that
      the computed size exceeds the number of insertions when the two differ. */
  method GenerateSubstringTree(
    base: BaseString, ghost cs: seq<bytes>, unfoldedByteLen: nat, spec: SubstringSpec, msizeIn: nat)
    returns (tree: SubstringSet?, aborted: bool, msizeOut: nat)
    requires BaseOf(base, cs) && ValidSubstringSpec(spec) && unfoldedByteLen <= MAX_ENCODE_BYTE_LEN
    ensures tree == null <==> PaddedLen(unfoldedByteLen) < spec.lb
    ensures tree == null ==> !aborted && msizeOut == msizeIn
    ensures tree != null ==>
              && fresh(tree) && fresh(tree.buckets) && tree.Valid() && tree.base == base && tree.cs == cs
              && tree.contents == SubstringsOf(cs, spec.lb, spec.ub)
    ensures aborted <==> NoRoom(cs, unfoldedByteLen, spec)
    ensures tree != null && !aborted ==>
              && tree.baseStringCount == SubstringMsize(unfoldedByteLen, spec) - |tree.contents| % U32
              && msizeOut == (msizeIn + SubstringMsize(unfoldedByteLen, spec)) % U32
  {
    aborted, msizeOut := false, msizeIn;
    if PaddedLen(unfoldedByteLen) < spec.lb {
      return null, false, msizeIn;
    }
    var paddedLen := Min(spec.mlen, PaddedLen(unfoldedByteLen));
    var msize := CalcNumberOfSubstrings(paddedLen, spec.lb, spec.ub);
    MsizeFits(paddedLen, spec.lb, spec.ub);
    var strings, nReal := FillSubstringTree(base, cs, spec);
    tree := strings;
    aborted := PadSubstrings(strings, msize, nReal);
    if !aborted {
      msizeOut := (msizeIn + msize) % U32;
    }
  }

  method FillSubstringTree(base: BaseString, ghost cs: seq<bytes>, spec: SubstringSpec)
    returns (strings: SubstringSet, nReal: nat)
    requires BaseOf(base, cs) && ValidSubstringSpec(spec)
    ensures fresh(strings) && fresh(strings.buckets) && strings.Valid() && strings.base == base && strings.cs == cs
    ensures strings.contents == SubstringsOf(cs, spec.lb, spec.ub) && strings.baseStringCount == 0
    ensures nReal == |strings.contents| % U32
  {
    var foldedLen := |base.offsets| - 1;
    NoSubstrings(cs, spec.lb, spec.ub);
    strings := new SubstringSet(base, cs);
    nReal := 0;
    if foldedLen >= spec.lb {
      nReal := InsertSubstrings(strings, foldedLen, spec.lb, spec.ub);
    }
  }

  /** Adds the padding count, or fails the assertion that there is room for it. */
  method PadSubstrings(strings: SubstringSet, msize: nat, nReal: nat) returns (aborted: bool)
    requires strings.Valid() && strings.baseStringCount == 0 && msize < U32
    modifies strings`baseStringCount
    ensures strings.Valid() && strings.contents == old(strings.contents)
    ensures aborted == (msize < nReal)
    ensures !aborted ==> strings.baseStringCount == msize - nReal
  {
    aborted := false;
    if msize != nReal {
      if msize <= nReal {
        return true;
      }
      SmallMod(msize - nReal);
      strings.IncrementFakeString(msize - nReal);
    }
  }

  lemma NoSubstrings(cs: seq<bytes>, lb: nat, ub: nat)
    requires 1 <= lb
    ensures |cs| < lb ==> SubstringsOf(cs, lb, ub) == {}
  {
  }

  lemma MsizeFits(n: nat, lb: nat, ub: nat)
    requires 1 <= lb <= ub
    ensures CalcNumberOfSubstrings(n, lb, ub) < U32
  {
  }

  /** The two nested loops: every start, every end within the bounds. Only new strings are counted. */
  method InsertSubstrings(strings: SubstringSet, foldedLen: nat, lb: nat, ub: nat) returns (nReal: nat)
    requires strings.Valid() && strings.contents == {}
    requires foldedLen == |strings.cs| && 1 <= lb <= ub && lb <= foldedLen
    modifies strings.buckets, strings`contents
    ensures strings.Valid()
    ensures strings.contents == SubstringsOf(strings.cs, lb, ub)
    ensures nReal == |strings.contents| % U32
  {
    ghost var cs := strings.cs;
    nReal := 0;
    NothingBefore(cs, lb, ub);
    var i := 0;
    while i < foldedLen - lb + 1
      invariant 0 <= i <= foldedLen - lb + 1
      invariant strings.Valid()
      invariant strings.contents == SubstringsBefore(cs, lb, ub, i)
      invariant nReal == |strings.contents| % U32
    {
      ghost var next := SubstringsBefore(cs, lb, ub, i + 1);
      SubstringsNextRow(cs, lb, ub, i);
      nReal := InsertRow(strings, foldedLen, lb, ub, i, nReal);
      assert strings.contents == next;
      i := i + 1;
    }
    SubstringsComplete(cs, lb, ub, i);
  }

  /** A 32-bit counter incremented by one. */
  function Increment32(n: nat): nat {
    if n + 1 == U32 then 0 else n + 1
  }

  lemma IncrementWraps(n: nat)
    ensures Increment32(n % U32) == (n + 1) % U32
  {
  }

  /** Inserts one substring and counts it when it is new. */
  method InsertCounted(strings: SubstringSet, i: nat, j: nat, count: nat) returns (nReal: nat)
    requires strings.Valid() && count == |strings.contents| % U32 && i <= j <= |strings.cs|
    modifies strings.buckets, strings`contents
    ensures strings.Valid()
    ensures strings.contents == old(strings.contents) + {Flatten(strings.cs[i..j])}
    ensures nReal == |strings.contents| % U32
  {
    RangeBytes(strings.base, strings.cs, i, j);
    ghost var prev := strings.contents;
    var inserted := strings.Insert(i, j);
    if inserted {
      assert |strings.contents| == |prev| + 1;
      IncrementWraps(|prev|);
      nReal := Increment32(count);
    } else {
      assert strings.contents == prev;
      nReal := count;
    }
  }

  method InsertRow(strings: SubstringSet, foldedLen: nat, lb: nat, ub: nat, i: nat, count: nat) returns (nReal: nat)
    requires strings.Valid() && count == |strings.contents| % U32
    requires foldedLen == |strings.cs| && 1 <= lb <= ub && i + lb <= foldedLen
    modifies strings.buckets, strings`contents
    ensures strings.Valid()
    ensures strings.contents == old(strings.contents) + RowBefore(strings.cs, i, lb, Min(foldedLen, i + ub) + 1)
    ensures nReal == |strings.contents| % U32
  {
    ghost var cs, before := strings.cs, strings.contents;
    nReal := count;
    var j := i + lb;
    var stop := Min(foldedLen, i + ub) + 1;
    EmptyRow(cs, i, lb);
    while j < stop
      invariant i + lb <= j <= stop
      invariant strings.Valid()
      invariant strings.contents == before + RowBefore(cs, i, lb, j)
      invariant nReal == |strings.contents| % U32
    {
      RowNext(cs, i, lb, j);
      nReal := InsertCounted(strings, i, j, nReal);
      j := j + 1;
    }
  }
}

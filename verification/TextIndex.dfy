/** Encoding a string for the text index, accepting a query string, and how the two meet. */
module TextIndex {
  import opened Common
  import opened Utf8
  import opened StringSets
  import opened SubstringCount
  import opened TextSearch

  /** `fold` asks for case or diacritic folding. Folding itself is a parameter of the operations: its
      outcome for the string v. */
  datatype TextSpec = TextSpec(
    v: bytes, fold: bool, substr: Option<SubstringSpec>, suffix: Option<AffixSpec>, prefix: Option<AffixSpec>)

  predicate ValidTextSpec(s: TextSpec) {
    && (s.substr.Some? ==> ValidSubstringSpec(s.substr.value))
    && (s.suffix.Some? ==> ValidAffixSpec(s.suffix.value))
    && (s.prefix.Some? ==> ValidAffixSpec(s.prefix.value))
  }

  /** Folding yields valid UTF-8 with no more code points than its input. */
  predicate FoldContract(v: bytes, folded: Result<bytes>) {
    ValidUtf8(v) && folded.Ok? ==> ValidUtf8(folded.value) && |Chars(folded.value)| <= |Chars(v)|
  }

  /** The string that is indexed or queried. */
  function BaseText(s: TextSpec, folded: Result<bytes>): Result<bytes> {
    if s.fold then folded else Ok(s.v)
  }

  /** Counts code points by their lead bytes. */
  method Utf8CodepointLength(text: bytes) returns (n: nat)
    requires ValidUtf8(text)
    ensures n == |Chars(text)|
  {
    ghost var cs := Chars(text);
    FlattenChars(text);
    OffsetEnds(cs);
    var cur := 0;
    n := 0;
    while cur < |text|
      invariant n <= |cs| && cur == Offset(cs, n) <= |text|
      decreases |text| - cur
    {
      CodepointAt(cs, n);
      cur := cur + LeadLen(text[cur]);
      n := n + 1;
    }
    if n < |cs| {
      CodepointAt(cs, n);
    }
  }

  class EncodeSets {
    const base: BaseString
    const suffixSet: AffixSet?
    const prefixSet: AffixSet?
    const substringSet: SubstringSet?
    const exact: bytes
    const msize: nat

    constructor (base: BaseString, suffixSet: AffixSet?, prefixSet: AffixSet?, substringSet: SubstringSet?,
                 exact: bytes, msize: nat)
      ensures this.base == base && this.suffixSet == suffixSet && this.prefixSet == prefixSet
      ensures this.substringSet == substringSet && this.exact == exact && this.msize == msize
    {
      this.base, this.suffixSet, this.prefixSet := base, suffixSet, prefixSet;
      this.substringSet, this.exact, this.msize := substringSet, exact, msize;
    }
  }

  /** An affix tree holds exactly the entries for the text, or is missing because no affix can reach
      the lower bound. */
  ghost predicate AffixTreeFor(tree: AffixSet?, cs: seq<bytes>, paddedLen: nat, spec: Option<AffixSpec>, isPrefix: bool)
    reads tree, if tree == null then {} else {tree.slots}
  {
    if spec.None? || paddedLen < spec.value.lb then tree == null
    else
      && tree != null && tree.Valid() && tree.cs == cs
      && spec.value.lb <= spec.value.ub
      && tree.slots[..] == AffixItems(|cs|, paddedLen, spec.value, isPrefix)
  }

  /** A substring tree holds exactly the substrings of the text and pads up to the computed size. */
  ghost predicate SubstringTreeFor(tree: SubstringSet?, cs: seq<bytes>, byteLen: nat, spec: Option<SubstringSpec>)
    reads tree, if tree == null then {} else {tree.buckets}
  {
    if spec.None? || PaddedLen(byteLen) < spec.value.lb then tree == null
    else
      && tree != null && tree.Valid() && tree.cs == cs && ValidSubstringSpec(spec.value)
      && tree.contents == SubstringsOf(cs, spec.value.lb, spec.value.ub)
      && tree.baseStringCount == SubstringMsize(byteLen, spec.value) - |tree.contents| % U32
  }

  function AffixShare(spec: Option<AffixSpec>, byteLen: nat): nat
    requires spec.Some? ==> ValidAffixSpec(spec.value)
  {
    if spec.None? || PaddedLen(byteLen) < spec.value.lb then 0 else AffixMsize(PaddedLen(byteLen), spec.value)
  }

  function SubstringShare(spec: Option<SubstringSpec>, byteLen: nat): nat
    requires spec.Some? ==> ValidSubstringSpec(spec.value)
  {
    if spec.None? || PaddedLen(byteLen) < spec.value.lb then 0 else SubstringMsize(byteLen, spec.value)
  }

  /** The number of tags an encoded string stands for; the text enters only through its byte length. */
  function TotalMsize(s: TextSpec): nat
    requires ValidTextSpec(s)
  {
    (1 + AffixShare(s.suffix, |s.v|) + AffixShare(s.prefix, |s.v|) + SubstringShare(s.substr, |s.v|)) % U32
  }

  /** Strings that encrypt to the same length stand for the same number of tags. */
  lemma TotalHidesLength(s: TextSpec, t: TextSpec)
    requires ValidTextSpec(s) && t.substr == s.substr && t.suffix == s.suffix && t.prefix == s.prefix
    requires (|s.v| + OVERHEAD_BYTES) / 16 == (|t.v| + OVERHEAD_BYTES) / 16
    ensures TotalMsize(s) == TotalMsize(t)
  {
    assert EncryptedLen(|s.v|) == EncryptedLen(|t.v|);
  }

  /** The closed form of the substring count does not wrap for this string. */
  predicate SubstringCountFits(s: TextSpec)
    requires ValidTextSpec(s)
  {
    s.substr.Some? ==>
      NoWrap(Min(s.substr.value.mlen, PaddedLen(|s.v|)), s.substr.value.lb, s.substr.value.ub)
  }

  /** While the count does not wrap there is room for every distinct substring. */
  lemma RoomForSubstrings(cs: seq<bytes>, byteLen: nat, spec: SubstringSpec)
    requires ValidSubstringSpec(spec) && byteLen <= MAX_ENCODE_BYTE_LEN
    requires |cs| <= byteLen && |cs| <= spec.mlen
    requires NoWrap(Min(spec.mlen, PaddedLen(byteLen)), spec.lb, spec.ub)
    ensures |SubstringsOf(cs, spec.lb, spec.ub)| <= SubstringMsize(byteLen, spec) < U32
    ensures SubstringMsize(byteLen, spec) == CountSubstrings(Min(spec.mlen, PaddedLen(byteLen)), spec.lb, spec.ub)
  {
    var n := Min(spec.mlen, PaddedLen(byteLen));
    CalcExactIff(n, spec.lb, spec.ub);
    SubstringsSize(cs, spec.lb, spec.ub);
    CountMonotone(|cs|, n, spec.lb, spec.ub);
    MsizeFits(n, spec.lb, spec.ub);
  }

  lemma ModAdd(a: nat, b: nat)
    ensures (a % U32 + b) % U32 == (a + b) % U32
  {
  }

  /** The trees of an encoded string and its total. */
  ghost predicate SetsFor(sets: EncodeSets, cs: seq<bytes>, s: TextSpec)
    reads sets.suffixSet, if sets.suffixSet == null then {} else {sets.suffixSet.slots}
    reads sets.prefixSet, if sets.prefixSet == null then {} else {sets.prefixSet.slots}
    reads sets.substringSet, if sets.substringSet == null then {} else {sets.substringSet.buckets}
    requires ValidTextSpec(s)
  {
    && BaseOf(sets.base, cs)
    && sets.exact == Flatten(cs)
    && sets.msize == TotalMsize(s)
    && AffixTreeFor(sets.suffixSet, cs, PaddedLen(|s.v|), s.suffix, false)
    && AffixTreeFor(sets.prefixSet, cs, PaddedLen(|s.v|), s.prefix, true)
    && SubstringTreeFor(sets.substringSet, cs, |s.v|, s.substr)
  }

  method BuildAffixTree(
    base: BaseString, ghost cs: seq<bytes>, byteLen: nat, spec: Option<AffixSpec>, isPrefix: bool,
    msizeIn: nat, ghost total: nat)
    returns (tree: AffixSet?, msizeOut: nat)
    requires BaseOf(base, cs) && |cs| <= byteLen <= MAX_ENCODE_BYTE_LEN
    requires spec.Some? ==> ValidAffixSpec(spec.value)
    requires msizeIn == total % U32
    ensures tree != null ==> fresh(tree) && fresh(tree.slots)
    ensures AffixTreeFor(tree, cs, PaddedLen(byteLen), spec, isPrefix)
    ensures msizeOut == (total + AffixShare(spec, byteLen)) % U32
  {
    tree, msizeOut := null, msizeIn;
    if spec.Some? {
      tree, msizeOut := GenerateAffixTree(base, cs, byteLen, spec.value, isPrefix, msizeIn);
    }
    ModAdd(total, AffixShare(spec, byteLen));
  }

  method BuildSubstringTree(
    base: BaseString, ghost cs: seq<bytes>, byteLen: nat, spec: Option<SubstringSpec>, msizeIn: nat, ghost total: nat)
    returns (tree: SubstringSet?, aborted: bool, msizeOut: nat)
    requires BaseOf(base, cs) && |cs| <= byteLen <= MAX_ENCODE_BYTE_LEN
    requires spec.Some? ==> ValidSubstringSpec(spec.value) && |cs| <= spec.value.mlen
    requires msizeIn == total % U32
    ensures tree != null ==> fresh(tree) && fresh(tree.buckets)
    ensures aborted <==> spec.Some? && NoRoom(cs, byteLen, spec.value)
    ensures !aborted ==> SubstringTreeFor(tree, cs, byteLen, spec)
    ensures !aborted ==> msizeOut == (total + SubstringShare(spec, byteLen)) % U32
  {
    tree, aborted, msizeOut := null, false, msizeIn;
    if spec.Some? {
      tree, aborted, msizeOut := GenerateSubstringTree(base, cs, byteLen, spec.value, msizeIn);
    }
    ModAdd(total, SubstringShare(spec, byteLen));
  }

  /** The strings that the encoder takes: within the length limits, valid UTF-8, and folded successfully. */
  ghost predicate Encodable(s: TextSpec, folded: Result<bytes>) {
    && |s.v| <= MAX_ENCODE_BYTE_LEN && ValidUtf8(s.v) && BaseText(s, folded).Ok?
    && (s.substr.Some? ==> |Chars(s.v)| <= s.substr.value.mlen)
  }

  /** Among them, those on which an internal assertion fails: the substring tree is built and its computed
      size is too small. */
  ghost predicate EncodeAborts(s: TextSpec, folded: Result<bytes>)
    requires ValidTextSpec(s) && FoldContract(s.v, folded)
  {
    Encodable(s, folded) && s.substr.Some? && NoRoom(Chars(BaseText(s, folded).value), |s.v|, s.substr.value)
  }

  /** This takes a substring count that does not fit 32 bits. */
  lemma AbortNeedsWrap(s: TextSpec, folded: Result<bytes>)
    requires ValidTextSpec(s) && FoldContract(s.v, folded) && EncodeAborts(s, folded)
    ensures !SubstringCountFits(s)
  {
    if SubstringCountFits(s) {
      var cs := Chars(BaseText(s, folded).value);
      FlattenChars(s.v);
      CharCountAtMostBytes(Chars(s.v));
      RoomForSubstrings(cs, |s.v|, s.substr.value);
      SmallMod(|SubstringsOf(cs, s.substr.value.lb, s.substr.value.ub)|);
    }
  }

  /** And it does happen: on every such text of more than 32768 code points, with bounds 1 and 65536. */
  lemma AbortsAt65536(s: TextSpec, folded: Result<bytes>)
    requires ValidTextSpec(s) && FoldContract(s.v, folded) && Encodable(s, folded)
    requires s.substr == Some(SubstringSpec(65536, 1, 65536))
    requires |Chars(BaseText(s, folded).value)| > 32768 && PaddedLen(|s.v|) >= 65536
    ensures EncodeAborts(s, folded)
  {
    FlattenChars(BaseText(s, folded).value);
    NoRoomAt65536(Chars(BaseText(s, folded).value), |s.v|, s.substr.value);
  }

  /** Refuses what is not encodable; otherwise builds every requested tree. `aborted` stands for the
      failing internal assertion. */
  method StrEncode(s: TextSpec, folded: Result<bytes>) returns (sets: EncodeSets?, aborted: bool)
    requires ValidTextSpec(s) && FoldContract(s.v, folded)
    ensures aborted <==> EncodeAborts(s, folded)
    ensures sets != null <==>
              && |s.v| <= 0x100_0000 && ValidUtf8(s.v) && (s.fold ==> folded.Ok?)
              && (s.substr.Some? ==> |Chars(s.v)| <= s.substr.value.mlen) && !aborted
    ensures sets != null ==> sets.exact == if s.fold then folded.value else s.v
    ensures sets != null ==> ValidUtf8(sets.exact) && SetsFor(sets, Chars(sets.exact), s)
  {
    if |s.v| > MAX_ENCODE_BYTE_LEN || !ValidUtf8(s.v) {
      return null, false;
    }
    var text := BaseText(s, folded);
    if text.Err? {
      return null, false;
    }
    var base := BaseStringFromBuffer(text.value);
    ghost var cs := Chars(text.value);
    FlattenChars(text.value);
    FlattenChars(s.v);
    CharCountAtMostBytes(Chars(s.v));
    sets, aborted := BuildSets(s, base, cs);
  }

  method BuildAffixTrees(s: TextSpec, base: BaseString, ghost cs: seq<bytes>)
    returns (suffixSet: AffixSet?, prefixSet: AffixSet?, msize: nat)
    requires ValidTextSpec(s) && BaseOf(base, cs) && |cs| <= |s.v| <= MAX_ENCODE_BYTE_LEN
    ensures suffixSet != null ==> fresh(suffixSet) && fresh(suffixSet.slots)
    ensures prefixSet != null ==> fresh(prefixSet) && fresh(prefixSet.slots)
    ensures AffixTreeFor(suffixSet, cs, PaddedLen(|s.v|), s.suffix, false)
    ensures AffixTreeFor(prefixSet, cs, PaddedLen(|s.v|), s.prefix, true)
    ensures msize == (1 + AffixShare(s.suffix, |s.v|) + AffixShare(s.prefix, |s.v|)) % U32
  {
    suffixSet, msize := BuildAffixTree(base, cs, |s.v|, s.suffix, false, 1, 1);
    prefixSet, msize := BuildAffixTree(base, cs, |s.v|, s.prefix, true, msize, 1 + AffixShare(s.suffix, |s.v|));
  }

  method BuildSets(s: TextSpec, base: BaseString, ghost cs: seq<bytes>) returns (sets: EncodeSets?, aborted: bool)
    requires ValidTextSpec(s) && BaseOf(base, cs) && ValidUtf8(s.v)
    requires |cs| <= |Chars(s.v)| <= |s.v| <= MAX_ENCODE_BYTE_LEN
    ensures aborted <==>
              s.substr.Some? && |Chars(s.v)| <= s.substr.value.mlen && NoRoom(cs, |s.v|, s.substr.value)
    ensures sets != null <==> (s.substr.Some? ==> |Chars(s.v)| <= s.substr.value.mlen) && !aborted
    ensures sets != null ==> SetsFor(sets, cs, s)
  {
    var suffixSet, prefixSet, msize := BuildAffixTrees(s, base, cs);
    var tooLong := ExceedsMlen(s);
    if tooLong {
      return null, false;
    }
    var substringSet, failed, total :=
      BuildSubstringTree(base, cs, |s.v|, s.substr, msize,
                         1 + AffixShare(s.suffix, |s.v|) + AffixShare(s.prefix, |s.v|));
    if failed {
      return null, true;
    }
    aborted := false;
    sets := AssembleSets(s, base, cs, suffixSet, prefixSet, substringSet, total);
  }

  /** The substring index limits the length before folding. */
  method ExceedsMlen(s: TextSpec) returns (r: bool)
    requires ValidUtf8(s.v)
    ensures r <==> s.substr.Some? && |Chars(s.v)| > s.substr.value.mlen
  {
    r := false;
    if s.substr.Some? {
      var unfoldedLen := Utf8CodepointLength(s.v);
      r := unfoldedLen > s.substr.value.mlen;
    }
  }

  method AssembleSets(
    s: TextSpec, base: BaseString, ghost cs: seq<bytes>,
    suffixSet: AffixSet?, prefixSet: AffixSet?, substringSet: SubstringSet?, total: nat)
    returns (sets: EncodeSets)
    requires ValidTextSpec(s) && BaseOf(base, cs) && total == TotalMsize(s)
    requires AffixTreeFor(suffixSet, cs, PaddedLen(|s.v|), s.suffix, false)
    requires AffixTreeFor(prefixSet, cs, PaddedLen(|s.v|), s.prefix, true)
    requires SubstringTreeFor(substringSet, cs, |s.v|, s.substr)
    ensures SetsFor(sets, cs, s)
  {
    assert base.buf[..|base.buf| - 1] == Flatten(cs);
    sets := new EncodeSets(base, suffixSet, prefixSet, substringSet, base.buf[..|base.buf| - 1], total);
  }

  /** The bounds that apply to a query: the first of substring, suffix and prefix that is set. */
  function QueryBounds(s: TextSpec): Option<AffixSpec> {
    if s.substr.Some? then Some(AffixSpec(s.substr.value.lb, s.substr.value.ub))
    else if s.suffix.Some? then s.suffix
    else s.prefix
  }

  /** Not empty, and the length in code points lies within the bounds. */
  ghost predicate QueryFits(text: bytes, lb: nat, ub: nat) {
    ValidUtf8(text) && 1 <= |Chars(text)| && lb <= |Chars(text)| <= ub
  }

  /** The accepted query string, or the refusal. */
  function StrQuery(s: TextSpec, folded: Result<bytes>): (r: Result<bytes>)
    requires FoldContract(s.v, folded)
    ensures r.Ok? <==>
              && |s.v| <= 0x100_0000 && ValidUtf8(s.v) && (s.fold ==> folded.Ok?)
              && var text := if s.fold then folded.value else s.v;
              && (s.substr.Some? ==> QueryFits(text, s.substr.value.lb, s.substr.value.ub))
              && (s.substr.None? && s.suffix.Some? ==> QueryFits(text, s.suffix.value.lb, s.suffix.value.ub))
              && (s.substr.None? && s.suffix.None? && s.prefix.Some? ==>
                    QueryFits(text, s.prefix.value.lb, s.prefix.value.ub))
    ensures r.Ok? ==> ValidUtf8(r.value) && r.value == if s.fold then folded.value else s.v
  {
    if |s.v| > MAX_ENCODE_BYTE_LEN then Err
    else if !ValidUtf8(s.v) then Err
    else
      match BaseText(s, folded)
      case Err => Err
      case Ok(text) =>
        var n := |Chars(text)|;
        match QueryBounds(s)
        case None => Ok(text)
        case Some(b) =>
          if n == 0 then Err
          else if n > b.ub then Err
          else if n < b.lb then Err
          else Ok(text)
  }

  /** What the substring tree of a stored string yield. */
  ghost predicate SubstringsYielded(s: TextSpec, text: bytes, tree: SubstringSet?, es: seq<Entry>)
    reads tree, if tree == null then {} else {tree.buckets}
  {
    && ValidUtf8(text) && SubstringTreeFor(tree, Chars(text), |s.v|, s.substr)
    && if tree == null then es == [] else YieldsExactly(es, tree.contents, tree.base, tree.baseStringCount)
  }

  ghost predicate Found(es: seq<Entry>, query: bytes) {
    exists k :: 0 <= k < |es| && es[k].str == query
  }

  /** End to end for substrings: the accepted query is among the items that the stored string's tree
      yields exactly when it occurs in the stored string, byte for byte; a missing tree misses nothing;
      and the counts of the items add up to the computed size. */
  lemma SubstringSearch(
    s: TextSpec, folded: Result<bytes>, text: bytes, q: TextSpec, qFolded: Result<bytes>, query: bytes,
    tree: SubstringSet?, es: seq<Entry>)
    requires ValidTextSpec(s) && FoldContract(s.v, folded) && FoldContract(q.v, qFolded)
    requires s.substr.Some? && q.substr.Some?
    requires q.substr.value.lb == s.substr.value.lb && q.substr.value.ub == s.substr.value.ub
    requires ValidUtf8(s.v) && BaseText(s, folded) == Ok(text)
    requires StrQuery(q, qFolded).Ok? && BaseText(q, qFolded) == Ok(query)
    requires SubstringsYielded(s, text, tree, es)
    ensures StrQuery(q, qFolded).value == query
    ensures Found(es, query) <==> Occurs(query, text)
    ensures |s.v| <= MAX_ENCODE_BYTE_LEN && |Chars(s.v)| <= s.substr.value.mlen && SubstringCountFits(s) ==>
              SumCounts(es) == SubstringShare(s.substr, |s.v|)
  {
    var cs, qs := Chars(text), Chars(query);
    FlattenChars(text);
    FlattenChars(query);
    FlattenChars(s.v);
    CharCountAtMostBytes(Chars(s.v));
    SubstringQueryMatches(cs, qs, s.substr.value.lb, s.substr.value.ub);
    NoBadChar(qs);
    NoSubstrings(cs, s.substr.value.lb, s.substr.value.ub);
    if tree != null {
      assert tree.base.buf[|Flatten(cs)|] == BAD_CHAR;
      YieldedMeaning(es, tree.contents, tree.base, tree.baseStringCount, query);
      if |s.v| <= MAX_ENCODE_BYTE_LEN && |Chars(s.v)| <= s.substr.value.mlen && SubstringCountFits(s) {
        RoomForSubstrings(cs, |s.v|, s.substr.value);
        SmallMod(|tree.contents|);
      }
    }
  }

  /** The strings that draining an affix tree reports. */
  ghost predicate DrainedFrom(es: seq<Entry>, tree: AffixSet)
    reads tree, tree.slots
    requires tree.Valid()
  {
    && |es| == tree.slots.Length
    && forall k :: 0 <= k < |es| ==>
         && RangeOk(tree.base, tree.slots[k].start, tree.slots[k].end)
         && es[k] == AffixEntry(tree.base, tree.slots[k])
  }

  /** What an affix tree of a stored string yields. */
  ghost predicate AffixesYielded(
    s: TextSpec, text: bytes, spec: Option<AffixSpec>, isPrefix: bool, tree: AffixSet?, es: seq<Entry>)
    reads tree, if tree == null then {} else {tree.slots}
  {
    && ValidUtf8(text) && AffixTreeFor(tree, Chars(text), PaddedLen(|s.v|), spec, isPrefix)
    && if tree == null then es == [] else DrainedFrom(es, tree)
  }

  /** The query asks for prefixes (suffixes) within the bounds of the stored string's index. */
  predicate AsksAffix(q: TextSpec, s: TextSpec, isPrefix: bool) {
    && q.substr.None?
    && if isPrefix then q.suffix.None? && s.prefix.Some? && q.prefix == s.prefix
       else s.suffix.Some? && q.suffix == s.suffix
  }

  /** A query within the bounds is yielded by an affix tree exactly when it is an affix of the text. */
  lemma AffixAnswer(
    s: TextSpec, text: bytes, query: bytes, spec: AffixSpec, isPrefix: bool, tree: AffixSet?, es: seq<Entry>)
    requires ValidAffixSpec(spec) && ValidUtf8(query) && spec.lb <= |Chars(query)| <= spec.ub
    requires AffixesYielded(s, text, Some(spec), isPrefix, tree, es) && |Chars(text)| <= |s.v|
    ensures Found(es, query) <==> HasAffix(text, query, isPrefix)
  {
    var cs, qs, padded := Chars(text), Chars(query), PaddedLen(|s.v|);
    FlattenChars(text);
    FlattenChars(query);
    if tree == null {
      CharAffix(cs, qs, isPrefix);
    } else {
      AffixQueryMatches(cs, qs, padded, spec, isPrefix);
      var items := AffixItems(|cs|, padded, spec, isPrefix);
      forall k | 0 <= k < |es|
        ensures es[k].str == AffixString(cs, items[k])
      {
        assert tree.slots[k] == items[k];
        ItemShape(|cs|, padded, spec, isPrefix, k);
        PaddingItem(|cs|, padded, spec, isPrefix, k);
        AffixEntryString(tree.base, cs, items[k]);
      }
      if k :| 0 <= k < |items| && AffixString(cs, items[k]) == query {
        assert es[k].str == query;
      }
    }
  }

  /** End to end for prefixes and suffixes: the accepted query is yielded exactly when it is a prefix
      (suffix) of the stored string; a missing tree misses nothing. */
  lemma AffixSearch(
    s: TextSpec, folded: Result<bytes>, text: bytes, q: TextSpec, qFolded: Result<bytes>, query: bytes,
    isPrefix: bool, tree: AffixSet?, es: seq<Entry>)
    requires ValidTextSpec(s) && FoldContract(s.v, folded) && FoldContract(q.v, qFolded)
    requires AsksAffix(q, s, isPrefix)
    requires ValidUtf8(s.v) && BaseText(s, folded) == Ok(text)
    requires StrQuery(q, qFolded).Ok? && BaseText(q, qFolded) == Ok(query)
    requires AffixesYielded(s, text, if isPrefix then s.prefix else s.suffix, isPrefix, tree, es)
    ensures StrQuery(q, qFolded).value == query
    ensures Found(es, query) <==> HasAffix(text, query, isPrefix)
  {
    var spec := if isPrefix then s.prefix.value else s.suffix.value;
    FlattenChars(s.v);
    CharCountAtMostBytes(Chars(s.v));
    AffixAnswer(s, text, query, spec, isPrefix, tree, es);
  }

  /** Texts and queries with equal folding outcomes get equal answers. */
  lemma FoldedSubstringsSearchAlike(
    s: TextSpec, s': TextSpec, folded: Result<bytes>, q: TextSpec, q': TextSpec, qFolded: Result<bytes>,
    tree: SubstringSet?, tree': SubstringSet?, es: seq<Entry>, es': seq<Entry>)
    requires s.fold && s'.fold && q.fold && q'.fold && folded.Ok? && qFolded.Ok?
    requires ValidTextSpec(s) && ValidTextSpec(s')
    requires s.substr.Some? && s'.substr == q.substr == q'.substr == s.substr
    requires ValidUtf8(s.v) && FoldContract(s.v, folded) && FoldContract(q.v, qFolded)
    requires ValidUtf8(s'.v) && FoldContract(s'.v, folded) && FoldContract(q'.v, qFolded)
    requires StrQuery(q, qFolded).Ok? && StrQuery(q', qFolded).Ok?
    requires SubstringsYielded(s, folded.value, tree, es) && SubstringsYielded(s', folded.value, tree', es')
    ensures Found(es, StrQuery(q, qFolded).value) <==> Found(es', StrQuery(q', qFolded).value)
  {
    SubstringSearch(s, folded, folded.value, q, qFolded, qFolded.value, tree, es);
    SubstringSearch(s', folded, folded.value, q', qFolded, qFolded.value, tree', es');
  }

  /** And so with prefixes and suffixes. */
  lemma FoldedAffixesSearchAlike(
    s: TextSpec, s': TextSpec, folded: Result<bytes>, q: TextSpec, q': TextSpec, qFolded: Result<bytes>,
    isPrefix: bool, tree: AffixSet?, tree': AffixSet?, es: seq<Entry>, es': seq<Entry>)
    requires s.fold && s'.fold && q.fold && q'.fold && folded.Ok? && qFolded.Ok?
    requires ValidTextSpec(s) && s'.suffix == s.suffix && s'.prefix == s.prefix && s'.substr == s.substr
    requires AsksAffix(q, s, isPrefix) && AsksAffix(q', s', isPrefix)
    requires ValidUtf8(s.v) && FoldContract(s.v, folded) && FoldContract(q.v, qFolded)
    requires ValidUtf8(s'.v) && FoldContract(s'.v, folded) && FoldContract(q'.v, qFolded)
    requires StrQuery(q, qFolded).Ok? && StrQuery(q', qFolded).Ok?
    requires AffixesYielded(s, folded.value, if isPrefix then s.prefix else s.suffix, isPrefix, tree, es)
    requires AffixesYielded(s', folded.value, if isPrefix then s.prefix else s.suffix, isPrefix, tree', es')
    ensures Found(es, StrQuery(q, qFolded).value) <==> Found(es', StrQuery(q', qFolded).value)
  {
    AffixSearch(s, folded, folded.value, q, qFolded, qFolded.value, isPrefix, tree, es);
    AffixSearch(s', folded, folded.value, q', qFolded, qFolded.value, isPrefix, tree', es');
  }

  lemma PaddingItem(n: nat, paddedLen: nat, s: AffixSpec, isPrefix: bool, k: nat)
    requires s.lb <= s.ub && s.lb <= paddedLen && k < |AffixItems(n, paddedLen, s, isPrefix)|
    ensures var a := AffixItems(n, paddedLen, s, isPrefix)[k]; a.end == n + 1 ==> a.start == 0
  {
  }

  // ----- the total

  /** The counts that iterating over an affix tree reports add up to the tree's share. */
  lemma DrainedAffixCounts(
    es: seq<Entry>, tree: AffixSet?, cs: seq<bytes>, byteLen: nat, spec: Option<AffixSpec>, isPrefix: bool)
    requires spec.Some? ==> ValidAffixSpec(spec.value)
    requires |cs| <= byteLen && AffixTreeFor(tree, cs, PaddedLen(byteLen), spec, isPrefix)
    requires if tree == null then es == [] else DrainedFrom(es, tree)
    ensures SumCounts(es) == AffixShare(spec, byteLen)
  {
    if tree != null {
      var items := AffixItems(|cs|, PaddedLen(byteLen), spec.value, isPrefix);
      AffixCountsHideLength(|cs|, PaddedLen(byteLen), spec.value, isPrefix);
      forall k | 0 <= k < |es|
        ensures es[k].count == items[k].count
      {
        assert tree.slots[k] == items[k];
      }
      SameCounts(es, items);
    }
  }

  lemma {:induction false} SameCounts(es: seq<Entry>, items: seq<Affix>)
    requires |es| == |items| && forall k :: 0 <= k < |es| ==> es[k].count == items[k].count
    ensures SumCounts(es) == SumAffixCounts(items)
  {
    if es != [] {
      var n := |es| - 1;
      SameCounts(es[..n], items[..n]);
      SumCountsConcat(es[..n], [es[n]]);
      assert es == es[..n] + [es[n]];
      assert SumCounts([es[n]]) == es[n].count + SumCounts([es[n]][1..]);
    }
  }

  /** Up to a multiple of 2^32, so do those of a substring tree. */
  lemma DrainedSubstringCounts(
    es: seq<Entry>, tree: SubstringSet?, cs: seq<bytes>, byteLen: nat, spec: Option<SubstringSpec>)
    requires spec.Some? ==> ValidSubstringSpec(spec.value)
    requires SubstringTreeFor(tree, cs, byteLen, spec)
    requires if tree == null then es == [] else YieldsExactly(es, tree.contents, tree.base, tree.baseStringCount)
    ensures SumCounts(es) % U32 == SubstringShare(spec, byteLen) % U32
  {
    if tree != null {
      assert tree.base.buf[|Flatten(cs)|] == BAD_CHAR;
      YieldedMeaning(es, tree.contents, tree.base, tree.baseStringCount, []);
      WholeWraps(SumCounts(es), |tree.contents|, tree.baseStringCount, SubstringShare(spec, byteLen));
    }
  }

  lemma AddCongruent(rest: nat, a: nat, b: nat)
    requires a % U32 == b % U32
    ensures (rest + a) % U32 == (rest + b) % U32
  {
    ModAdd(a, rest);
    ModAdd(b, rest);
  }

  lemma SharesAddUp(s: TextSpec, suffixes: nat, prefixes: nat, substrings: nat)
    requires ValidTextSpec(s)
    requires suffixes == AffixShare(s.suffix, |s.v|) && prefixes == AffixShare(s.prefix, |s.v|)
    requires substrings % U32 == SubstringShare(s.substr, |s.v|) % U32
    ensures TotalMsize(s) == (1 + suffixes + prefixes + substrings) % U32
  {
    AddCongruent(1 + suffixes + prefixes, substrings, SubstringShare(s.substr, |s.v|));
  }

  /** n members and padding that lacks n reduced to 32 bits. */
  lemma WholeWraps(sum: nat, n: nat, padding: nat, share: nat)
    requires sum == n + padding && padding == share - n % U32
    ensures sum % U32 == share % U32
  {
    assert sum == U32 * (n / U32) + share;
  }

  /** Every tag is accounted for: the exact string and the counts of all items of all trees add up, in 32
      bits, to the reported total. */
  lemma TotalIsSumOfCounts(
    sets: EncodeSets, cs: seq<bytes>, s: TextSpec, suffixes: seq<Entry>, prefixes: seq<Entry>, substrings: seq<Entry>)
    requires ValidTextSpec(s) && |cs| <= |s.v| && SetsFor(sets, cs, s)
    requires if sets.suffixSet == null then suffixes == [] else DrainedFrom(suffixes, sets.suffixSet)
    requires if sets.prefixSet == null then prefixes == [] else DrainedFrom(prefixes, sets.prefixSet)
    requires var tree := sets.substringSet;
             if tree == null then substrings == []
             else YieldsExactly(substrings, tree.contents, tree.base, tree.baseStringCount)
    ensures sets.msize == (1 + SumCounts(suffixes) + SumCounts(prefixes) + SumCounts(substrings)) % U32
  {
    DrainedAffixCounts(suffixes, sets.suffixSet, cs, |s.v|, s.suffix, false);
    DrainedAffixCounts(prefixes, sets.prefixSet, cs, |s.v|, s.prefix, true);
    DrainedSubstringCounts(substrings, sets.substringSet, cs, |s.v|, s.substr);
    SharesAddUp(s, SumCounts(suffixes), SumCounts(prefixes), SumCounts(substrings));
  }
}

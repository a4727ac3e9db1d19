# Queryable encryption in libmongocrypt: models and proofs

libmongocrypt encrypts fields on the client and lets the server search them without seeing them. These
modules model the parts of the library on which right answers depend, and prove what those parts promise.

- **Range index** (`Bits`, `RangeEdges`, `RangeMinCover`, `RangeIndex`, `RangeCoverSize`, `RangeQuery`,
  `RangeInteger`, `RangeDouble`, `RangeDecimal`). An insert stores the bit prefixes ("edges") of the encoded
  value at the stored levels; a query stores a recursive dyadic cover of the range. The two are written
  independently. For every bit length, sparsity and trim factor, edges and cover share exactly one string
  when the value is in range and none otherwise; the cover is the smallest possible, and its size is bounded.
  The numeric encodings that feed the index keep the order of the values.
- **Text index** (`Utf8`, `Utf8Scalar`, `StringSets`, `SubstringCount`, `TextSearch`, `TextIndex`). Prefix,
  suffix and substring sets over UTF-8 text with a 0xFF sentinel, a chained hash set with an iterator, and
  padding that makes the number of tags depend only on the padded length. An accepted query is among the
  indexed strings exactly when it occurs in the text. UTF-8 is that of RFC 3629 sections 3 and 4; the padding
  is that of section 6.3 of RFC 5652.
- **Indexed encrypted values** (`Cursor`, `IndexedValue`). The version 2 payload parser and serializer undo
  each other, and the four accessors of a text value partition its metadata.
- **Caches** (`TtlCache`, `KeyCache`). The cache with a time to live behaves as one that never evicts; the
  key cache's match relation is not transitive, yet look-ups by a single id or name have one answer.
- **Schema broker** (`Bson`, `SchemaBroker`, `SchemaOrigin`, `SchemaCommand`, `CommandFields`). Collections ask
  for schemas, sources satisfy them, and commands get the schemas written into them: the first source that has
  something for a collection wins, every requested collection is described exactly once, and a reader finds the
  broker's schema for it.
- **Data keys over KMIP** (`DataKey`) and **range find specifications** (`RangeFindSpec`). A step protocol
  with its progress condition, and a query rewriting that keeps the interval it denotes.

Code that updates state in place is written with classes and loops here as well, and each method is tied to a
function of the old state; the lemmas are about those functions. Errors are `Result`/`Option` values; the text
of error messages is not modelled. Arithmetic that wraps in C is written with its modulus.

## Where the code and its comments disagree

The models follow the code.

- `src/mc-range-encoding.c:794` describes the exponent shift as the greatest one that keeps the coefficient
  within 10^34 - 1, but the loop at line 803 compares strictly with 10^33 - 1, so a coefficient of exactly
  10^33 - 1 is left unscaled. The order of codes then fails: `RangeDecimal.DecimalOrderCounterexample` gives a
  pair, and `RangeDecimal.DecimalOrderIff` says exactly which pairs fail. `RangeDecimal.DecimalQueryAnswer`
  says what every query answers, and `RangeDecimal.DecimalQueryRightIff` for which queries that is right. A
  query can miss a value that satisfies it (`DecimalQueryMissed`), find one that does not
  (`DecimalQueryFalselyFound`), or be refused although its range is not empty. Such a refusal has two causes:
  the two ends clash, so that the code of the lower one is above that of the upper one
  (`DecimalQueryRefused`), or, without a clash, the range is open and reaches from a coefficient 10^33 - 1 to
  the next decimal away from zero with that exponent, so that the two codes are adjacent although values of
  the next lower exponent lie between (`DecimalQueryPinched`). `RangeDecimal.DecimalQueryRefusedIff` proves
  that there is no third.
- `src/mc-text-search-str-encode.c:43` and `:119` call the padded length the greatest length that encrypts to
  the given number of blocks; it is one more than that (`SubstringCount.PaddedLenIsOneMore`). The padding still
  hides the length.
- The closed form of `src/mc-text-search-str-encode.c:95-107` is computed in 32 bits. It is right exactly when
  the product does not wrap (`SubstringCount.CalcExactIff`): always up to 65535 code points, not always at
  65536 (`SubstringCount.WrapAt65536`), and the library accepts longer strings. When the wrapped size is too
  small for the distinct substrings, the assertion at line 171 fails; `TextIndex.StrEncode` gives the exact
  condition. With the bounds 1 and 65536 and a padded length of at least 65536 it fails for every text of more
  than 32768 code points (`TextIndex.AbortsAt65536`): the computed size is 32768, and the text's prefixes
  alone are more.
- The assertion at `src/mc-range-encoding.c:811` is explained by the scaling loop, but it also fails for a
  coefficient that exceeds 10^34 - 1 from the start, which the 113 bits of the field can hold
  (`RangeDecimal.GetTypeInfoDecimal128`).

## Model

| member | source | states |
|---|---|---|
| Bits.ConvertToBitstring | src/mc-range-edge-generation.c:123-149 | the mask loop writes the bits of the value from the most significant down |
| Bits.ConvertToBitstringWide | src/mc-range-edge-generation.c:151-160 | two 64-bit halves written in order give the bits of the whole |
| Bits.BitStringDigits | src/mc-range-edge-generation.c:123-149 | each character is 1 exactly when the bit it stands for is set, the most significant first |
| Bits.CountLeadingZeros | src/mc-range-edge-generation-private.h:98-130 | the loop's count and the bit length of the value add up to the width, zero included |
| Bits.CountLeadingZerosWide | src/mc-range-edge-generation-private.h:132-137 | the same for a value made of two halves, from the counts of the halves |
| RangeEdges.DefaultTrimIsValid | src/mc-range-encoding.c:852-862 | the default is six or, below that, the greatest valid factor; a given factor is taken as it is |
| RangeEdges.EdgesNew | src/mc-range-edge-generation.c:38-88 | succeeds exactly for a positive sparsity and a trim factor below the leaf length; the edges are root (untrimmed only), leaf, and the prefixes at the stored levels |
| RangeEdges.AppendPrefixes | src/mc-range-edge-generation.c:78-85 | the loop appends exactly the prefixes of stored lengths below the leaf, shortest first |
| RangeEdges.PrefixEdgesMember | src/mc-range-edge-generation.c:78-85 | a string is among them exactly when it is the leaf's prefix of a stored length |
| RangeEdges.NodeNameInjective | src/mc-range-mincover-generator.template.h:176-191 | the names of tree nodes, "root" included, are distinct |
| RangeEdges.EdgeIsStoredAncestor | src/mc-range-edge-generation.c:60-87 | every edge names a stored-level ancestor of the leaf |
| RangeEdges.StoredAncestorIsEdge | src/mc-range-edge-generation.c:60-87 | every stored-level ancestor of the leaf is named by an edge |
| RangeEdges.EdgesDistinct | src/mc-range-edge-generation.c:60-87 | no edge is listed twice |
| RangeMinCover.ToString | src/mc-range-mincover-generator.template.h:176-191 | the written name is the node's: the value's bits without the width's leading zeros, cut by the masked bits, or root |
| RangeMinCover.MinCoverRec | src/mc-range-mincover-generator.template.h:193-218 | terminates, never masks zero bits, and appends exactly the names of the blocks of the cover |
| RangeMinCover.MinCover | src/mc-range-mincover-generator.template.h:220-226 | the array holds the names of the cover of the whole domain |
| RangeMinCover.GeneratorNew | src/mc-range-mincover-generator.template.h:97-144 | accepts exactly a range inside the domain with a positive sparsity and a valid trim factor |
| RangeMinCover.CoverNamesStep | src/mc-range-mincover-generator.template.h:193-218 | the names of the blocks of one call are nothing, its own name, or those of its two calls in order |
| RangeMinCover.AlignedMask | src/mc-range-mincover-generator.template.h:152-161 | setting the masked bits of an aligned block start gives the block's last value |
| RangeMinCover.HoldsIffSamePrefix | src/mc-range-mincover-generator.template.h:152-191 | a block holds a value exactly when their unmasked bits agree |
| RangeIndex.CoverTiles | src/mc-range-mincover-generator.template.h:193-218 | the blocks of a recursive call lie end to end in ascending order over the part of the range inside the call's block |
| RangeIndex.CoverPartitionsRange | src/mc-range-mincover-generator.template.h:193-226 | the blocks are disjoint, ascending, and their union is exactly the range |
| RangeIndex.CoverBlocksStored | src/mc-range-mincover-generator.template.h:167-174 | every block is of a stored level and aligned |
| RangeIndex.EdgesMeetCoverOnce | src/mc-range-mincover-generator.template.h:152-218 | the edges of a value and the cover of a range share exactly one string if the value is in the range and none otherwise |
| RangeIndex.IndexListsDistinct | src/mc-range-mincover-generator.template.h:193-226 | neither list repeats a string |
| RangeIndex.CoverBlocksMaximal | src/mc-range-mincover-generator.template.h:201-217 | no stored-level block inside the range properly contains a block of the cover |
| RangeIndex.StoredIffNamesItsValues | src/mc-range-mincover-generator.template.h:167-174 | the blocks that a query may emit are exactly those that the insert side stores: the name is an edge of every value in the block |
| RangeIndex.EdgeNamesBlock | src/mc-range-edge-generation.c:60-87 | every edge of a value is the name of a stored block around the value |
| RangeIndex.NoSmallerAnswer | src/mc-range-mincover-generator.template.h:193-226 | no set of strings that meets the edges of exactly the values in the range has fewer members than the cover |
| RangeIndex.CoverIsMinimum | src/mc-range-mincover-generator.template.h:193-218 | in particular, any set of blocks that the insert side stores, with the range as its union, has at least as many members |
| RangeCoverSize.CoverSizeGeneral | src/mc-range-mincover-generator.template.h:193-218 | for any trim factor, the size is at most that of a fully covered tree or twice what one side of a range needs, whichever is larger |
| RangeCoverSize.CoverSizeBound | src/mc-range-mincover-generator.template.h:193-218 | untrimmed, at most 2 (2^s - 1) ceil(maxlen / s) edges |
| RangeQuery.GetEdges | src/mc-range-edge-generation.c:162-248 | from an encoded value and domain maximum to its edges over as many bits as the maximum needs |
| RangeQuery.LeafIsCode | src/mc-range-edge-generation.c:162-248 | the leaf is the code, bit by bit, over exactly as many bits as the greatest code needs, and the trim factor is the given one or the default |
| RangeQuery.AdjustBounds | src/mc-range-mincover-generator.template.h:237-268 | excluded bounds move inwards by one, refused exactly at the ends of the domain, without wrapping |
| RangeQuery.GetMincover | src/mc-range-mincover.c:150-165 | from encoded bounds to the cover of the adjusted range |
| RangeQuery.EncodedQueryMatches | src/mc-range-mincover.c:134-283 | both sides report one trim factor, and share one string exactly when the encoded value lies within the encoded bounds |
| RangeQuery.MincoverSucceedsIff | src/mc-range-mincover-generator.template.h:97-144 | the query side succeeds exactly for usable options and a range that some code satisfies |
| RangeInteger.EncodeInt | src/mc-range-encoding.c:34-53 | the signed range is shifted onto the unsigned one, the least value included |
| RangeInteger.EncodeIntOnto | src/mc-range-encoding.c:34-53 | every unsigned value is the code of exactly one signed value |
| RangeInteger.GetTypeInfo | src/mc-range-encoding.c:55-165 | accepts exactly the values of a valid domain and encodes them by their distance from its least value, without wrapping |
| RangeInteger.GetEdgesInt | src/mc-range-edge-generation.c:162-200 | the edges of an integer |
| RangeInteger.GetMincoverInt | src/mc-range-mincover.c:134-198 | the cover of an integer query, early bound checks included |
| RangeInteger.IntQueryMatches | src/mc-range-mincover.c:134-198 | end to end for any integer width: one trim factor, and one shared string exactly when the value satisfies the query |
| RangeInteger.IntMincoverSucceedsIff | src/mc-range-mincover.c:66-165 | a query succeeds exactly when domain and options are usable, its bounds lie in the domain and some value satisfies it |
| RangeDouble.DoubleCodePreservesOrder | src/mc-range-encoding.c:330-426 | codes of finite doubles, subnormals included, are ordered as the doubles are, and the two zeros share one |
| RangeDouble.DoubleCodeRange | src/mc-range-encoding.c:330-426 | codes fit in 64 bits and zero maps to 2^63 |
| RangeDouble.DoubleCodeClosed | src/mc-range-encoding.c:330-426 | the code is 2^63 plus or minus the exponent and fraction fields read as one number |
| RangeDouble.GetTypeInfoDouble | src/mc-range-encoding.c:286-426 | without bounds, refuses exactly infinities and NaN and otherwise gives the code |
| RangeDouble.GetEdgesDouble | src/mc-range-edge-generation.c:202-223 | the edges of a double without bounds |
| RangeDouble.GetMincoverDouble | src/mc-range-mincover.c:202-240 | the cover of a double query without bounds |
| RangeDouble.DoubleQueryMatches | src/mc-range-mincover.c:202-240 | end to end: one shared string exactly when the double satisfies the query |
| RangeDouble.CodesHaveNoGaps | src/mc-range-encoding.c:330-426 | every code between those of two finite doubles is that of a finite double |
| RangeDouble.DoubleMincoverSucceedsIff | src/mc-range-mincover.c:202-240 | a query succeeds exactly when the options are usable and some finite double satisfies it |
| RangeDecimal.ScaleCoefficient | src/mc-range-encoding.c:796-811 | the loop stops, its shift and product are the specified ones, and the product is at most 10^34 - 1 exactly when the coefficient is |
| RangeDecimal.GetTypeInfoDecimal128 | src/mc-range-encoding.c:599-846 | without bounds, for any decoded value: refuses exactly infinities and NaN, fails its assertion exactly for a coefficient above 10^34 - 1, and otherwise computes the code without wrapping 128 bits |
| RangeDecimal.OffsetRange | src/mc-range-encoding.c:813-842 | the distance from the midpoint stays below 2^127 |
| RangeDecimal.RhoIsFirst | src/mc-range-encoding.c:796-806 | the shift is that of the first power of ten that lifts the coefficient to 10^33 - 1 |
| RangeDecimal.DecimalCodeClosed | src/mc-range-encoding.c:813-842 | the code in closed form, with 10^34 - 1 for every exponent that the shift leaves |
| RangeDecimal.DecimalOrderIff | src/mc-range-encoding.c:768-842 | two canonical decimals have codes in the order of their values, equal codes for equal values, exactly when they are not a clash of a coefficient 10^33 - 1 with one at the top of the next lower exponent |
| RangeDecimal.DecimalOrderPreserved | src/mc-range-encoding.c:768-842 | without the coefficient 10^33 - 1 the order always holds |
| RangeDecimal.DecimalOrderCounterexample | src/mc-range-encoding.c:794-806 | a pair of values whose codes are the wrong way round |
| RangeDecimal.GetEdgesDecimal128 | src/mc-range-edge-generation.c:226-248 | the edges of a decimal without bounds, with the same refusals |
| RangeDecimal.GetMincoverDecimal128 | src/mc-range-mincover.c:243-283 | the cover of a decimal query without bounds, with the same refusals, lower end first |
| RangeDecimal.ClashReverses | src/mc-range-encoding.c:794-842 | in a clash the code that is too large belongs to the decimal that is not the greater one |
| RangeDecimal.DecimalQueryAnswer | src/mc-range-mincover.c:243-283 | end to end for every canonical value and query, refused queries included: one shared string exactly when both ends admit the value, a misled end judging the wrong way round |
| RangeDecimal.DecimalQueryRightIff | src/mc-range-mincover.c:243-283 | one shared string exactly when the decimal satisfies the query, a refused query sharing none, if and only if the query is not one of the misanswered ones, which are told from clashes, inclusiveness and equality |
| RangeDecimal.DecimalQueryMatches | src/mc-range-mincover.c:243-283 | in particular a cover is made whenever one is needed and the answer is right when neither end clashes with the decimal |
| RangeDecimal.CoverMadeIffRoom | src/mc-range-mincover-generator.template.h:97-144 | with usable options, a cover is made exactly when the adjusted code bounds hold some code |
| RangeDecimal.NextAwayCode | src/mc-range-encoding.c:794-842 | the decimal one unit in the last place beyond a coefficient 10^33 - 1 has the next code away from zero and clashes with nothing |
| RangeDecimal.DecimalQueryRefusedIff | src/mc-range-mincover.c:243-283 | a query that some decimal satisfies is refused if and only if the code of its lower end is above that of its upper end in a clash, or its range is open and its ends are adjacent in code next to a coefficient 10^33 - 1 |
| RangeDecimal.DecimalQueryMissed | src/mc-range-encoding.c:794-806 | a stored decimal that satisfies a query but shares no string with it |
| RangeDecimal.DecimalQueryFalselyFound | src/mc-range-encoding.c:794-806 | a stored decimal below a query's range that shares a string with it |
| RangeDecimal.DecimalQueryRefused | src/mc-range-encoding.c:794-806 | a query whose ends clash, that a decimal satisfies but for which no cover is made |
| RangeDecimal.DecimalQueryPinched | src/mc-range-encoding.c:794-806 | an open query whose ends do not clash, that a decimal satisfies but for which no cover is made |
| Utf8.CharsFlatten | src/mc-str-encode-string-sets.c:25-45 | splitting concatenated code points gives them back |
| Utf8Scalar.CharIffScalar | src/mc-text-search-str-encode.c:200-203 | the code points that valid text consists of are exactly the encodings of Unicode scalar values other than NUL: no overlong form, no surrogate, nothing beyond U+10FFFF |
| Utf8.NoBadChar | src/mc-str-encode-string-sets.c:41-43 | 0xFF occurs in no valid text |
| Utf8.ByteMatchIsCharMatch | src/mc-text-search-str-encode.c:302-332 | valid text occurs in valid text byte for byte exactly when it does code point for code point |
| Utf8.ByteSuffixIsCharSuffix | src/mc-text-search-str-encode.c:302-332 | the same for suffixes |
| Utf8.BytePrefixIsCharPrefix | src/mc-text-search-str-encode.c:302-332 | the same for prefixes |
| Utf8.CharCountAtMostBytes | src/mc-text-search-str-encode.c:219-227 | a text has at most as many code points as bytes |
| StringSets.BaseStringFromBuffer | src/mc-str-encode-string-sets.c:25-45 | the offset table holds the byte offset of every code point and of the sentinel |
| StringSets.RangeBytes | src/mc-str-encode-string-sets.c:89-145 | a range of indices denotes the code points between them; the index past the sentinel, the whole buffer |
| StringSets.AffixSet.constructor | src/mc-str-encode-string-sets.c:68-77 | an empty set with room for the given number of affixes |
| StringSets.AffixSet.Insert | src/mc-str-encode-string-sets.c:89-100 | appends exactly when the range is valid and there is room |
| StringSets.AffixSet.InsertBaseString | src/mc-str-encode-string-sets.c:102-112 | appends the whole buffer with a count exactly when the count is positive and there is room |
| StringSets.AffixIter.Next | src/mc-str-encode-string-sets.c:121-145 | yields the inserted affixes in order, each with its bytes and count |
| StringSets.DrainAffixes | src/mc-str-encode-string-sets.c:114-145 | iterating to the end yields every slot once |
| StringSets.Fnv1a | src/mc-str-encode-string-sets.c:172-182 | the loop computes the hash of the bytes in 32-bit arithmetic |
| StringSets.Fnv1aExtends | src/mc-str-encode-string-sets.c:168-182 | the hash of nothing and of one byte more, with the published offset basis and prime |
| StringSets.SubstringSet.Insert | src/mc-str-encode-string-sets.c:219-250 | refines insertion into a mathematical set of byte strings; true exactly when the bytes are new |
| StringSets.SubstringSet.IncrementFakeString | src/mc-str-encode-string-sets.c:214-217 | only the padding count grows |
| StringSets.FindInChain | src/mc-str-encode-string-sets.c:231-242 | finds the bytes in a chain exactly when some node of it denotes them |
| StringSets.TableInsert | src/mc-str-encode-string-sets.c:219-250 | extending one bucket keeps every string in its own bucket once and adds exactly the new one |
| StringSets.NextNonEmpty | src/mc-str-encode-string-sets.c:266-272 | skips exactly the empty buckets |
| StringSets.SubstringIter.Next | src/mc-str-encode-string-sets.c:260-304 | yields the pending nodes in order, then the padding entry if its count is positive, then nothing |
| StringSets.DrainSubstrings | src/mc-str-encode-string-sets.c:252-304 | iterating to the end yields each member once, then the padding |
| StringSets.YieldedMeaning | src/mc-str-encode-string-sets.c:260-304 | a string without the sentinel is yielded exactly when it is a member; the counts sum to members plus padding |
| SubstringCount.PaddingRule | src/mc-text-search-str-encode.c:38-44 | the block count is the one of RFC 5652 section 6.3 for the text plus its overhead |
| SubstringCount.PaddedLenIsOneMore | src/mc-text-search-str-encode.c:115-120 | the padded length is one more than the greatest length with the same number of blocks |
| SubstringCount.ClosedForm | src/mc-text-search-str-encode.c:95-107 | twice the number of substrings is the product in the closed form |
| SubstringCount.CalcExactIff | src/mc-text-search-str-encode.c:95-107 | the 32-bit computation is right exactly when the product does not wrap |
| SubstringCount.NoWrapUpTo65535 | src/mc-text-search-str-encode.c:95-107 | it does not wrap up to 65535 code points |
| SubstringCount.WrapAt65536 | src/mc-text-search-str-encode.c:95-107 | a case at 65536 code points in which it is wrong |
| SubstringCount.CountIsSumByLength | src/mc-text-search-str-encode.c:96-99 | the count by end position is the sum over the lengths |
| SubstringCount.MsizeIsPaperFormula | src/mc-text-search-str-encode.c:126-155 | the size is the smaller of the two bounds of the published formula |
| TextSearch.GenerateAffixTree | src/mc-text-search-str-encode.c:32-77 | no tree when the padded length is below the lower bound; otherwise the affixes of every length in the bounds and the padding, all inserts succeeding, and the size added |
| TextSearch.AffixCountsHideLength | src/mc-text-search-str-encode.c:46-75 | the counts add up to a size that depends on the bounds and the padded length only |
| TextSearch.LongestNotPadded | src/mc-text-search-str-encode.c:46-75 | that size is the number of affixes of a text of the padded length, which is not padded |
| TextSearch.AffixQueryMatches | src/mc-text-search-str-encode.c:60-75 | a query within the bounds is among the tree's strings exactly when it is a prefix (suffix) of the text |
| TextSearch.SubstringsSize | src/mc-text-search-str-encode.c:159-168 | the distinct substrings are at most as many as positions and lengths give |
| TextSearch.PrefixesAreSubstrings | src/mc-text-search-str-encode.c:159-168 | with lower bound 1 the distinct substrings are at least as many as the prefixes within the bounds |
| TextSearch.SubstringQueryMatches | src/mc-text-search-str-encode.c:151-168 | a query within the bounds is among the substrings exactly when it occurs in the text |
| TextSearch.GenerateSubstringTree | src/mc-text-search-str-encode.c:109-176 | the nested loops leave exactly the substrings in the set and the rest of the size as padding; the internal assertion fails exactly when the computed size is too small |
| TextSearch.InsertSubstrings | src/mc-text-search-str-encode.c:159-168 | the set and the counter after all start positions |
| TextSearch.NoRoomAt65536 | src/mc-text-search-str-encode.c:126-171 | with bounds 1 and 65536 the computed size wraps to 32768, too small for any text of more than 32768 code points |
| TextSearch.PadSubstrings | src/mc-text-search-str-encode.c:169-174 | the difference between size and substrings becomes the padding; the internal assertion fails exactly when the size is the smaller |
| TextIndex.Utf8CodepointLength | src/mc-text-search-str-encode.c:178-188 | the walk over lead bytes counts the code points |
| TextIndex.StrEncode | src/mc-text-search-str-encode.c:190-249 | refuses what is too long, no valid UTF-8 or not folded; otherwise the exact string is the folded one if folding was asked for and the given one if not, and every requested tree is that of the exact string; the exact condition of the failing assertion |
| TextIndex.AbortNeedsWrap | src/mc-text-search-str-encode.c:126-174 | that failure takes a substring count that does not fit 32 bits |
| TextIndex.AbortsAt65536 | src/mc-text-search-str-encode.c:126-174 | and it happens for every accepted text of more than 32768 code points with bounds 1 and 65536 and a padded length of at least 65536 |
| TextIndex.StrQuery | src/mc-text-search-str-encode.c:263-334 | accepts exactly what is valid, is folded if that was asked for, and lies within the bounds of the first index set; gives the folded or the given string |
| TextIndex.RoomForSubstrings | src/mc-text-search-str-encode.c:126-174 | while the count does not wrap, the size leaves room for every distinct substring |
| TextIndex.TotalHidesLength | src/mc-text-search-str-encode.c:38-75 | strings with as many blocks have as many tags |
| TextIndex.SubstringSearch | src/mc-text-search-str-encode.c:151-332 | end to end: the accepted query is yielded exactly when it occurs in the stored text; padding never matches; the counts sum to the size |
| TextIndex.AffixSearch | src/mc-text-search-str-encode.c:32-332 | end to end for prefixes and suffixes |
| TextIndex.FoldedSubstringsSearchAlike | src/mc-text-search-str-encode.c:206-302 | texts and queries with equal folding outcomes get equal answers |
| TextIndex.FoldedAffixesSearchAlike | src/mc-text-search-str-encode.c:206-302 | the same with prefixes and suffixes |
| TextIndex.TotalIsSumOfCounts | src/mc-text-search-str-encode.c:190-249 | the reported total is, in 32 bits, one for the exact string plus the counts of all items of all trees |
| Cursor.Le32RoundTrip | src/mc-reader.c:97-109 | decoding an encoded word gives the word, and the bytes are its digits in base 256, least first |
| Cursor.FromLe32RoundTrip | src/mc-writer.c:75-83 | writing a read word gives its bytes back |
| Cursor.Reader.ReadBytes | src/mc-reader.c:125-135 | gives the next bytes and advances, or refuses and stays |
| Cursor.Reader.ReadU32 | src/mc-reader.c:97-109 | the next four bytes as a little-endian word |
| Cursor.Writer.WriteBuffer | src/mc-writer.c:95-125 | copies the prefix of a buffer to the position and advances, or refuses and changes nothing |
| Cursor.Writer.WriteU32 | src/mc-writer.c:75-83 | the word's little-endian bytes |
| IndexedValue.ParseBlockInverse | src/mc-fle2-tag-and-encrypted-metadata-block.c:42-92 | a 96-byte block parses into its three fields, which make it up again |
| IndexedValue.DecodeSound | src/mc-fle2-payload-iev-v2.c:527-633 | whatever is accepted is well formed and laid out as its fields say |
| IndexedValue.DecodeComplete | src/mc-fle2-payload-iev-v2.c:527-633 | every well-formed value's layout is accepted and gives the value back |
| IndexedValue.AcceptedIffLayout | src/mc-fle2-payload-iev-v2.c:527-633 | a buffer is accepted exactly when it is the layout of a well-formed value |
| IndexedValue.AcceptedIffBytes | src/mc-fle2-payload-iev-v2.c:527-633 | which buffers are accepted, by subtype, counts and length |
| IndexedValue.DecodedFromBytes | src/mc-fle2-payload-iev-v2.c:527-633 | where each part of the value stands in the buffer |
| IndexedValue.LayoutInjective | src/mc-fle2-payload-iev-v2.c:647-698 | different values have different layouts |
| IndexedValue.LayoutLength | src/mc-fle2-payload-iev-v2.c:635-645 | the 32-bit length computed before serializing is that of the layout, whenever the layout fits |
| IndexedValue.IndexedEncryptedValue.Parse | src/mc-fle2-payload-iev-v2.c:527-633 | the object holds the decoded value, or the parse fails and decoding does too; a second parse is refused |
| IndexedValue.IndexedEncryptedValue.Serialize | src/mc-fle2-payload-iev-v2.c:647-698 | writes the layout of the held value |
| IndexedValue.ParseThenSerialize | src/mc-fle2-payload-iev-v2.c:527-698 | parsing an accepted buffer and serializing reproduces it byte for byte |
| IndexedValue.AccessorsPartition | src/mc-fle2-payload-iev-v2.c:346-525 | every accessor of a text value reads inside the metadata, and each block is read by exactly one |
| IndexedValue.ParsedValidates | src/mc-fle2-payload-iev-v2.c:747-823 | a parsed value validates exactly when its BSON type suits its kind |
| IndexedValue.ValidatesIffWellFormed | src/mc-fle2-payload-iev-v2.c:700-823 | a consistent value validates exactly when it can be laid out and its BSON type, by number, suits its kind |
| TtlCache.Cache.Evict | src/mongocrypt-cache.c:61-77 | unlinks exactly the expired pairs, keeping the order |
| TtlCache.Cache.RemoveMatches | src/mongocrypt-cache.c:79-103 | unlinks exactly the matching pairs, keeping the order |
| TtlCache.Cache.FindPair | src/mongocrypt-cache.c:112-137 | finds the first matching pair |
| TtlCache.Cache.Get | src/mongocrypt-cache.c:167-192 | evicts, then answers from what is left |
| TtlCache.Cache.Add | src/mongocrypt-cache.c:194-219 | evicts, removes matches, and puts the new pair in front |
| TtlCache.EvictionUnobservable | src/mongocrypt-cache.c:61-77 | after any run and at any later time, the cache and one that never evicts have the same unexpired pairs in the same order |
| TtlCache.LookupRefinesSimple | src/mongocrypt-cache.c:167-219 | so every look-up answers alike |
| TtlCache.SimpleHoldsSurvivors | src/mongocrypt-cache.c:79-103 | the cache that never evicts holds exactly the adds that no later matching add displaced |
| TtlCache.RunNonMatching | src/mongocrypt-cache.c:194-219 | after any run, cached attributes are pairwise non-matching |
| TtlCache.KeyedLookupIsLatest | src/mongocrypt-cache.c:22-219 | with string keys, a look-up gives the latest add exactly while its age is within the expiration |
| KeyCache.AltNamesIntersect | src/mongocrypt-key.c:347-362 | the nested loops decide whether two lists share a name |
| KeyCache.KeyMatchesSymmetric | src/mongocrypt-cache-key.c:26-49 | the match relation is symmetric |
| KeyCache.KeyMatchesNotTransitive | src/mongocrypt-cache-key.c:26-49 | it is not transitive |
| KeyCache.SingleLookupUnique | src/mongocrypt-cache-key.c:26-49 | after any run, a look-up that carries at most one id or distinct name matches at most one cached pair |
| KeyCache.UniqueIffSingleKey | src/mongocrypt-cache-key.c:26-49 | a look-up matches at most one cached pair in every run if and only if it carries at most one id or distinct name |
| KeyCache.OtherLookupsDependOnOrder | src/mongocrypt-cache.c:112-219 | for every other look-up there are two keys whose adds, in either order, leave the later one to be answered |
| KeyCache.KeyLookupFindsSurvivor | src/mongocrypt-cache.c:112-219 | such a look-up finds the key of an add that has it, has not expired and was not displaced |
| KeyCache.KeyLookupIff | src/mongocrypt-cache.c:112-219 | it answers with a value exactly when such an add has that value |
| KeyCache.KeyLookupNone | src/mongocrypt-cache.c:112-219 | and finds nothing exactly when there is no such add |
| KeyCache.LookupById | src/mongocrypt-cache-key.c:26-49 | in every run, a look-up by an id answers with a value exactly when an unexpired add with that very id has it and no later add had the same id or a common name |
| KeyCache.LookupByName | src/mongocrypt-cache-key.c:26-49 | the same for a look-up by a name, which must be among the names of the add |
| SchemaBroker.Broker.RequestSchema | src/mc-schema-broker.c:61-90 | refuses another database, ignores a repeated name, otherwise appends one entry and counts it |
| SchemaBroker.Broker.HasMultipleRequests | src/mc-schema-broker.c:92-95 | the count exceeds one exactly when two different collections are requested |
| SchemaBroker.Broker.HasAnyQeSchemas | src/mc-schema-broker.c:122-131 | whether some entry has encryptedFields |
| SchemaBroker.Broker.ListCollectionsFilter | src/mc-schema-broker.c:143-206 | the filter selects exactly the unsatisfied collections, and is refused when there are none |
| SchemaBroker.Broker.TakeValidator | src/mc-schema-broker.c:265-297 | takes the only `$jsonSchema` of a validator, refuses a second one or one that is no document; the internal assertion holds |
| SchemaBroker.Broker.SatisfyEntryFromCollinfo | src/mc-schema-broker.c:208-302 | refuses a repeated result, a view or a malformed schema; otherwise sets the schemas and satisfies |
| SchemaBroker.Broker.SatisfyFromCollinfo | src/mc-schema-broker.c:304-363 | changes only the entry that the result names, and refuses unnamed or unrequested collections |
| SchemaBroker.Broker.SatisfyFrom | src/mc-schema-broker.c:365-607 | offers a source to the unsatisfied entries in order, stopping at the first error; empty schemas satisfy all |
| SchemaBroker.Broker.SatisfyFromCreateOrCollMod | src/mc-schema-broker.c:493-578 | takes the schema that a create or collMod command gives its own collection, if requested and unsatisfied |
| SchemaBroker.Broker.NeedMoreSchemas | src/mc-schema-broker.c:609-617 | whether some entry is unsatisfied |
| SchemaBroker.Broker.GetEncryptedFields | src/mc-schema-broker.c:619-637 | the parsed encryptedFields of the named collection, or none when it has none |
| SchemaBroker.NextKeepsInv | src/mc-schema-broker.c:61-607 | every successful call keeps the names unique, the count right, and no schema on an unsatisfied entry |
| SchemaBroker.RunInv | src/mc-schema-broker.c:61-607 | the same after every successful run |
| SchemaBroker.SatisfiedNeverChanges | src/mc-schema-broker.c:208-607 | between any two points of a run, no entry is dropped or renamed and a satisfied one keeps its schema |
| SchemaBroker.NextOffers | src/mc-schema-broker.c:208-607 | a successful call does to each entry what its source, result or command holds for that collection |
| SchemaBroker.FirstOfferWins | src/mc-schema-broker.c:61-607 | in a successful run a satisfied entry is exactly what the first call that had something for its collection gives to a fresh entry |
| SchemaBroker.EntriesAreRequests | src/mc-schema-broker.c:61-90 | after a successful run the entries are exactly the requested collections |
| SchemaBroker.EmptySchemasSatisfyAll | src/mc-schema-broker.c:580-607 | the last step leaves nothing unsatisfied |
| SchemaOrigin.ValidatorMeans | src/mc-schema-broker.c:264-297 | the search of a validator finds a document exactly when it is the one field `$jsonSchema`, and nothing exactly when there is no such field |
| SchemaOrigin.CollinfoMeans | src/mc-schema-broker.c:208-302 | a result with an only `$jsonSchema` document, or none, and with `encryptedFields` that parse, or none, gives a fresh entry just these, the schema marked remote |
| SchemaOrigin.CollinfoTaken | src/mc-schema-broker.c:208-302 | every other result is refused: a view, a repeated `$jsonSchema`, another type, `encryptedFields` that do not parse |
| SchemaOrigin.OfferMeans | src/mc-schema-broker.c:208-607 | the same for every source and command, by the fields they hold: a schema of the schema map is local, one of a command remote |
| SchemaOrigin.OfferTaken | src/mc-schema-broker.c:208-607 | and a call that holds something malformed for an entry is refused |
| SchemaOrigin.FirstGiverWins | src/mc-schema-broker.c:61-607 | in a successful run a satisfied entry holds what the fields of one call say, and every earlier call since the request had nothing for its collection |
| SchemaOrigin.UnsatisfiedGivenNothing | src/mc-schema-broker.c:61-607 | and no call since its request had anything for an unsatisfied one |
| SchemaOrigin.NextSucceedsIff | src/mc-schema-broker.c:61-607 | exactly which calls succeed |
| SchemaOrigin.RunSucceedsIff | src/mc-schema-broker.c:61-607 | a run succeeds exactly when each of its calls does |
| SchemaOrigin.MixingWasAskedFor | src/mc-schema-broker.c:97-100 | mixing of schemas is supported exactly when some call asked for it |
| SchemaOrigin.OneDatabase | src/mc-schema-broker.c:61-90 | all requests of a successful run are for one database, which is the broker's |
| SchemaCommand.TranslateKeyAltNames | src/mc-schema-broker.c:690-737 | the loop translates the documents of an array and copies its other elements, failing for an unknown name |
| SchemaCommand.NoAltNamesRemain | src/mc-schema-broker.c:660-737 | as many elements, none with an alternate name, each named key replaced by a known id |
| SchemaCommand.AppendEncryptedFields | src/mc-schema-broker.c:739-849 | copies the document with translated fields and adds exactly the missing state collections, fields and version |
| SchemaCommand.AppendEncryptionInformation | src/mc-schema-broker.c:851-921 | appends one field with the documents of all entries but those that only have a JSON schema |
| SchemaCommand.InsertEncryptionInformation | src/mc-schema-broker.c:948-1098 | where it goes: the only namespace of a bulkWrite, inside an explain, or top level, and what is refused |
| SchemaCommand.InsertCsfleEncryptionSchemas | src/mc-schema-broker.c:1114-1202 | the schema of the only collection, or one document for several; nothing for the server |
| SchemaCommand.AddSchemasToCmd | src/mc-schema-broker.c:1204-1281 | which insertions happen, and the refusals: unknown key names, mixed schemas without support |
| SchemaCommand.EfSchemasMention | src/mc-schema-broker.c:873-911 | each entry is mentioned once or not at all, with its own document |
| SchemaCommand.CsfleSchemasMention | src/mc-schema-broker.c:1156-1194 | each entry is mentioned once or not at all, with its own schema |
| SchemaCommand.InsertEiGrowsHost | src/mc-schema-broker.c:960-1088 | the insertion adds exactly one field where a reader looks, and leaves the CSFLE fields as they are |
| SchemaCommand.DescribedExactlyOnce | src/mc-schema-broker.c:1114-1281 | a successful call for query analysis adds exactly one description of every requested collection, over both kinds |
| SchemaCommand.OthersNotDescribed | src/mc-schema-broker.c:1114-1281 | and none of any other namespace |
| SchemaCommand.RequestedDescribedOnce | src/mc-schema-broker.c:61-1281 | over a whole run: each collection that was requested is described exactly once |
| SchemaCommand.NoSchemasNoDescriptions | src/mc-schema-broker.c:1114-1281 | a command without schemas describes no collection |
| SchemaCommand.SchemasReadBack | src/mc-schema-broker.c:851-1281 | a reader of the command gets for every requested collection exactly the broker's schema |
| CommandFields.TranslatedField | src/mc-schema-broker.c:660-688 | a description is refused exactly when it names an unknown key; otherwise the id of the named key comes last under `keyId`, and the values under every other key stay |
| CommandFields.TranslatedItem | src/mc-schema-broker.c:690-737 | each element of an array is translated on its own |
| CommandFields.ItemsRefusedIff | src/mc-schema-broker.c:690-737 | an array is refused exactly when one of its descriptions is |
| CommandFields.WrittenValues | src/mc-schema-broker.c:739-849 | under every key the written document has the translated values of the given one, or the default if there are none |
| CommandFields.WrittenForEntry | src/mc-schema-broker.c:873-911 | an entry is written from its own `encryptedFields` and version, or from nothing but the defaults |
| CommandFields.DocumentRefusedIff | src/mc-schema-broker.c:739-849 | the document is refused exactly when one of its arrays of descriptions is |
| CommandFields.EiTypeIsOne | src/mc-schema-broker.c:851-873 | `encryptionInformation` is of type 1 and holds the schemas under `schema` |
| CommandFields.WhereEiGoes | src/mc-schema-broker.c:948-1098 | for each kind of command and target where `encryptionInformation` goes, and what is refused |
| CommandFields.AddSchemasSucceedsIff | src/mc-schema-broker.c:1204-1281 | the step succeeds exactly with all keys known, no unsupported mix of schemas, and a place for `encryptionInformation` if it is needed |
| CommandFields.OtherFieldsKept | src/mc-schema-broker.c:948-1281 | the name of the command and the values under every key that the step does not write stay |
| CommandFields.ServerGetsNoCsfle | src/mc-schema-broker.c:1114-1124 | for the server a command changes at most by `encryptionInformation` |
| DataKey.Context.constructor | src/mongocrypt-ctx-datakey.c:515-569 | a context in its first state, after the first step |
| DataKey.Context.KmsStart | src/mongocrypt-ctx-datakey.c:51-223 | sends the request its results call for, or finishes, or fails |
| DataKey.Context.KmsDone | src/mongocrypt-ctx-datakey.c:358-411 | records the result of the outstanding request and takes the next step |
| DataKey.WrapKey | src/mongocrypt-crypto.c:1291-1332 | a wrapped key comes from the cipher, for keys of the right length, and has the length of an encrypted key |
| DataKey.RunInv | src/mongocrypt-ctx-datakey.c:51-411 | after any replies whatever, a waiting context has sent the request its results call for, naming the right key, and a ready one has its material and key id |
| DataKey.ReadyHasMaterial | src/mongocrypt-ctx-datakey.c:196-217 | ready only with encrypted material, the server's or the data key wrapped under its secret, and with the user's key id or the server's |
| DataKey.RequestsCarry | src/mongocrypt-ctx-datakey.c:86-195 | in every run only the first request registers a secret, which is the random one; the others name the key by the user's id or the one in the first reply; what is encrypted is the data key |
| DataKey.RegistersRandomSecret | src/mongocrypt-ctx-datakey.c:149-165 | without delegation and a user key the first request registers the random secret |
| DataKey.ReadyHoldsLastReply | src/mongocrypt-ctx-datakey.c:184-217 | a context becomes ready with the last reply, and the encrypted key is the initialization vector and ciphertext in it, or the data key wrapped under the secret in it |
| DataKey.LocalExchange | src/mongocrypt-ctx-datakey.c:51-223 | the whole exchange without delegation, request by request, and its outcome |
| DataKey.DelegatedExchange | src/mongocrypt-ctx-datakey.c:51-223 | the whole delegated exchange and its outcome |
| DataKey.FailureIsFinal | src/mongocrypt-ctx.c:554-578 | a failed context stays failed |
| DataKey.AdvancesUnlessEmptySecret | src/mongocrypt-ctx-datakey.c:184-195 | an answer moves the exchange exactly one request on, except an empty secret, which makes it repeat its Get |
| DataKey.AnsweredRunFollowsPlan | src/mongocrypt-ctx-datakey.c:51-411 | every answered run sends the planned requests in order, the Get once more per empty secret, and ends after one other answer per request |
| DataKey.ReadyAfterPlan | src/mongocrypt-ctx-datakey.c:86-223 | without empty secrets: a prefix of Register, Activate, Get or Create, Activate, Encrypt, only the last with a user key id, ready after at most three replies |
| RangeFindSpec.OperatorName | src/mc-fle2-rfds.c:25-50 | the name of an operator parses as the operator |
| RangeFindSpec.Parse | src/mc-fle2-rfds.c:67-330 | accepts exactly an `$and` of at most one lower and one upper bound on one field in one form, and gives their specification |
| RangeFindSpec.SpecGrows | src/mc-fle2-rfds.c:234-325 | one more element is accepted exactly when it reads in the list's form and extends the specification; a third is always a duplicate bound |
| RangeFindSpec.ExtraKeysIgnored | src/mc-fle2-rfds.c:247-277 | further keys of an element change neither acceptance nor result |
| RangeFindSpec.ToPlaceholders | src/mc-fle2-rfds.c:403-570 | builds the rewritten document, refusing an empty specification and a domain of another type |
| RangeFindSpec.PlaceholderCarriesInterval | src/mc-fle2-rfds.c:334-401 | the interval reads back from a placeholder; a stub carries none |
| RangeFindSpec.IntervalDenotesOperators | src/mc-fle2-rfds.c:459-475 | the interval holds exactly the values that satisfy the operators, in either order |
| RangeFindSpec.MissingBounds | src/mc-fle2-rfds.c:459-475 | a missing bound is an included infinity |
| RangeFindSpec.RewritingPreservesMeaning | src/mc-fle2-rfds.c:208-570 | the first placeholder of the result denotes the parsed operators, the second is a stub, and the result parses to the same field, form and operators |
| RangeFindSpec.RewrittenIff | src/mc-fle2-rfds.c:437-457 | a query is rewritten exactly when it is not empty and both ends of the index's domain are configured with the type of its bounds, or that type is a floating-point one |
| RangeFindSpec.RewritingCarriesSettings | src/mc-fle2-rfds.c:334-496 | every placeholder carries key ids, contention factor, sparsity, payload id and operators, and the first one the domain, precision and trim factor |
| RangeFindSpec.PayloadIds.Next | src/mc-fle2-rfds.c:589-598 | hands out the ids in turn |
| RangeFindSpec.IdsCycle | src/mc-fle2-rfds.c:589-598 | ids are int32 values that repeat with period 2^31 |

## Left out

- AES, HMAC and the random source: the cipher that wraps a data key and the outcome of the random source are parameters of `DataKey`.
- Folding of case and diacritics: a parameter of the text index, of which only valid UTF-8 with no more code points is assumed.
- Precision mode of the double and Decimal128 encodings (log10, pow and scaled arithmetic of the C library), and with it declared bounds for those types, which must come with a precision.
- RangeDouble.GetTypeInfoDouble: without declared bounds and precision, because the choice of precision mode depends on that arithmetic.
- RangeDouble.GetEdgesDouble: without declared bounds and precision, for the same reason.
- RangeDouble.GetMincoverDouble: without declared bounds and precision, for the same reason.
- RangeDecimal.GetTypeInfoDecimal128: without declared bounds and precision, for the same reason.
- RangeDecimal.GetEdgesDecimal128: without declared bounds and precision, for the same reason.
- RangeDecimal.GetMincoverDecimal128: without declared bounds and precision, for the same reason.
- The Intel decimal library: a Decimal128 is its sign, coefficient and biased exponent, as the accessors of `src/mc-dec128.h` decode them.
- IndexedValue.IndexedEncryptedValue.Serialize: says nothing of an object whose parse failed half way, because the source gives its fields no meaning.
- libbson: documents are values with ordered keys, arrays have their elements in order, appending always succeeds; the size limit of a document and iteration over corrupt bytes are not modelled.
- The parser of `encryptedFields` documents is a parameter of the broker.
- SchemaCommand.AddSchemasToCmd: the key ids that the step stores in the parsed fields are not modelled, because only later commands read them; its failure for unknown names is.
- SchemaBroker.Broker.SatisfyFromCollinfo: the copy of the result that is added to the cache of collection infos is not modelled, because the broker reads that cache only through the `Cached` source.
- SchemaBroker.Broker.SatisfyFrom: the empty documents that the last step adds to that cache are not modelled, for the same reason.
- DataKey.Context.constructor: a context that waits for credentials before its first step, and the generation of the data key, are not modelled; the key is a parameter.
- TtlCache.Cache.Get: the clock is read once per operation instead of once per pair, because operations are taken as atomic steps.
- KeyCache.KeyLookupFindsSurvivor: covers look-ups that carry at most one id or distinct name; any other can have several surviving matches, of which the order of the adds decides, as `KeyCache.OtherLookupsDependOnOrder` shows.
- StringSets.SubstringSet.Insert: memory of the nodes is modelled as a sequence per bucket, not as linked cells.
- Allocation, ownership of buffers, mutexes and error texts.
- The wire forms of KMIP requests and replies, retries, the endpoint of a request, OAuth and the other key providers; a reply arrives as what its parser extracts, and building a request never fails.
- Tokens, decryption of indexed values, and payloads other than the indexed encrypted value.
- Version 1 payloads, whose codecs are smaller versions of the one here.

/** The base string with its offset table, and the affix and substring sets built on it. */
module StringSets {
  import opened Common
  import opened Utf8

  /** Text plus the 0xFF sentinel, and the byte offset of every code point, the sentinel included. */
  datatype BaseString = BaseString(buf: bytes, offsets: seq<nat>)

  /** b is the base string of the text with code points cs. */
  ghost predicate BaseOf(b: BaseString, cs: seq<bytes>) {
    && WellFormed(cs)
    && b.buf == Flatten(cs) + [BAD_CHAR]
    && |b.offsets| == |cs| + 1
    && forall k :: 0 <= k <= |cs| ==> b.offsets[k] == Offset(cs, k)
  }

  /** Walks the text by lead bytes, noting where each code point starts. */
  method BaseStringFromBuffer(text: bytes) returns (b: BaseString)
    requires ValidUtf8(text)
    ensures BaseOf(b, Chars(text))
  {
    ghost var cs := Chars(text);
    FlattenChars(text);
    OffsetEnds(cs);
    var offsets: seq<nat> := [];
    var cur := 0;
    ghost var k := 0;
    while cur < |text|
      invariant |offsets| == k <= |cs| && cur == Offset(cs, k) <= |text|
      invariant forall i :: 0 <= i < k ==> offsets[i] == Offset(cs, i)
      decreases |text| - cur
    {
      CodepointAt(cs, k);
      offsets := offsets + [cur];
      cur := cur + LeadLen(text[cur]);
      k := k + 1;
    }
    if k < |cs| {
      CodepointAt(cs, k);
    }
    offsets := offsets + [|text|];
    b := BaseString(text + [BAD_CHAR], offsets);
  }

  /** The lead byte at an offset gives the length of the code point there. */
  lemma CodepointAt(cs: seq<bytes>, k: nat)
    requires WellFormed(cs) && k <= |cs|
    ensures k < |cs| <==> Offset(cs, k) < |Flatten(cs)|
    ensures k < |cs| ==> LeadLen(Flatten(cs)[Offset(cs, k)]) > 0
    ensures k < |cs| ==> Offset(cs, k + 1) == Offset(cs, k) + LeadLen(Flatten(cs)[Offset(cs, k)]) <= |Flatten(cs)|
  {
    OffsetEnds(cs);
    if k < |cs| {
      OffsetStep(cs, k);
      SliceIsFlatten(cs, k, k + 1);
      SliceIsFlatten(cs, k + 1, |cs|);
      assert cs[k..k + 1] == [cs[k]];
      assert Flatten([cs[k]]) == cs[k] + Flatten([]);
      assert Flatten(cs)[Offset(cs, k)..Offset(cs, k + 1)][0] == cs[k][0];
    }
  }

  /** The byte range that code point indices start (inclusive) and end (exclusive) denote; the index
      past the sentinel denotes the end of the buffer. */
  predicate ValidRange(b: BaseString, start: nat, end: nat) {
    start <= end <= |b.offsets| && start < |b.offsets|
  }

  function ByteStart(b: BaseString, start: nat): nat
    requires start < |b.offsets|
  {
    b.offsets[start]
  }

  function ByteEnd(b: BaseString, end: nat): nat
    requires end <= |b.offsets|
  {
    if end == |b.offsets| then |b.buf| else b.offsets[end]
  }

  predicate RangeOk(b: BaseString, start: nat, end: nat) {
    ValidRange(b, start, end) && ByteStart(b, start) <= ByteEnd(b, end) <= |b.buf|
  }

  function RangeOf(b: BaseString, start: nat, end: nat): bytes
    requires RangeOk(b, start, end)
  {
    b.buf[ByteStart(b, start)..ByteEnd(b, end)]
  }

  /** Code point ranges denote the code points between them. */
  lemma RangeBytes(b: BaseString, cs: seq<bytes>, start: nat, end: nat)
    requires BaseOf(b, cs) && ValidRange(b, start, end)
    ensures RangeOk(b, start, end)
    ensures end <= |cs| ==> RangeOf(b, start, end) == Flatten(cs[start..end])
    ensures start == 0 && end == |b.offsets| ==> RangeOf(b, start, end) == b.buf
  {
    SliceIsFlatten(cs, start, Min(end, |cs|));
    OffsetEnds(cs);
  }

  /** An iterator's item: the bytes and how often they are to be counted. */
  datatype Entry = Entry(str: bytes, count: nat)

  function SumCounts(es: seq<Entry>): nat {
    if es == [] then 0 else es[0].count + SumCounts(es[1..])
  }

  lemma {:induction false} SumCountsConcat(a: seq<Entry>, b: seq<Entry>)
    ensures SumCounts(a + b) == SumCounts(a) + SumCounts(b)
  {
    if a == [] {
      assert a + b == b;
    } else {
      assert (a + b)[1..] == a[1..] + b;
      SumCountsConcat(a[1..], b);
    }
  }

  // ----- affix set: a buffer of known size, no duplicate prevention

  datatype Affix = Affix(start: nat, end: nat, count: nat)

  class AffixSet {
    const base: BaseString
    ghost const cs: seq<bytes>
    const slots: array<Affix>
    var curIdx: nat

    ghost predicate Valid()
      reads this, slots
    {
      && BaseOf(base, cs)
      && curIdx <= slots.Length
      && forall k :: 0 <= k < slots.Length ==> ValidRange(base, slots[k].start, slots[k].end)
    }

    /** The inserted affixes, in insertion order. */
    ghost function Items(): seq<Affix>
      reads this, slots
      requires Valid()
    {
      slots[..curIdx]
    }

    constructor (base: BaseString, ghost cs: seq<bytes>, nIndices: nat)
      requires BaseOf(base, cs)
      ensures Valid() && fresh(slots) && this.base == base && this.cs == cs
      ensures slots.Length == nIndices && Items() == []
    {
      this.base := base;
      this.cs := cs;
      slots := new Affix[nIndices](_ => Affix(0, 0, 0));
      curIdx := 0;
    }

    /** Refuses ranges that are reversed or reach past the sentinel, and a full set. */
    method Insert(start: nat, end: nat) returns (ok: bool)
      requires Valid()
      modifies this`curIdx, slots
      ensures Valid()
      ensures ok <==> start <= end < |base.offsets| && |old(Items())| < slots.Length
      ensures Items() == old(Items()) + if ok then [Affix(start, end, 1)] else []
    {
      if start > end || end >= |base.offsets| || curIdx >= slots.Length {
        return false;
      }
      var idx := curIdx;
      curIdx := curIdx + 1;
      slots[idx] := Affix(start, end, 1);
      ok := true;
    }

    method InsertBaseString(count: nat) returns (ok: bool)
      requires Valid()
      modifies this`curIdx, slots
      ensures Valid()
      ensures ok <==> count > 0 && |old(Items())| < slots.Length
      ensures Items() == old(Items()) + if ok then [Affix(0, |base.offsets|, count)] else []
    {
      if count == 0 || curIdx >= slots.Length {
        return false;
      }
      var idx := curIdx;
      curIdx := curIdx + 1;
      slots[idx] := Affix(0, |base.offsets|, count);
      ok := true;
    }
  }

  /** What the iterator reports for one slot. */
  function AffixEntry(b: BaseString, a: Affix): Entry
    requires RangeOk(b, a.start, a.end)
  {
    Entry(RangeOf(b, a.start, a.end), a.count)
  }

  class AffixIter {
    const affixes: AffixSet
    var curIdx: nat

    constructor (affixes: AffixSet)
      ensures this.affixes == affixes && curIdx == 0
    {
      this.affixes := affixes;
      curIdx := 0;
    }

    method Next() returns (r: Option<Entry>)
      requires affixes.Valid()
      modifies this
      ensures affixes.Valid()
      ensures r.Some? <==> old(curIdx) < affixes.slots.Length
      ensures r.Some? ==>
                && curIdx == old(curIdx) + 1
                && var a := affixes.slots[old(curIdx)];
                && RangeOk(affixes.base, a.start, a.end)
                && r.value == AffixEntry(affixes.base, a)
      ensures r.None? ==> curIdx == old(curIdx)
    {
      if curIdx >= affixes.slots.Length {
        return None;
      }
      var a := affixes.slots[curIdx];
      curIdx := curIdx + 1;
      RangeBytes(affixes.base, affixes.cs, a.start, a.end);
      r := Some(Entry(RangeOf(affixes.base, a.start, a.end), a.count));
    }
  }

  // ----- substring set: chained hash set

  const FNV1A_PRIME: nat := 16777619
  const FNV1A_BASIS: nat := 2166136261
  const HASHSET_SIZE: nat := 4096

  function Xor(a: nat, b: byte): nat
    requires a < U32
  {
    ((a as bv32) ^ (b as bv32)) as nat
  }

  /** FNV-1a over the bytes, in 32-bit arithmetic. */
  function Fnv1aOf(data: bytes): (h: nat)
    ensures h < U32
  {
    if data == [] then FNV1A_BASIS
    else Xor(Fnv1aOf(data[..|data| - 1]), data[|data| - 1]) * FNV1A_PRIME % U32
  }

  /** The hash of no bytes, and of one byte more. */
  lemma Fnv1aExtends(data: bytes, b: byte)
    ensures Fnv1aOf([]) == 0x811C_9DC5
    ensures Fnv1aOf(data + [b]) == ((Fnv1aOf(data) as bv32) ^ (b as bv32)) as nat * 0x0100_0193 % 0x1_0000_0000
  {
    assert (data + [b])[..|data|] == data;
  }

  method Fnv1a(data: bytes) returns (hash: nat)
    ensures hash == Fnv1aOf(data)
  {
    hash := FNV1A_BASIS;
    var ptr := 0;
    while ptr != |data|
      invariant 0 <= ptr <= |data|
      invariant hash == Fnv1aOf(data[..ptr])
    {
      assert data[..ptr + 1][..ptr] == data[..ptr];
      hash := Xor(hash, data[ptr]) * FNV1A_PRIME % U32;
      ptr := ptr + 1;
    }
    assert data[..ptr] == data;
  }

  function BucketOf(x: bytes): (k: nat)
    ensures k < HASHSET_SIZE
  {
    Fnv1aOf(x) % HASHSET_SIZE
  }

  datatype Node = Node(start: nat, len: nat)

  predicate NodeOk(b: BaseString, n: Node) {
    n.start + n.len <= |b.buf|
  }

  function NodeBytes(b: BaseString, n: Node): bytes
    requires NodeOk(b, n)
  {
    b.buf[n.start..n.start + n.len]
  }

  /** The chain of bucket k: no string twice, each in its own bucket. */
  ghost predicate ChainOk(b: BaseString, chain: seq<Node>, k: nat) {
    && (forall i :: 0 <= i < |chain| ==> NodeOk(b, chain[i]) && BucketOf(NodeBytes(b, chain[i])) == k)
    && (forall i, j :: 0 <= i < j < |chain| ==> NodeBytes(b, chain[i]) != NodeBytes(b, chain[j]))
  }

  ghost predicate InChain(b: BaseString, chain: seq<Node>, x: bytes) {
    exists i :: 0 <= i < |chain| && NodeOk(b, chain[i]) && NodeBytes(b, chain[i]) == x
  }

  class SubstringSet {
    const base: BaseString
    ghost const cs: seq<bytes>
    const buckets: array<seq<Node>>
    var baseStringCount: nat
    /** The set of strings that the buckets represent. */
    ghost var contents: set<bytes>

    ghost predicate Valid()
      reads this, buckets
    {
      && BaseOf(base, cs)
      && buckets.Length == HASHSET_SIZE
      && TableOk(base, buckets[..], contents)
    }

    constructor (base: BaseString, ghost cs: seq<bytes>)
      requires BaseOf(base, cs)
      ensures Valid() && fresh(buckets) && this.base == base && this.cs == cs
      ensures contents == {} && baseStringCount == 0
    {
      this.base := base;
      this.cs := cs;
      buckets := new seq<Node>[HASHSET_SIZE](_ => []);
      baseStringCount := 0;
      contents := {};
    }

    method IncrementFakeString(count: nat)
      requires Valid()
      modifies this`baseStringCount
      ensures Valid() && contents == old(contents)
      ensures baseStringCount == (old(baseStringCount) + count) % U32
    {
      baseStringCount := (baseStringCount + count) % U32;
    }

    /** Inserts the string and answers true exactly when it is new. */
    method Insert(start: nat, end: nat) returns (inserted: bool)
      requires Valid() && ValidRange(base, start, end)
      modifies buckets, this`contents
      ensures Valid()
      ensures baseStringCount == old(baseStringCount)
      ensures RangeOk(base, start, end)
      ensures var x := RangeOf(base, start, end);
              && inserted == (x !in old(contents))
              && contents == old(contents) + {x}
    {
      RangeBytes(base, cs, start, end);
      var startByte := ByteStart(base, start);
      var x := RangeOf(base, start, end);
      var hash := Fnv1a(x);
      var idx := hash % HASHSET_SIZE;
      var found := FindInChain(base, buckets[idx], x);
      assert found == InBucket(base, buckets[..], x);
      if found {
        assert contents == contents + {x};
        return false;
      }
      var node := Node(startByte, |x|);
      assert NodeBytes(base, node) == x;
      TableInsert(base, buckets[..], contents, node);
      buckets[idx] := buckets[idx] + [node];
      contents := contents + {x};
      inserted := true;
    }
  }

  /** Traverses the linked list comparing lengths first, then bytes. */
  method FindInChain(b: BaseString, chain: seq<Node>, x: bytes) returns (found: bool)
    requires forall i :: 0 <= i < |chain| ==> NodeOk(b, chain[i])
    ensures found <==> InChain(b, chain, x)
  {
    var i := 0;
    while i < |chain|
      invariant 0 <= i <= |chain|
      invariant forall j :: 0 <= j < i ==> NodeBytes(b, chain[j]) != x
    {
      if |x| == chain[i].len && NodeBytes(b, chain[i]) == x {
        return true;
      }
      i := i + 1;
    }
    found := false;
  }

  /** The buckets represent the set: every chain is in order and membership is membership in the chain
      of the string's own bucket. */
  ghost predicate TableOk(b: BaseString, table: seq<seq<Node>>, contents: set<bytes>) {
    && |table| == HASHSET_SIZE
    && (forall k :: 0 <= k < HASHSET_SIZE ==> ChainOk(b, table[k], k))
    && (forall x {:trigger InBucket(b, table, x)} :: x in contents <==> InBucket(b, table, x))
  }

  /** The string is in the chain of its own bucket. */
  ghost predicate InBucket(b: BaseString, table: seq<seq<Node>>, x: bytes)
    requires |table| == HASHSET_SIZE
  {
    InChain(b, table[BucketOf(x)], x)
  }

  /** Appending a new string to the chain of its bucket adds exactly that string. */
  lemma TableInsert(b: BaseString, table: seq<seq<Node>>, contents: set<bytes>, node: Node)
    requires TableOk(b, table, contents) && NodeOk(b, node) && NodeBytes(b, node) !in contents
    ensures var k := BucketOf(NodeBytes(b, node));
            TableOk(b, table[k := table[k] + [node]], contents + {NodeBytes(b, node)})
  {
    var y := NodeBytes(b, node);
    var k := BucketOf(y);
    assert !InBucket(b, table, y);
    forall j | 0 <= j < |table[k]|
      ensures NodeBytes(b, table[k][j]) != y
    {
      assert NodeOk(b, table[k][j]);
    }
    ChainExtended(b, table[k], k, node);
    var table' := table[k := table[k] + [node]];
    forall x
      ensures x in contents + {y} <==> InBucket(b, table', x)
    {
      assert InBucket(b, table, x) <==> x in contents;
      if BucketOf(x) != k {
        assert table'[BucketOf(x)] == table[BucketOf(x)];
      }
    }
  }

  /** Appending a new string of the same bucket keeps the chain in order and adds just that string. */
  lemma ChainExtended(b: BaseString, chain: seq<Node>, k: nat, node: Node)
    requires ChainOk(b, chain, k) && NodeOk(b, node) && BucketOf(NodeBytes(b, node)) == k
    requires forall j :: 0 <= j < |chain| ==> NodeBytes(b, chain[j]) != NodeBytes(b, node)
    ensures ChainOk(b, chain + [node], k)
    ensures forall x :: InChain(b, chain + [node], x) <==> InChain(b, chain, x) || x == NodeBytes(b, node)
    ensures !InChain(b, chain, NodeBytes(b, node))
  {
    var longer := chain + [node];
    forall x
      ensures InChain(b, longer, x) <==> InChain(b, chain, x) || x == NodeBytes(b, node)
    {
      if InChain(b, chain, x) {
        var i :| 0 <= i < |chain| && NodeOk(b, chain[i]) && NodeBytes(b, chain[i]) == x;
        assert longer[i] == chain[i];
      }
      if x == NodeBytes(b, node) {
        assert longer[|chain|] == node;
      }
    }
  }

  // ----- iteration over the substring set

  function ConcatFrom(chains: seq<seq<Node>>, k: nat): seq<Node>
    decreases |chains| - k
  {
    if k >= |chains| then [] else chains[k] + ConcatFrom(chains, k + 1)
  }

  ghost predicate NodesOk(b: BaseString, ns: seq<Node>) {
    forall i :: 0 <= i < |ns| ==> NodeOk(b, ns[i])
  }

  ghost function NodeEntries(b: BaseString, ns: seq<Node>): (es: seq<Entry>)
    requires NodesOk(b, ns)
    ensures |es| == |ns|
    ensures forall i :: 0 <= i < |ns| ==> es[i] == Entry(NodeBytes(b, ns[i]), 1)
  {
    seq(|ns|, i requires 0 <= i < |ns| => Entry(NodeBytes(b, ns[i]), 1))
  }

  lemma {:induction false} ConcatFromOk(b: BaseString, chains: seq<seq<Node>>, k: nat)
    requires forall j :: 0 <= j < |chains| ==> NodesOk(b, chains[j])
    ensures NodesOk(b, ConcatFrom(chains, k))
    decreases |chains| - k
  {
    if k < |chains| {
      ConcatFromOk(b, chains, k + 1);
    }
  }

  /** The first bucket from `from` on that has a node. */
  method NextNonEmpty(buckets: array<seq<Node>>, from: nat) returns (idx: nat)
    requires from <= buckets.Length
    ensures from <= idx <= buckets.Length
    ensures idx < buckets.Length ==> buckets[idx] != []
    ensures ConcatFrom(buckets[..], from) == ConcatFrom(buckets[..], idx)
  {
    idx := from;
    while idx < buckets.Length && buckets[idx] == []
      invariant from <= idx <= buckets.Length
      invariant ConcatFrom(buckets[..], from) == ConcatFrom(buckets[..], idx)
    {
      idx := idx + 1;
    }
  }

  class SubstringIter {
    const strings: SubstringSet
    /** The current node and those linked after it. */
    var chain: seq<Node>
    var curIdx: nat

    ghost predicate Valid()
      reads this, strings, strings.buckets
    {
      && strings.Valid()
      && (curIdx < HASHSET_SIZE ==> NodesOk(strings.base, chain))
    }

    ghost function Nodes(): seq<Node>
      reads this, strings, strings.buckets
    {
      chain + ConcatFrom(strings.buckets[..], curIdx + 1)
    }

    /** The items still to come. */
    ghost function Pending(): seq<Entry>
      reads this, strings, strings.buckets
      requires Valid()
    {
      if curIdx >= HASHSET_SIZE then []
      else
        ConcatFromOk(strings.base, strings.buckets[..], curIdx + 1);
        NodeEntries(strings.base, Nodes()) + BaseEntry(strings.base, strings.baseStringCount)
    }

    constructor (strings: SubstringSet)
      requires strings.Valid()
      ensures Valid() && this.strings == strings
      ensures curIdx == 0 && chain == strings.buckets[0]
    {
      this.strings := strings;
      chain := strings.buckets[0];
      curIdx := 0;
      new;
      assert ChainOk(strings.base, strings.buckets[0], 0);
    }

    /** Yields the first pending item and leaves the others. */
    method Next() returns (r: Option<Entry>)
      requires Valid()
      modifies this
      ensures Valid()
      ensures old(Pending()) == [] ==> r == None && Pending() == []
      ensures old(Pending()) != [] ==> r == Some(old(Pending())[0]) && Pending() == old(Pending())[1..]
    {
      if curIdx >= HASHSET_SIZE {
        return None;
      }
      ghost var before := Nodes();
      if chain == [] {
        curIdx := NextNonEmpty(strings.buckets, curIdx + 1);
        assert before == ConcatFrom(strings.buckets[..], curIdx);
        if curIdx >= HASHSET_SIZE {
          assert before == [];
          if strings.baseStringCount != 0 {
            return Some(Entry(strings.base.buf, strings.baseStringCount));
          }
          return None;
        }
        chain := strings.buckets[curIdx];
        assert ChainOk(strings.base, chain, curIdx);
        assert before == Nodes();
      }
      r := TakeCurrent();
    }

    /** Reports the current node and moves to the one linked after it. */
    method TakeCurrent() returns (r: Option<Entry>)
      requires Valid() && curIdx < HASHSET_SIZE && chain != []
      modifies this`chain
      ensures Valid()
      ensures r.Some? && old(Pending()) == [r.value] + Pending()
    {
      ghost var tail := ConcatFrom(strings.buckets[..], curIdx + 1);
      ConcatFromOk(strings.base, strings.buckets[..], curIdx + 1);
      var cur := chain[0];
      assert chain == [cur] + chain[1..];
      assert chain + tail == [cur] + (chain[1..] + tail);
      NodeEntriesCons(strings.base, cur, chain[1..] + tail);
      chain := chain[1..];
      r := Some(Entry(NodeBytes(strings.base, cur), 1));
    }
  }

  lemma NodeEntriesCons(b: BaseString, n: Node, ns: seq<Node>)
    requires NodesOk(b, [n] + ns)
    ensures NodeOk(b, n) && NodesOk(b, ns)
    ensures NodeEntries(b, [n] + ns) == [Entry(NodeBytes(b, n), 1)] + NodeEntries(b, ns)
  {
    assert ([n] + ns)[0] == n;
    forall i | 0 <= i < |ns|
      ensures NodeOk(b, ns[i])
    {
      assert ([n] + ns)[i + 1] == ns[i];
    }
  }

  ghost function BaseEntry(b: BaseString, count: nat): seq<Entry> {
    if count != 0 then [Entry(b.buf, count)] else []
  }

  // ----- draining the iterators

  /** All items of the affix iterator, in order. */
  method DrainAffixes(affixes: AffixSet) returns (es: seq<Entry>)
    requires affixes.Valid()
    ensures |es| == affixes.slots.Length
    ensures forall k :: 0 <= k < |es| ==>
              && RangeOk(affixes.base, affixes.slots[k].start, affixes.slots[k].end)
              && es[k] == AffixEntry(affixes.base, affixes.slots[k])
  {
    var it := new AffixIter(affixes);
    es := [];
    while true
      invariant affixes.Valid() && it.affixes == affixes
      invariant it.curIdx == |es| <= affixes.slots.Length
      invariant forall k :: 0 <= k < |es| ==>
                  && RangeOk(affixes.base, affixes.slots[k].start, affixes.slots[k].end)
                  && es[k] == AffixEntry(affixes.base, affixes.slots[k])
      decreases affixes.slots.Length - |es|
    {
      var e := it.Next();
      if e.None? {
        break;
      }
      es := es + [e.value];
    }
  }

  /** Everything the iterator still has to yield, in order. */
  method DrainIter(it: SubstringIter) returns (es: seq<Entry>)
    requires it.Valid()
    modifies it
    ensures it.Valid() && es == old(it.Pending())
  {
    ghost var all := it.Pending();
    es := [];
    while true
      invariant it.Valid()
      invariant all == es + it.Pending()
      decreases |it.Pending()|
    {
      ghost var pending := it.Pending();
      var e := it.Next();
      if e.None? {
        break;
      }
      MoveFirst(es, pending);
      es := es + [e.value];
    }
  }

  /** All items of the substring iterator: each member once with count 1, then the base string with
      its count when that is not zero. */
  method DrainSubstrings(strings: SubstringSet) returns (es: seq<Entry>)
    requires strings.Valid()
    ensures YieldsExactly(es, strings.contents, strings.base, strings.baseStringCount)
  {
    var it := new SubstringIter(strings);
    ghost var ns := ConcatFrom(strings.buckets[..], 0);
    AllNodesAreContents(strings.base, strings.buckets[..], strings.contents);
    assert it.Nodes() == ns;
    es := DrainIter(it);
  }

  lemma MoveFirst<T>(a: seq<T>, b: seq<T>)
    requires b != []
    ensures a + b == (a + [b[0]]) + b[1..]
  {
  }

  /** A list of items that stands for a set of strings and a padding count. */
  ghost predicate YieldsExactly(es: seq<Entry>, contents: set<bytes>, b: BaseString, count: nat) {
    exists ns: seq<Node> ::
      && NodesOk(b, ns)
      && es == NodeEntries(b, ns) + BaseEntry(b, count)
      && MembersOnce(b, ns, contents)
  }

  /** The nodes stand for the members of the set, each once. */
  ghost predicate MembersOnce(b: BaseString, ns: seq<Node>, contents: set<bytes>)
    requires NodesOk(b, ns)
  {
    && (forall i, j :: 0 <= i < j < |ns| ==> NodeBytes(b, ns[i]) != NodeBytes(b, ns[j]))
    && (forall x :: x in contents <==> InChain(b, ns, x))
  }

  /** The strings of the chains from bucket k on: distinct, and exactly the members whose bucket is k
      or later. */
  lemma {:induction false} ConcatMembers(b: BaseString, table: seq<seq<Node>>, contents: set<bytes>, k: nat)
    requires TableOk(b, table, contents) && k <= HASHSET_SIZE
    ensures NodesOk(b, ConcatFrom(table, k))
    ensures var ns := ConcatFrom(table, k);
            && (forall i, j :: 0 <= i < j < |ns| ==> NodeBytes(b, ns[i]) != NodeBytes(b, ns[j]))
            && (forall x :: x in contents && k <= BucketOf(x) <==> InChain(b, ns, x))
    decreases HASHSET_SIZE - k
  {
    if k < HASHSET_SIZE {
      ConcatMembers(b, table, contents, k + 1);
      var rest := ConcatFrom(table, k + 1);
      assert ChainOk(b, table[k], k);
      ChainJoin(b, table[k], rest, k);
      forall x
        ensures x in contents && k <= BucketOf(x) <==> InChain(b, table[k] + rest, x)
      {
        OwnBucket(b, table, contents, k, x);
      }
    }
  }

  /** A string stands in chain k exactly when it is a member whose bucket is k. */
  lemma OwnBucket(b: BaseString, table: seq<seq<Node>>, contents: set<bytes>, k: nat, x: bytes)
    requires TableOk(b, table, contents) && k < HASHSET_SIZE
    ensures InChain(b, table[k], x) <==> x in contents && BucketOf(x) == k
  {
    assert ChainOk(b, table[k], k);
    assert InBucket(b, table, x) <==> x in contents;
  }

  lemma ChainJoin(b: BaseString, chain: seq<Node>, rest: seq<Node>, k: nat)
    requires ChainOk(b, chain, k) && NodesOk(b, rest)
    requires forall i, j :: 0 <= i < j < |rest| ==> NodeBytes(b, rest[i]) != NodeBytes(b, rest[j])
    requires forall i :: 0 <= i < |rest| ==> BucketOf(NodeBytes(b, rest[i])) != k
    ensures var ns := chain + rest;
            && NodesOk(b, ns)
            && (forall i, j :: 0 <= i < j < |ns| ==> NodeBytes(b, ns[i]) != NodeBytes(b, ns[j]))
            && (forall x :: InChain(b, ns, x) <==> InChain(b, chain, x) || InChain(b, rest, x))
  {
    var ns := chain + rest;
    forall x
      ensures InChain(b, ns, x) <==> InChain(b, chain, x) || InChain(b, rest, x)
    {
      if i :| 0 <= i < |chain| && NodeOk(b, chain[i]) && NodeBytes(b, chain[i]) == x {
        assert ns[i] == chain[i];
      }
      if i :| 0 <= i < |rest| && NodeOk(b, rest[i]) && NodeBytes(b, rest[i]) == x {
        assert ns[|chain| + i] == rest[i];
      }
    }
  }

  lemma AllNodesAreContents(b: BaseString, table: seq<seq<Node>>, contents: set<bytes>)
    requires TableOk(b, table, contents)
    ensures NodesOk(b, ConcatFrom(table, 0)) && MembersOnce(b, ConcatFrom(table, 0), contents)
  {
    ConcatMembers(b, table, contents, 0);
  }

  /** What a drained substring set means: as many items as members, their counts add up to members
      plus padding, and a string without the sentinel is listed exactly when it is a member. */
  lemma YieldedMeaning(es: seq<Entry>, contents: set<bytes>, b: BaseString, count: nat, x: bytes)
    requires YieldsExactly(es, contents, b, count) && BAD_CHAR in b.buf && BAD_CHAR !in x
    ensures SumCounts(es) == |contents| + count
    ensures (exists k :: 0 <= k < |es| && es[k].str == x) <==> x in contents
  {
    var ns: seq<Node> :|
      NodesOk(b, ns) && es == NodeEntries(b, ns) + BaseEntry(b, count) && MembersOnce(b, ns, contents);
    var front, tail := NodeEntries(b, ns), BaseEntry(b, count);
    SumCountsConcat(front, tail);
    SumOfOnes(front);
    CountMembers(b, ns, contents);
    YieldedMembers(ns, contents, b, count, x);
  }

  lemma YieldedMembers(ns: seq<Node>, contents: set<bytes>, b: BaseString, count: nat, x: bytes)
    requires NodesOk(b, ns) && MembersOnce(b, ns, contents) && BAD_CHAR in b.buf && BAD_CHAR !in x
    ensures var es := NodeEntries(b, ns) + BaseEntry(b, count);
            (exists k :: 0 <= k < |es| && es[k].str == x) <==> x in contents
  {
    var front, tail := NodeEntries(b, ns), BaseEntry(b, count);
    var es := front + tail;
    if x in contents {
      var i :| 0 <= i < |ns| && NodeBytes(b, ns[i]) == x;
      assert es[i] == front[i];
    }
    forall k | |ns| <= k < |es|
      ensures es[k].str == b.buf
    {
      assert es[k] == tail[k - |ns|];
    }
    if k :| 0 <= k < |es| && es[k].str == x {
      if k < |ns| {
        assert es[k] == front[k] && NodeOk(b, ns[k]);
        assert InChain(b, ns, x);
      }
    }
  }

  lemma {:induction false} SumOfOnes(es: seq<Entry>)
    requires forall i :: 0 <= i < |es| ==> es[i].count == 1
    ensures SumCounts(es) == |es|
  {
    if es != [] {
      SumOfOnes(es[1..]);
    }
  }

  lemma {:induction false} CountMembers(b: BaseString, ns: seq<Node>, contents: set<bytes>)
    requires NodesOk(b, ns) && MembersOnce(b, ns, contents)
    ensures |contents| == |ns|
  {
    if ns == [] {
      assert contents == {};
    } else {
      var x, rest := NodeBytes(b, ns[0]), ns[1..];
      forall y
        ensures y in contents - {x} <==> InChain(b, rest, y)
      {
        if InChain(b, rest, y) {
          var i :| 0 <= i < |rest| && NodeOk(b, rest[i]) && NodeBytes(b, rest[i]) == y;
          assert ns[i + 1] == rest[i];
          assert InChain(b, ns, y);
        }
        if y in contents - {x} {
          var i :| 0 <= i < |ns| && NodeOk(b, ns[i]) && NodeBytes(b, ns[i]) == y;
          assert rest[i - 1] == ns[i];
        }
      }
      assert InChain(b, ns, x);
      CountMembers(b, rest, contents - {x});
    }
  }
}

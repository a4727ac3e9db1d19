/** The indexed encrypted value, version 2: layout, parser, serializer, accessors and validation. */
module IndexedValue {
  import opened Common
  import opened Cursor

  const UUID_LEN: nat := 16
  const FIELD_LEN: nat := 32
  const METADATA_LEN: nat := 96
  const MIN_SEV_LEN: nat := 17

  datatype Kind = Init | Equality | Range | Text

  const SUBTYPE_EQUALITY: byte := 14
  const SUBTYPE_RANGE: byte := 15
  const SUBTYPE_TEXT: byte := 17

  // ----- the 96-byte metadata block

  datatype MetadataBlock = MetadataBlock(
    rawBlock: bytes, encryptedCount: bytes, tag: bytes, encryptedZeros: bytes)

  predicate BlockOk(m: MetadataBlock) {
    && |m.rawBlock| == METADATA_LEN
    && m.rawBlock == m.encryptedCount + m.tag + m.encryptedZeros
    && |m.encryptedCount| == |m.tag| == |m.encryptedZeros| == FIELD_LEN
  }

  /** Splits a block into its three fields; a short buffer is refused. */
  function ParseBlock(buf: bytes): (r: Option<MetadataBlock>)
    ensures r.Some? <==> |buf| >= METADATA_LEN
    ensures r.Some? ==> BlockOk(r.value) && r.value.rawBlock == buf[..METADATA_LEN]
  {
    if |buf| < METADATA_LEN then None
    else
      var raw := buf[..METADATA_LEN];
      Some(MetadataBlock(raw, raw[..FIELD_LEN], raw[FIELD_LEN..2 * FIELD_LEN], raw[2 * FIELD_LEN..]))
  }

  lemma ParseBlockInverse(m: MetadataBlock)
    requires BlockOk(m)
    ensures ParseBlock(m.rawBlock) == Some(m)
  {
    var raw := m.rawBlock;
    assert raw[..METADATA_LEN] == raw;
    assert raw[..FIELD_LEN] == m.encryptedCount;
    assert raw[FIELD_LEN..2 * FIELD_LEN] == m.tag;
    assert raw[2 * FIELD_LEN..] == m.encryptedZeros;
  }

  // ----- layout

  datatype Payload = Payload(
    kind: Kind, blobSubtype: byte, sKeyId: bytes, bsonType: byte,
    edgeCount: nat, substrTagCount: nat, suffixTagCount: nat,
    sev: bytes, metadata: seq<MetadataBlock>)

  function KindOf(subtype: byte): Kind {
    if subtype == SUBTYPE_EQUALITY then Equality
    else if subtype == SUBTYPE_RANGE then Range
    else if subtype == SUBTYPE_TEXT then Text
    else Init
  }

  /** The counts admitted for each kind. */
  predicate CountsOk(kind: Kind, edges: nat, substrs: nat, suffixes: nat) {
    match kind
    case Init => false
    case Equality => edges == 1 && substrs == 0 && suffixes == 0
    case Range => 1 <= edges <= 255 && substrs == 0 && suffixes == 0
    case Text => edges < U32 && substrs < U32 && suffixes < U32 && edges >= substrs + suffixes + 1
  }

  predicate WellFormed(p: Payload) {
    && p.kind != Init && p.kind == KindOf(p.blobSubtype)
    && |p.sKeyId| == UUID_LEN
    && CountsOk(p.kind, p.edgeCount, p.substrTagCount, p.suffixTagCount)
    && |p.sev| >= MIN_SEV_LEN
    && |p.metadata| == p.edgeCount
    && forall i :: 0 <= i < |p.metadata| ==> BlockOk(p.metadata[i])
  }

  function CountBytes(kind: Kind, edges: nat, substrs: nat, suffixes: nat): bytes
    requires CountsOk(kind, edges, substrs, suffixes)
  {
    match kind
    case Equality => []
    case Range => [edges]
    case Text => Le32(edges) + Le32(substrs) + Le32(suffixes)
  }

  function RawBlocks(ms: seq<MetadataBlock>): bytes {
    if ms == [] then [] else ms[0].rawBlock + RawBlocks(ms[1..])
  }

  function Header(p: Payload): bytes
    requires WellFormed(p)
  {
    [p.blobSubtype] + p.sKeyId + [p.bsonType]
    + CountBytes(p.kind, p.edgeCount, p.substrTagCount, p.suffixTagCount)
  }

  /** The documented byte layout. */
  function Layout(p: Payload): bytes
    requires WellFormed(p)
  {
    Header(p) + p.sev + RawBlocks(p.metadata)
  }

  // ----- decoding

  /** The first n blocks of the data. */
  function Blocks(data: bytes, n: nat): (ms: seq<MetadataBlock>)
    requires |data| >= n * METADATA_LEN
    ensures |ms| == n
    ensures forall i :: 0 <= i < n ==> BlockOk(ms[i])
  {
    if n == 0 then [] else [ParseBlock(data[..METADATA_LEN]).value] + Blocks(data[METADATA_LEN..], n - 1)
  }

  function CountLen(kind: Kind): nat {
    match kind case Range => 1 case Text => 12 case _ => 0
  }

  function DecodeCounts(kind: Kind, b: bytes): (nat, nat, nat)
    requires |b| >= CountLen(kind)
  {
    match kind
    case Range => (b[0], 0, 0)
    case Text => (FromLe32(b[..4]), FromLe32(b[4..8]), FromLe32(b[8..12]))
    case _ => (1, 0, 0)
  }

  const HEADER_LEN: nat := 18

  /** The counts, if they are all there and usable. */
  function CheckedCounts(kind: Kind, rest: bytes): Option<(nat, nat, nat)> {
    if |rest| < CountLen(kind) then None
    else
      var c := DecodeCounts(kind, rest);
      if CountsOk(kind, c.0, c.1, c.2) then Some(c) else None
  }

  /** The encrypted value and the metadata blocks behind it. */
  function DecodeTail(tail: bytes, edges: nat): Option<(bytes, seq<MetadataBlock>)> {
    if |tail| < MIN_SEV_LEN + edges * METADATA_LEN then None
    else
      var sevLen := |tail| - edges * METADATA_LEN;
      Some((tail[..sevLen], Blocks(tail[sevLen..], edges)))
  }

  /** Counts, encrypted value and metadata that follow the common header. */
  function DecodeBody(kind: Kind, rest: bytes): Option<(nat, nat, nat, bytes, seq<MetadataBlock>)>
    requires kind != Init
  {
    match CheckedCounts(kind, rest)
    case None => None
    case Some(c) =>
      match DecodeTail(rest[CountLen(kind)..], c.0)
      case None => None
      case Some(t) => Some((c.0, c.1, c.2, t.0, t.1))
  }

  /** The payload that a buffer holds, if it is well formed. */
  function Decode(buf: bytes): Option<Payload> {
    if buf == [] || KindOf(buf[0]) == Init || |buf| < HEADER_LEN then None
    else
      match DecodeBody(KindOf(buf[0]), buf[HEADER_LEN..])
      case None => None
      case Some((edges, substrs, suffixes, sev, metadata)) =>
        Some(Payload(KindOf(buf[0]), buf[0], buf[1..17], buf[17], edges, substrs, suffixes, sev, metadata))
  }

  lemma {:induction false} RawBlocksLength(ms: seq<MetadataBlock>)
    requires forall i :: 0 <= i < |ms| ==> BlockOk(ms[i])
    ensures |RawBlocks(ms)| == |ms| * METADATA_LEN
  {
    if ms != [] {
      RawBlocksLength(ms[1..]);
    }
  }

  lemma {:induction false} BlocksOfRaw(ms: seq<MetadataBlock>)
    requires forall i :: 0 <= i < |ms| ==> BlockOk(ms[i])
    ensures |RawBlocks(ms)| == |ms| * METADATA_LEN
    ensures Blocks(RawBlocks(ms), |ms|) == ms
  {
    RawBlocksLength(ms);
    if ms != [] {
      var raw := RawBlocks(ms);
      BlocksOfRaw(ms[1..]);
      assert raw[..METADATA_LEN] == ms[0].rawBlock;
      assert raw[METADATA_LEN..] == RawBlocks(ms[1..]);
      ParseBlockInverse(ms[0]);
    }
  }

  lemma {:induction false} RawOfBlocks(data: bytes, n: nat)
    requires |data| == n * METADATA_LEN
    ensures RawBlocks(Blocks(data, n)) == data
  {
    if n > 0 {
      RawOfBlocks(data[METADATA_LEN..], n - 1);
      var ms := Blocks(data, n);
      assert ms[1..] == Blocks(data[METADATA_LEN..], n - 1);
      assert ms[0].rawBlock == data[..METADATA_LEN];
    }
  }

  lemma CountsRoundTrip(kind: Kind, b: bytes)
    requires kind != Init && |b| >= CountLen(kind)
    requires var c := DecodeCounts(kind, b); CountsOk(kind, c.0, c.1, c.2)
    ensures var c := DecodeCounts(kind, b); CountBytes(kind, c.0, c.1, c.2) == b[..CountLen(kind)]
  {
    if kind == Text {
      FromLe32RoundTrip(b[..4]);
      FromLe32RoundTrip(b[4..8]);
      FromLe32RoundTrip(b[8..12]);
    }
  }

  lemma CountsDecodeEncoded(kind: Kind, edges: nat, substrs: nat, suffixes: nat, tail: bytes)
    requires CountsOk(kind, edges, substrs, suffixes)
    ensures |CountBytes(kind, edges, substrs, suffixes)| == CountLen(kind)
    ensures DecodeCounts(kind, CountBytes(kind, edges, substrs, suffixes) + tail) == (edges, substrs, suffixes)
  {
    if kind == Text {
      var b := CountBytes(kind, edges, substrs, suffixes) + tail;
      assert b[..4] == Le32(edges) && b[4..8] == Le32(substrs) && b[8..12] == Le32(suffixes);
      Le32RoundTrip(edges);
      Le32RoundTrip(substrs);
      Le32RoundTrip(suffixes);
    }
  }

  lemma DecodeBodySound(kind: Kind, rest: bytes)
    requires kind != Init && DecodeBody(kind, rest).Some?
    ensures var (edges, substrs, suffixes, sev, ms) := DecodeBody(kind, rest).value;
            && CountsOk(kind, edges, substrs, suffixes) && |sev| >= MIN_SEV_LEN && |ms| == edges
            && (forall i :: 0 <= i < |ms| ==> BlockOk(ms[i]))
            && rest == CountBytes(kind, edges, substrs, suffixes) + (sev + RawBlocks(ms))
  {
    var (edges, substrs, suffixes, sev, ms) := DecodeBody(kind, rest).value;
    var tail := rest[CountLen(kind)..];
    CountsRoundTrip(kind, rest);
    RawOfBlocks(tail[|sev|..], edges);
    assert tail == sev + RawBlocks(ms);
    assert rest == rest[..CountLen(kind)] + tail;
  }

  /** Decoding is sound: a decoded payload is well formed and lays out as the very buffer. */
  lemma DecodeSound(buf: bytes)
    requires Decode(buf).Some?
    ensures WellFormed(Decode(buf).value) && Layout(Decode(buf).value) == buf
  {
    var p := Decode(buf).value;
    DecodeBodySound(p.kind, buf[HEADER_LEN..]);
    JoinParts(buf, CountBytes(p.kind, p.edgeCount, p.substrTagCount, p.suffixTagCount), p.sev, RawBlocks(p.metadata));
  }

  lemma JoinParts(buf: bytes, counts: bytes, sev: bytes, raw: bytes)
    requires |buf| >= HEADER_LEN && buf[HEADER_LEN..] == counts + (sev + raw)
    ensures buf == [buf[0]] + buf[1..17] + [buf[17]] + counts + sev + raw
  {
    assert buf == [buf[0]] + buf[1..17] + [buf[17]] + buf[HEADER_LEN..];
  }

  /** Decoding is complete: the layout of a well-formed payload decodes to that payload. */
  lemma DecodeComplete(p: Payload)
    requires WellFormed(p)
    ensures Decode(Layout(p)) == Some(p)
  {
    var buf := Layout(p);
    var counts := CountBytes(p.kind, p.edgeCount, p.substrTagCount, p.suffixTagCount);
    var raw := RawBlocks(p.metadata);
    var tail := p.sev + raw;
    assert buf[HEADER_LEN..] == counts + tail;
    assert buf[1..17] == p.sKeyId && buf[17] == p.bsonType;
    CountsDecodeEncoded(p.kind, p.edgeCount, p.substrTagCount, p.suffixTagCount, tail);
    BlocksOfRaw(p.metadata);
    assert (counts + tail)[|counts|..] == tail;
    assert tail[..|p.sev|] == p.sev && tail[|p.sev|..] == raw;
  }

  // ----- the operations

  /** Length of the serialized form, in 32-bit arithmetic. */
  function SerializedLength(p: Payload): nat {
    (|p.sev| + 1 + UUID_LEN + 1 + (if p.kind == Range then 1 else 0) + (if p.kind == Text then 12 else 0)
     + p.edgeCount * METADATA_LEN) % U32
  }

  lemma LayoutLength(p: Payload)
    requires WellFormed(p)
    ensures SerializedLength(p) == |Layout(p)| % U32
    ensures |Layout(p)| >= |Header(p)| == HEADER_LEN + CountLen(p.kind)
    ensures |Layout(p)| < U32 <==> |Layout(p)| <= |Layout(p)| % U32
  {
    RawBlocksLength(p.metadata);
    CountsDecodeEncoded(p.kind, p.edgeCount, p.substrTagCount, p.suffixTagCount, []);
  }

  class IndexedEncryptedValue {
    var kind: Kind
    var blobSubtype: byte
    var bsonType: byte
    var edgeCount: nat
    var substrTagCount: nat
    var suffixTagCount: nat
    var sKeyId: bytes
    var sev: bytes
    var metadata: seq<MetadataBlock>

    constructor ()
      ensures kind == Init
    {
      kind, blobSubtype, bsonType := Init, 0, 0;
      edgeCount, substrTagCount, suffixTagCount := 0, 0, 0;
      sKeyId, sev, metadata := [], [], [];
    }

    function Value(): Payload
      reads this
    {
      Payload(kind, blobSubtype, sKeyId, bsonType, edgeCount, substrTagCount, suffixTagCount, sev, metadata)
    }

    /** Accepts exactly the buffers that decode, and only on a fresh value. */
    method Parse(buf: bytes) returns (ok: bool)
      modifies this
      ensures ok <==> old(kind) == Init && Decode(buf).Some?
      ensures ok ==> Value() == Decode(buf).value
      ensures old(kind) != Init ==> Value() == old(Value())
    {
      if |buf| == 0 || kind != Init {
        return false;
      }
      var reader := new Reader(buf);
      var subtype := reader.ReadU8();
      blobSubtype := subtype.value;
      kind := KindOf(blobSubtype);
      if kind == Init {
        return false;
      }
      var keyId := reader.ReadBytes(UUID_LEN);
      if keyId.None? {
        return false;
      }
      sKeyId := keyId.value;
      var bson := reader.ReadU8();
      if bson.None? {
        return false;
      }
      bsonType := bson.value;
      assert sKeyId == buf[1..17] && reader.Rest() == buf[HEADER_LEN..];
      ok := ParseBody(reader);
    }

    /** The part after the common header. */
    method ParseBody(reader: Reader) returns (ok: bool)
      requires reader.Valid() && kind != Init
      modifies this`edgeCount, this`substrTagCount, this`suffixTagCount, this`sev, this`metadata, reader
      ensures ok <==> DecodeBody(kind, old(reader.Rest())).Some?
      ensures ok ==>
                Some((edgeCount, substrTagCount, suffixTagCount, sev, metadata)) == DecodeBody(kind, old(reader.Rest()))
    {
      ok := ParseCounts(reader);
      if !ok {
        return;
      }
      ok := ParseTail(reader);
    }

    /** The encrypted value takes what the metadata leaves, at least its minimum length. */
    method ParseTail(reader: Reader) returns (ok: bool)
      requires reader.Valid()
      modifies this`sev, this`metadata, reader
      ensures ok <==> DecodeTail(old(reader.Rest()), edgeCount).Some?
      ensures ok ==> Some((sev, metadata)) == DecodeTail(old(reader.Rest()), edgeCount)
    {
      var metadataLen := edgeCount * METADATA_LEN;
      var remaining := reader.RemainingLength();
      if remaining < MIN_SEV_LEN + metadataLen {
        return false;
      }
      var sevLen := remaining - metadataLen;
      var encrypted := reader.ReadBytes(sevLen);
      sev := encrypted.value;
      metadata := ReadBlocks(reader, edgeCount);
      ok := true;
    }

    /** The kind-dependent counts and their checks. */
    method ParseCounts(reader: Reader) returns (ok: bool)
      requires reader.Valid() && kind != Init
      modifies this`edgeCount, this`substrTagCount, this`suffixTagCount, reader
      ensures reader.Valid()
      ensures ok <==> CheckedCounts(kind, old(reader.Rest())).Some?
      ensures ok ==> Some((edgeCount, substrTagCount, suffixTagCount)) == CheckedCounts(kind, old(reader.Rest()))
      ensures ok ==> reader.Rest() == old(reader.Rest())[CountLen(kind)..]
    {
      ghost var rest := reader.Rest();
      substrTagCount, suffixTagCount := 0, 0;
      match kind {
        case Equality =>
          edgeCount := 1;
        case Range =>
          var ec := reader.ReadU8();
          if ec.None? || ec.value == 0 {
            return false;
          }
          edgeCount := ec.value;
        case Text =>
          var ec := reader.ReadU32();
          if ec.None? {
            return false;
          }
          edgeCount := ec.value;
          var sub := reader.ReadU32();
          if sub.None? {
            return false;
          }
          substrTagCount := sub.value;
          var suf := reader.ReadU32();
          if suf.None? {
            return false;
          }
          suffixTagCount := suf.value;
          assert rest[4..][..4] == rest[4..8] && rest[4..][4..][..4] == rest[8..12];
          if edgeCount < substrTagCount + suffixTagCount + 1 {
            return false;
          }
          assert rest[4..][4..][4..] == rest[12..];
      }
      ok := true;
    }

    /** Writes the layout into a buffer of the computed length; fails exactly when the value was never
        parsed or its length does not fit 32 bits. */
    method Serialize() returns (ok: bool, out: array<byte>)
      requires kind == Init || WellFormed(Value())
      ensures ok <==> kind != Init && |Layout(Value())| < U32
      ensures ok ==> fresh(out) && out[..] == Layout(Value())
    {
      out := new byte[0];
      if kind == Init {
        return false, out;
      }
      ghost var layout := Layout(Value());
      LayoutLength(Value());
      var expectedLen := SerializedLength(Value());
      out := new byte[expectedLen](_ => 0);
      var writer := new Writer(out);
      ok := WriteHeader(writer);
      if !ok {
        return;
      }
      ok := WriteBody(writer);
      if ok {
        assert writer.Written() == layout && |layout| == out.Length;
        assert out[..] == layout;
      }
    }

    /** The encrypted value and the metadata. */
    method WriteBody(writer: Writer) returns (ok: bool)
      requires WellFormed(Value()) && writer.Valid() && writer.Written() == Header(Value())
      modifies writer`pos, writer.buf
      ensures writer.Valid()
      ensures ok <==> |Layout(Value())| <= writer.buf.Length
      ensures ok ==> writer.Written() == Layout(Value())
    {
      ok := writer.WriteBuffer(sev, |sev|);
      if !ok {
        return;
      }
      assert sev[..|sev|] == sev;
      ok := WriteBlocks(writer, metadata);
    }

    /** Everything before the encrypted value. */
    method WriteHeader(writer: Writer) returns (ok: bool)
      requires WellFormed(Value()) && writer.Valid() && writer.Written() == []
      modifies writer`pos, writer.buf
      ensures writer.Valid()
      ensures ok <==> HEADER_LEN + CountLen(kind) <= writer.buf.Length
      ensures ok ==> writer.Written() == Header(Value())
    {
      ok := writer.WriteU8(blobSubtype);
      if !ok {
        return;
      }
      ok := writer.WriteBuffer(sKeyId, UUID_LEN);
      if !ok {
        return;
      }
      assert sKeyId[..UUID_LEN] == sKeyId;
      ok := writer.WriteU8(bsonType);
      if !ok {
        return;
      }
      ok := WriteCounts(writer);
    }

    /** The counts that the kind stores. */
    method WriteCounts(writer: Writer) returns (ok: bool)
      requires CountsOk(kind, edgeCount, substrTagCount, suffixTagCount) && writer.Valid()
      modifies writer`pos, writer.buf
      ensures writer.Valid()
      ensures ok <==> |old(writer.Written())| + CountLen(kind) <= writer.buf.Length
      ensures ok ==>
                writer.Written() == old(writer.Written()) + CountBytes(kind, edgeCount, substrTagCount, suffixTagCount)
    {
      ok := true;
      if kind == Range {
        ok := writer.WriteU8(edgeCount);
      } else if kind == Text {
        ok := writer.WriteU32(edgeCount);
        if !ok {
          return;
        }
        ok := writer.WriteU32(substrTagCount);
        if !ok {
          return;
        }
        ok := writer.WriteU32(suffixTagCount);
      }
    }
  }

  /** Reads n metadata blocks, each parsed from its own 96 bytes. */
  method ReadBlocks(reader: Reader, n: nat) returns (ms: seq<MetadataBlock>)
    requires reader.Valid() && |reader.Rest()| >= n * METADATA_LEN
    modifies reader
    ensures reader.Valid() && ms == Blocks(old(reader.Rest()), n)
  {
    ghost var data := reader.Rest();
    ms := [];
    var i := 0;
    while i < n
      invariant 0 <= i <= n && reader.Valid()
      invariant |reader.Rest()| >= (n - i) * METADATA_LEN
      invariant Blocks(data, n) == ms + Blocks(reader.Rest(), n - i)
    {
      var mbuf := reader.ReadBytes(METADATA_LEN);
      var m := ParseBlock(mbuf.value);
      ms := ms + [m.value];
      i := i + 1;
    }
  }

  /** Writes the raw bytes of the blocks in order. */
  method WriteBlocks(writer: Writer, ms: seq<MetadataBlock>) returns (ok: bool)
    requires writer.Valid() && forall i :: 0 <= i < |ms| ==> BlockOk(ms[i])
    modifies writer`pos, writer.buf
    ensures writer.Valid()
    ensures ok <==> |old(writer.Written())| + |RawBlocks(ms)| <= writer.buf.Length
    ensures ok ==> writer.Written() == old(writer.Written()) + RawBlocks(ms)
  {
    ghost var all := writer.Written() + RawBlocks(ms);
    var i := 0;
    while i < |ms|
      invariant 0 <= i <= |ms| && writer.Valid()
      invariant all == writer.Written() + RawBlocks(ms[i..])
    {
      var m := ms[i];
      assert ms[i..][1..] == ms[i + 1..];
      assert m.rawBlock[..METADATA_LEN] == m.rawBlock;
      ok := writer.WriteBuffer(m.rawBlock, METADATA_LEN);
      if !ok {
        return;
      }
      i := i + 1;
    }
    assert ms[i..] == [];
    ok := true;
  }

  // ----- round trips

  /** Parsing and then serializing reproduces every accepted buffer, and the 32-bit length does not wrap. */
  lemma ParseThenSerialize(buf: bytes)
    requires |buf| < U32 && Decode(buf).Some?
    ensures var p := Decode(buf).value;
            WellFormed(p) && Layout(p) == buf && SerializedLength(p) == |buf|
  {
    DecodeSound(buf);
    LayoutLength(Decode(buf).value);
    SmallMod(|buf|);
  }

  /** Two payloads with one layout are equal. */
  lemma LayoutInjective(p: Payload, q: Payload)
    requires WellFormed(p) && WellFormed(q) && Layout(p) == Layout(q)
    ensures p == q
  {
    DecodeComplete(p);
    DecodeComplete(q);
  }

  /** A buffer is accepted exactly when it is the layout of a well-formed payload. */
  lemma AcceptedIffLayout(buf: bytes)
    ensures Decode(buf).Some? <==> exists p :: WellFormed(p) && Layout(p) == buf
  {
    if Decode(buf).Some? {
      DecodeSound(buf);
    }
    if p :| WellFormed(p) && Layout(p) == buf {
      DecodeComplete(p);
    }
  }

  // ----- the bytes

  /** Where the encrypted value begins, by the subtype in the first byte. */
  function ValueStart(subtype: byte): nat {
    if subtype == 15 then 19 else if subtype == 17 then 30 else 18
  }

  /** The number of edges that the bytes announce. */
  function EdgesIn(buf: bytes): nat
    requires |buf| >= 18 && |buf| >= ValueStart(buf[0])
  {
    if buf[0] == 15 then buf[18] else if buf[0] == 17 then FromLe32(buf[18..22]) else 1
  }

  /** Which buffers are accepted, by their bytes: subtype 14, 15 or 17, a header of 18 bytes and the counts of
      the subtype, at least one edge, for a text one more than the substring and suffix tags, and room for 17
      bytes of encrypted value and 96 bytes for every edge. */
  lemma AcceptedIffBytes(buf: bytes)
    ensures Decode(buf).Some? <==>
            && |buf| >= 18 && buf[0] in {14, 15, 17} && |buf| >= ValueStart(buf[0])
            && EdgesIn(buf) >= 1
            && (buf[0] == 17 ==> EdgesIn(buf) >= FromLe32(buf[22..26]) + FromLe32(buf[26..30]) + 1)
            && |buf| >= ValueStart(buf[0]) + 17 + 96 * EdgesIn(buf)
  {
    if |buf| >= 18 {
      var rest := buf[18..];
      if buf[0] == 17 && |buf| >= 30 {
        assert rest[..4] == buf[18..22] && rest[4..8] == buf[22..26] && rest[8..12] == buf[26..30];
      }
    }
  }

  lemma {:induction false} BlocksAt(data: bytes, n: nat, i: nat)
    requires |data| >= n * METADATA_LEN && i < n
    ensures Blocks(data, n)[i] == ParseBlock(data[96 * i..96 * i + 96]).value
  {
    if i > 0 {
      var rest := data[96..];
      BlocksAt(rest, n - 1, i - 1);
      assert rest[96 * (i - 1)..96 * (i - 1) + 96] == data[96 * i..96 * i + 96];
    }
  }

  /** The three fields of a block that begins at `at`. */
  predicate BlockAt(m: MetadataBlock, buf: bytes, at: nat)
    requires at + 96 <= |buf|
  {
    && m.encryptedCount == buf[at..at + 32] && m.tag == buf[at + 32..at + 64]
    && m.encryptedZeros == buf[at + 64..at + 96]
  }

  lemma BlockFields(buf: bytes, at: nat)
    requires at + 96 <= |buf|
    ensures BlockAt(ParseBlock(buf[at..at + 96]).value, buf, at)
  {
    var raw := buf[at..at + 96];
    assert raw[..96] == raw;
    SliceOfSlice(buf, at, at + 96, 0, 32);
    SliceOfSlice(buf, at, at + 96, 32, 64);
    SliceOfSlice(buf, at, at + 96, 64, 96);
  }

  lemma SliceOfSlice(s: bytes, a: nat, b: nat, c: nat, d: nat)
    requires a <= b <= |s| && c <= d <= b - a
    ensures s[a..b][c..d] == s[a + c..a + d]
  {
    var part, whole := s[a..b][c..d], s[a + c..a + d];
    assert |part| == |whole|;
    assert forall k :: 0 <= k < |part| ==> part[k] == s[a..b][c + k] == s[a + (c + k)] == whole[k];
  }

  lemma DecodedHeader(buf: bytes)
    requires Decode(buf).Some?
    ensures |buf| >= 18 && |buf| >= ValueStart(buf[0]) && |buf| >= ValueStart(buf[0]) + 96 * EdgesIn(buf)
    ensures var p := Decode(buf).value;
            && p.blobSubtype == buf[0] && p.sKeyId == buf[1..17] && p.bsonType == buf[17]
            && p.edgeCount == |p.metadata| == EdgesIn(buf)
            && p.substrTagCount == (if buf[0] == 17 then FromLe32(buf[22..26]) else 0)
            && p.suffixTagCount == (if buf[0] == 17 then FromLe32(buf[26..30]) else 0)
    ensures var p, tail := Decode(buf).value, buf[ValueStart(buf[0])..];
            DecodeTail(tail, p.edgeCount) == Some((p.sev, p.metadata))
  {
    AcceptedIffBytes(buf);
    var p, rest := Decode(buf).value, buf[18..];
    if buf[0] == 17 {
      assert rest[..4] == buf[18..22] && rest[4..8] == buf[22..26] && rest[8..12] == buf[26..30];
    }
    assert rest[CountLen(p.kind)..] == buf[ValueStart(buf[0])..];
  }

  /** Where everything stands in an accepted buffer: the metadata blocks are at the end, each of a count, a tag
      and the encrypted zeros of 32 bytes, and the encrypted value is all that is left before them. */
  lemma DecodedFromBytes(buf: bytes, i: nat)
    requires Decode(buf).Some? && i < Decode(buf).value.edgeCount
    ensures |buf| >= 18 && |buf| >= ValueStart(buf[0]) && |buf| >= ValueStart(buf[0]) + 96 * EdgesIn(buf)
    ensures var p, blocks := Decode(buf).value, |buf| - 96 * EdgesIn(buf);
            && p.blobSubtype == buf[0] && p.sKeyId == buf[1..17] && p.bsonType == buf[17]
            && p.edgeCount == |p.metadata| == EdgesIn(buf)
            && p.substrTagCount == (if buf[0] == 17 then FromLe32(buf[22..26]) else 0)
            && p.suffixTagCount == (if buf[0] == 17 then FromLe32(buf[26..30]) else 0)
            && p.sev == buf[ValueStart(buf[0])..blocks]
            && BlockAt(p.metadata[i], buf, blocks + 96 * i)
  {
    DecodedHeader(buf);
    TailFromBytes(buf, ValueStart(buf[0]), Decode(buf).value.edgeCount, i);
  }

  /** The encrypted value and the blocks of a buffer whose tail begins at `start`. */
  lemma TailFromBytes(buf: bytes, start: nat, edges: nat, i: nat)
    requires start <= |buf| && DecodeTail(buf[start..], edges).Some? && i < edges
    requires start + 96 * edges <= |buf|
    ensures var t, blocks := DecodeTail(buf[start..], edges).value, |buf| - 96 * edges;
            t.0 == buf[start..blocks] && |t.1| == edges && BlockAt(t.1[i], buf, blocks + 96 * i)
  {
    var tail, blocks := buf[start..], |buf| - 96 * edges;
    var data, at := tail[blocks - start..], blocks + 96 * i;
    assert tail[..blocks - start] == buf[start..blocks] && data == buf[blocks..];
    BlocksAt(data, edges, i);
    assert data[96 * i..96 * i + 96] == buf[at..at + 96];
    BlockFields(buf, at);
  }

  // ----- accessors of a text value

  datatype Access = Exact | Substr(block: nat) | Suffix(block: nat) | Prefix(block: nat)

  /** Number of prefix tags, in 32-bit arithmetic. */
  function PrefixTagCount(p: Payload): nat {
    (p.edgeCount - p.substrTagCount - p.suffixTagCount - 1) % U32
  }

  /** The metadata index an accessor reads; refused for other kinds and for blocks out of range. */
  function AccessIndex(p: Payload, a: Access): Option<nat> {
    if p.kind != Text then None
    else
      match a
      case Exact => Some(0)
      case Substr(i) => if i < p.substrTagCount then Some((i + 1) % U32) else None
      case Suffix(i) => if i < p.suffixTagCount then Some((i + p.substrTagCount + 1) % U32) else None
      case Prefix(i) =>
        if i < PrefixTagCount(p) then Some((i + p.suffixTagCount + p.substrTagCount + 1) % U32) else None
  }

  /** The accessor that reads a given block. */
  function AccessorOf(p: Payload, k: nat): Access
    requires WellFormed(p) && p.kind == Text && k < p.edgeCount
  {
    if k == 0 then Exact
    else if k <= p.substrTagCount then Substr(k - 1)
    else if k <= p.substrTagCount + p.suffixTagCount then Suffix(k - 1 - p.substrTagCount)
    else Prefix(k - 1 - p.substrTagCount - p.suffixTagCount)
  }

  /** The four accessors partition the metadata: every read is in range, every block is read, and by
      one accessor at one index. */
  lemma AccessorsPartition(p: Payload, a: Access, k: nat)
    requires WellFormed(p) && p.kind == Text
    ensures AccessIndex(p, a).Some? ==> AccessIndex(p, a).value < |p.metadata|
    ensures k < |p.metadata| ==> (AccessIndex(p, a) == Some(k) <==> a == AccessorOf(p, k))
  {
    SmallMod(p.edgeCount - p.substrTagCount - p.suffixTagCount - 1);
    match a {
      case Exact =>
      case Substr(i) => if i < p.substrTagCount { SmallMod(i + 1); }
      case Suffix(i) => if i < p.suffixTagCount { SmallMod(i + p.substrTagCount + 1); }
      case Prefix(i) => if i < PrefixTagCount(p) { SmallMod(i + p.suffixTagCount + p.substrTagCount + 1); }
    }
  }

  // ----- validation

  const BSON_DOUBLE: byte := 0x01
  const BSON_UTF8: byte := 0x02
  const BSON_BINARY: byte := 0x05
  const BSON_OID: byte := 0x07
  const BSON_BOOL: byte := 0x08
  const BSON_DATE_TIME: byte := 0x09
  const BSON_REGEX: byte := 0x0B
  const BSON_DBPOINTER: byte := 0x0C
  const BSON_CODE: byte := 0x0D
  const BSON_SYMBOL: byte := 0x0E
  const BSON_INT32: byte := 0x10
  const BSON_TIMESTAMP: byte := 0x11
  const BSON_INT64: byte := 0x12
  const BSON_DECIMAL128: byte := 0x13

  predicate SupportedType(kind: Kind, bsonType: byte) {
    match kind
    case Init => false
    case Equality =>
      bsonType in {BSON_BINARY, BSON_CODE, BSON_REGEX, BSON_UTF8, BSON_INT32, BSON_INT64, BSON_BOOL,
                   BSON_TIMESTAMP, BSON_DATE_TIME, BSON_OID, BSON_SYMBOL, BSON_DBPOINTER}
    case Range => bsonType in {BSON_INT32, BSON_INT64, BSON_DATE_TIME, BSON_DOUBLE, BSON_DECIMAL128}
    case Text => bsonType == BSON_UTF8
  }

  /** Validation of a value that holds no decrypted data. */
  predicate Validate(p: Payload) {
    && p.kind != Init
    && (match p.kind
        case Equality => p.blobSubtype == SUBTYPE_EQUALITY && p.edgeCount == 1
        case Range => p.blobSubtype == SUBTYPE_RANGE && p.edgeCount <= 255
        case _ => p.blobSubtype == SUBTYPE_TEXT && p.edgeCount >= p.substrTagCount + p.suffixTagCount + 1)
    && SupportedType(p.kind, p.bsonType)
    && |p.sev| >= MIN_SEV_LEN
    && |p.sKeyId| == UUID_LEN
    && p.edgeCount > 0
    && forall i :: 0 <= i < p.edgeCount ==> i < |p.metadata| && ValidateBlock(p.metadata[i])
  }

  predicate ValidateBlock(m: MetadataBlock) {
    |m.rawBlock| == METADATA_LEN && |m.encryptedCount| == |m.tag| == |m.encryptedZeros| == FIELD_LEN
  }

  /** The BSON types, by number, that can be indexed for a kind. */
  function TypeNumbers(kind: Kind): set<int> {
    match kind
    case Init => {}
    case Equality => {2, 5, 7, 8, 9, 11, 12, 13, 14, 16, 17, 18}
    case Range => {1, 9, 16, 18, 19}
    case Text => {2}
  }

  /** The parts of the value agree with one another: as many blocks as edges, each the concatenation of its
      fields, and tag counts for a text only. */
  ghost predicate Consistent(p: Payload) {
    && p.edgeCount < U32 && p.substrTagCount < U32 && p.suffixTagCount < U32
    && |p.metadata| == p.edgeCount
    && (forall i :: 0 <= i < |p.metadata| ==>
          var m := p.metadata[i]; m.rawBlock == m.encryptedCount + m.tag + m.encryptedZeros)
    && (p.kind != Text ==> p.substrTagCount == 0 && p.suffixTagCount == 0)
  }

  /** Such a value validates exactly when it can be laid out, so that it parses back, and its BSON type suits
      its kind. */
  lemma ValidatesIffWellFormed(p: Payload)
    requires Consistent(p)
    ensures Validate(p) <==> WellFormed(p) && p.bsonType as int in TypeNumbers(p.kind)
  {
  }

  /** A parsed value validates exactly when its BSON type suits its kind. */
  lemma ParsedValidates(buf: bytes)
    requires Decode(buf).Some?
    ensures Validate(Decode(buf).value) <==> buf[17] as int in TypeNumbers(Decode(buf).value.kind)
  {
    DecodeSound(buf);
  }
}

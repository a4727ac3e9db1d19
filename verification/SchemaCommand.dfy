/** Adding the broker's schemas to a command: which fields are written, where, and that each requested
    collection is described exactly once. */
module SchemaCommand {
  import opened Common
  import opened Bson
  import opened SchemaBroker

  /** The decrypted keys: from alternate name to key id. */
  type KeyBroker = map<string, bytes>

  datatype Target = CryptShared | Mongocryptd | Server

  predicate QueryAnalysis(target: Target) {
    target != Server
  }

  function Without(fields: Fields, key: string): Fields {
    if fields == [] then []
    else (if fields[0].key == key then [] else [fields[0]]) + Without(fields[1..], key)
  }

  function DbName(b: State): string {
    if b.db.Some? then b.db.value else ""
  }

  function Prepend<T>(out: seq<T>, rest: Result<seq<T>>): (r: Result<seq<T>>)
    ensures out == [] ==> r == rest
    ensures rest == Ok([]) ==> r == Ok(out)
  {
    match rest
    case Ok(s) =>
      (assert out == [] ==> out + s == s;
       assert s == [] ==> out + s == out;
       Ok(out + s))
    case Err => Err
  }

  lemma PrependTwice<T>(out: seq<T>, x: T, rest: Result<seq<T>>)
    ensures Prepend(out, Prepend([x], rest)) == Prepend(out + [x], rest)
  {
    assert rest.Ok? ==> out + ([x] + rest.value) == out + [x] + rest.value;
  }

  // ----- one encryptedFields document

  /** A field description with `keyAltName` replaced by the id of the key of that name. */
  function TranslateField(doc: Fields, kb: KeyBroker): Result<Fields> {
    var name := Find(doc, "keyAltName");
    if name.Some? && name.value.Utf8? then
      var alt := CString(name.value.text);
      if alt in kb then Ok(Without(doc, "keyAltName") + [Field("keyId", Binary(kb[alt]))]) else Err
    else Ok(Without(doc, "keyAltName"))
  }

  function TranslateItem(item: Value, kb: KeyBroker): Result<Value> {
    if item.Document? then
      match TranslateField(item.fields, kb) case Ok(doc) => Ok(Document(doc)) case Err => Err
    else Ok(item)
  }

  function TranslateItems(items: seq<Value>, kb: KeyBroker): Result<seq<Value>> {
    if items == [] then Ok([])
    else
      match TranslateItem(items[0], kb)
      case Ok(item) => Prepend([item], TranslateItems(items[1..], kb))
      case Err => Err
  }

  function TranslateEntry(f: Field, kb: KeyBroker): Result<Field> {
    if f.key == "fields" && f.value.Array? then
      match TranslateItems(f.value.items, kb) case Ok(items) => Ok(Field("fields", Array(items))) case Err => Err
    else Ok(f)
  }

  function TranslateEf(doc: Fields, kb: KeyBroker): Result<Fields> {
    if doc == [] then Ok([])
    else
      match TranslateEntry(doc[0], kb)
      case Ok(f) => Prepend([f], TranslateEf(doc[1..], kb))
      case Err => Err
  }

  predicate HasKey(fields: Fields, key: string) {
    CountKey(fields, key) > 0
  }

  /** What a server needs and the document lacks. */
  function EfDefaults(
    hasEsc: bool, hasEcoc: bool, hasFields: bool, hasVersion: bool, coll: string, strEncodeVersion: nat): Fields
  {
    (if hasEsc then [] else [Field("escCollection", Utf8("enxcol_." + coll + ".esc"))])
    + (if hasEcoc then [] else [Field("ecocCollection", Utf8("enxcol_." + coll + ".ecoc"))])
    + (if hasFields then [] else [Field("fields", Array([]))])
    + (if hasVersion || strEncodeVersion == 0 then [] else [Field("strEncodeVersion", Int32(strEncodeVersion))])
  }

  function EfDocument(doc: Fields, coll: string, strEncodeVersion: nat, kb: KeyBroker): Result<Fields> {
    match TranslateEf(doc, kb)
    case Ok(translated) =>
      Ok(translated + EfDefaults(HasKey(doc, "escCollection"), HasKey(doc, "ecocCollection"), HasKey(doc, "fields"),
                                 HasKey(doc, "strEncodeVersion"), coll, strEncodeVersion))
    case Err => Err
  }

  method TranslateKeyAltNames(items: seq<Value>, kb: KeyBroker) returns (r: Result<seq<Value>>)
    ensures r == TranslateItems(items, kb)
  {
    var out := [];
    var k := 0;
    assert items[0..] == items;
    while k < |items|
      invariant 0 <= k <= |items|
      invariant TranslateItems(items, kb) == Prepend(out, TranslateItems(items[k..], kb))
    {
      assert items[k..][0] == items[k] && items[k..][1..] == items[k + 1..];
      var item := TranslateItem(items[k], kb);
      if item.Err? {
        return Err;
      }
      PrependTwice(out, item.value, TranslateItems(items[k + 1..], kb));
      out := out + [item.value];
      k := k + 1;
    }
    r := Ok(out);
  }

  lemma KeysNext(doc: Fields, k: nat)
    requires k < |doc|
    ensures forall key :: HasKey(doc[..k + 1], key) <==> HasKey(doc[..k], key) || doc[k].key == key
  {
    assert doc[..k + 1] == doc[..k] + [doc[k]];
    forall key
      ensures HasKey(doc[..k + 1], key) <==> HasKey(doc[..k], key) || doc[k].key == key
    {
      CountAppend(doc[..k], [doc[k]], key);
      assert CountKey([doc[k]], key) == if doc[k].key == key then 1 else 0;
    }
  }

  method AppendDefaults(
    doc: Fields, coll: string, strEncodeVersion: nat, hasEsc: bool, hasEcoc: bool, hasFields: bool, hasVersion: bool)
    returns (out: Fields)
    ensures out == doc + EfDefaults(hasEsc, hasEcoc, hasFields, hasVersion, coll, strEncodeVersion)
  {
    out := doc;
    if !hasEsc {
      out := out + [Field("escCollection", Utf8("enxcol_." + coll + ".esc"))];
    }
    if !hasEcoc {
      out := out + [Field("ecocCollection", Utf8("enxcol_." + coll + ".ecoc"))];
    }
    if !hasFields {
      out := out + [Field("fields", Array([]))];
    }
    if !hasVersion && strEncodeVersion != 0 {
      out := out + [Field("strEncodeVersion", Int32(strEncodeVersion))];
    }
  }

  method AppendEncryptedFields(doc: Fields, coll: string, strEncodeVersion: nat, kb: KeyBroker)
    returns (r: Result<Fields>)
    ensures r == EfDocument(doc, coll, strEncodeVersion, kb)
  {
    var hasEsc, hasEcoc, hasFields, hasVersion := false, false, false, false;
    var out := [];
    var k := 0;
    assert doc[0..] == doc;
    while k < |doc|
      invariant 0 <= k <= |doc|
      invariant hasEsc <==> HasKey(doc[..k], "escCollection")
      invariant hasEcoc <==> HasKey(doc[..k], "ecocCollection")
      invariant hasFields <==> HasKey(doc[..k], "fields")
      invariant hasVersion <==> HasKey(doc[..k], "strEncodeVersion")
      invariant TranslateEf(doc, kb) == Prepend(out, TranslateEf(doc[k..], kb))
    {
      KeysNext(doc, k);
      assert doc[k..][0] == doc[k] && doc[k..][1..] == doc[k + 1..];
      var key := doc[k].key;
      hasEsc := hasEsc || key == "escCollection";
      hasEcoc := hasEcoc || key == "ecocCollection";
      hasFields := hasFields || key == "fields";
      hasVersion := hasVersion || key == "strEncodeVersion";
      var f := doc[k];
      if key == "fields" && f.value.Array? {
        var items := TranslateKeyAltNames(f.value.items, kb);
        if items.Err? {
          return Err;
        }
        f := Field("fields", Array(items.value));
      }
      PrependTwice(out, f, TranslateEf(doc[k + 1..], kb));
      out := out + [f];
      k := k + 1;
    }
    assert doc[..k] == doc;
    out := AppendDefaults(out, coll, strEncodeVersion, hasEsc, hasEcoc, hasFields, hasVersion);
    r := Ok(out);
  }

  // ----- the schemas of all collections

  /** Whether the entry is described by `encryptionInformation`: unless it only has a JSON schema. */
  predicate InEncryptionInformation(e: Entry) {
    e.encryptedFields.Some? || e.jsonSchema.None?
  }

  function EfOf(e: Entry, kb: KeyBroker): Result<Fields> {
    if e.encryptedFields.Some? then
      EfDocument(e.encryptedFields.value.doc, e.coll, e.encryptedFields.value.config.strEncodeVersion, kb)
    else EfDocument([], e.coll, 0, kb)
  }

  function EfSchemas(db: string, es: seq<Entry>, kb: KeyBroker): Result<Fields> {
    if es == [] then Ok([])
    else
      var rest := EfSchemas(db, es[1..], kb);
      if !InEncryptionInformation(es[0]) then rest
      else
        match EfOf(es[0], kb)
        case Ok(doc) => Prepend([Field(Ns(db, es[0].coll), Document(doc))], rest)
        case Err => Err
  }

  function EncryptionInformation(schemas: Fields): Field {
    Field("encryptionInformation", Document([Field("type", Int32(1)), Field("schema", Document(schemas))]))
  }

  method AppendEncryptionInformation(b: State, out: Fields, kb: KeyBroker) returns (r: Result<Fields>)
    requires AllSatisfied(b.entries)
    ensures r == match EfSchemas(DbName(b), b.entries, kb)
                 case Ok(schemas) => Ok(out + [EncryptionInformation(schemas)])
                 case Err => Err
  {
    var es, db := b.entries, DbName(b);
    var schemas := [];
    var k := 0;
    assert es[0..] == es;
    while k < |es|
      invariant 0 <= k <= |es|
      invariant EfSchemas(db, es, kb) == Prepend(schemas, EfSchemas(db, es[k..], kb))
    {
      assert es[k..][0] == es[k] && es[k..][1..] == es[k + 1..];
      if InEncryptionInformation(es[k]) {
        var doc: Fields, version := [], 0;
        if es[k].encryptedFields.Some? {
          doc, version := es[k].encryptedFields.value.doc, es[k].encryptedFields.value.config.strEncodeVersion;
        }
        var written := AppendEncryptedFields(doc, es[k].coll, version, kb);
        if written.Err? {
          return Err;
        }
        var f := Field(Ns(db, es[k].coll), Document(written.value));
        PrependTwice(schemas, f, EfSchemas(db, es[k + 1..], kb));
        schemas := schemas + [f];
      }
      k := k + 1;
    }
    r := Ok(out + [EncryptionInformation(schemas)]);
  }

  function CsfleDocument(schema: Fields, isRemote: bool): Fields {
    [Field("jsonSchema", Document(schema)), Field("isRemoteSchema", Bool(isRemote))]
  }

  /** The CSFLE description of an entry; an absent schema is an empty one. */
  function CsfleOf(e: Entry, emptyIsRemote: bool): Fields {
    if e.jsonSchema.Some? then CsfleDocument(e.jsonSchema.value.doc, e.jsonSchema.value.isRemote)
    else CsfleDocument([], emptyIsRemote)
  }

  predicate InCsfle(e: Entry, skipEmpty: bool) {
    e.encryptedFields.None? && (e.jsonSchema.Some? || !skipEmpty)
  }

  function CsfleSchemas(db: string, es: seq<Entry>, skipEmpty: bool): Fields {
    if es == [] then []
    else
      var rest := CsfleSchemas(db, es[1..], skipEmpty);
      if InCsfle(es[0], skipEmpty) then [Field(Ns(db, es[0].coll), Document(CsfleOf(es[0], false)))] + rest else rest
  }

  predicate AnyEf(es: seq<Entry>) {
    exists i :: 0 <= i < |es| && es[i].encryptedFields.Some?
  }

  predicate AnyJsonOnly(es: seq<Entry>) {
    exists i :: 0 <= i < |es| && es[i].encryptedFields.None? && es[i].jsonSchema.Some?
  }

  /** Adds the CSFLE schemas: at top level for a single collection, in one document for several. */
  function InsertCsfle(b: State, cmd: Fields, target: Target): Fields
    requires b.llLen == |b.entries|
  {
    if !QueryAnalysis(target) then cmd
    else if b.llLen == 1 then cmd + CsfleOf(b.entries[0], true)
    else cmd + [Field("csfleEncryptionSchemas", Document(CsfleSchemas(DbName(b), b.entries, AnyEf(b.entries))))]
  }

  method CollectCsfleSchemas(db: string, es: seq<Entry>, skipEmpty: bool) returns (schemas: Fields)
    ensures schemas == CsfleSchemas(db, es, skipEmpty)
  {
    schemas := [];
    var k := 0;
    assert es[0..] == es;
    while k < |es|
      invariant 0 <= k <= |es|
      invariant CsfleSchemas(db, es, skipEmpty) == schemas + CsfleSchemas(db, es[k..], skipEmpty)
    {
      assert es[k..][0] == es[k] && es[k..][1..] == es[k + 1..];
      if !(es[k].encryptedFields.Some? || (es[k].jsonSchema.None? && skipEmpty)) {
        schemas := schemas + [Field(Ns(db, es[k].coll), Document(CsfleOf(es[k], false)))];
      }
      k := k + 1;
    }
    assert schemas + [] == schemas;
  }

  method InsertCsfleEncryptionSchemas(b: State, cmd: Fields, target: Target) returns (out: Fields)
    requires b.llLen == |b.entries| && AllSatisfied(b.entries)
    ensures out == InsertCsfle(b, cmd, target)
  {
    if target != CryptShared && target != Mongocryptd {
      return cmd;
    }
    if b.llLen == 1 {
      var e := b.entries[0];
      return cmd + if e.jsonSchema.Some? then CsfleDocument(e.jsonSchema.value.doc, e.jsonSchema.value.isRemote)
                   else CsfleDocument([], true);
    }
    var skipEmpty := HasEncryptedFields(b.entries);
    var schemas := CollectCsfleSchemas(DbName(b), b.entries, skipEmpty);
    out := cmd + [Field("csfleEncryptionSchemas", Document(schemas))];
  }

  method HasEncryptedFields(es: seq<Entry>) returns (r: bool)
    ensures r <==> AnyEf(es)
  {
    var i := 0;
    while i < |es|
      invariant 0 <= i <= |es| && forall j :: 0 <= j < i ==> es[j].encryptedFields.None?
    {
      if es[i].encryptedFields.Some? {
        return true;
      }
      i := i + 1;
    }
    r := false;
  }

  // ----- where encryptionInformation goes

  /** The element `nsInfo.<index>`. */
  function NsInfoAt(cmd: Fields, index: nat, name: string): Option<Value> {
    match Find(cmd, "nsInfo")
    case Some(Array(items)) => if index < |items| then Some(items[index]) else None
    case Some(Document(fields)) => Find(fields, name)
    case _ => None
  }

  predicate IsBulkWrite(cmd: Fields) {
    cmd != [] && cmd[0].key == "bulkWrite"
  }

  predicate IsNestedExplain(cmd: Fields, target: Target) {
    cmd != [] && cmd[0].key == "explain" && (target == CryptShared || target == Server)
  }

  function InsertEi(b: State, cmd: Fields, target: Target, kb: KeyBroker): Result<Fields> {
    match EfSchemas(DbName(b), b.entries, kb)
    case Err => Err
    case Ok(schemas) =>
      var ei := EncryptionInformation(schemas);
      if IsBulkWrite(cmd) then
        var first := NsInfoAt(cmd, 0, "0");
        if first.None? || NsInfoAt(cmd, 1, "1").Some? || !first.value.Document?
           || Find(first.value.fields, "encryptionInformation").Some? then Err
        else Ok(Without(cmd, "nsInfo") + [Field("nsInfo", Array([Document(first.value.fields + [ei])]))])
      else if IsNestedExplain(cmd, target) then
        if !cmd[0].value.Document? then Err
        else Ok([Field("explain", Document(cmd[0].value.fields + [ei]))] + Without(cmd, "explain"))
      else Ok(cmd + [ei])
  }

  method InsertEncryptionInformation(b: State, cmd: Fields, target: Target, kb: KeyBroker) returns (r: Result<Fields>)
    requires cmd != [] && AllSatisfied(b.entries)
    ensures r == InsertEi(b, cmd, target, kb)
  {
    if IsBulkWrite(cmd) {
      var first := NsInfoAt(cmd, 0, "0");
      if first.None? || NsInfoAt(cmd, 1, "1").Some? || !first.value.Document? {
        return Err;
      }
      if Find(first.value.fields, "encryptionInformation").Some? {
        return Err;
      }
      var out := Without(cmd, "nsInfo");
      var nsInfo := AppendEncryptionInformation(b, first.value.fields, kb);
      if nsInfo.Err? {
        return Err;
      }
      return Ok(out + [Field("nsInfo", Array([Document(nsInfo.value)]))]);
    }
    if IsNestedExplain(cmd, target) {
      var inner := Find(cmd, "explain");
      if !inner.value.Document? {
        return Err;
      }
      var explain := AppendEncryptionInformation(b, inner.value.fields, kb);
      if explain.Err? {
        return Err;
      }
      return Ok([Field("explain", Document(explain.value))] + Without(cmd, "explain"));
    }
    r := AppendEncryptionInformation(b, cmd, kb);
  }

  // ----- the whole command

  /** Every parsed field that has no key id yet names a known key. */
  predicate KeysKnown(e: Entry, kb: KeyBroker) {
    e.encryptedFields.Some? ==>
      forall i :: 0 <= i < |e.encryptedFields.value.config.fields| ==>
        var f := e.encryptedFields.value.config.fields[i];
        f.keyAltName.Some? && f.keyId == [] ==> f.keyAltName.value in kb
  }

  function AddSchemas(b: State, cmd: Fields, target: Target, kb: KeyBroker): Result<Fields>
    requires b.llLen == |b.entries|
  {
    if cmd == [] || exists i :: 0 <= i < |b.entries| && !KeysKnown(b.entries[i], kb) then Err
    else if AnyEf(b.entries) && AnyJsonOnly(b.entries) then
      if !b.mixing then Err
      else match InsertEi(b, cmd, target, kb) case Ok(out) => Ok(InsertCsfle(b, out, target)) case Err => Err
    else if AnyEf(b.entries) || (!AnyJsonOnly(b.entries) && IsBulkWrite(cmd)) then InsertEi(b, cmd, target, kb)
    else Ok(InsertCsfle(b, cmd, target))
  }

  method AddSchemasToCmd(b: State, cmd: Fields, target: Target, kb: KeyBroker) returns (r: Result<Fields>)
    requires Inv(b) && AllSatisfied(b.entries)
    ensures r == AddSchemas(b, cmd, target, kb)
  {
    if cmd == [] {
      return Err;
    }
    var es := b.entries;
    var hasEf, hasJson := false, false;
    var i := 0;
    while i < |es|
      invariant 0 <= i <= |es|
      invariant forall j :: 0 <= j < i ==> KeysKnown(es[j], kb)
      invariant hasEf <==> exists j :: 0 <= j < i && es[j].encryptedFields.Some?
      invariant hasJson <==> exists j :: 0 <= j < i && es[j].encryptedFields.None? && es[j].jsonSchema.Some?
    {
      if es[i].encryptedFields.Some? {
        hasEf := true;
        var fields := es[i].encryptedFields.value.config.fields;
        var k := 0;
        while k < |fields|
          invariant 0 <= k <= |fields|
          invariant forall j :: 0 <= j < k ==>
                      (fields[j].keyAltName.Some? && fields[j].keyId == [] ==> fields[j].keyAltName.value in kb)
        {
          if fields[k].keyAltName.Some? && fields[k].keyId == [] && fields[k].keyAltName.value !in kb {
            assert !KeysKnown(es[i], kb);
            return Err;
          }
          k := k + 1;
        }
      } else if es[i].jsonSchema.Some? {
        hasJson := true;
      }
      i := i + 1;
    }
    if hasEf && hasJson {
      if !b.mixing {
        return Err;
      }
      r := InsertEncryptionInformation(b, cmd, target, kb);
      if r.Ok? {
        var out := InsertCsfleEncryptionSchemas(b, r.value, target);
        r := Ok(out);
      }
    } else if hasEf || (!hasJson && IsBulkWrite(cmd)) {
      r := InsertEncryptionInformation(b, cmd, target, kb);
    } else {
      var out := InsertCsfleEncryptionSchemas(b, cmd, target);
      r := Ok(out);
    }
  }

  // ----- what a reader of the command finds

  /** Where a reader looks for `encryptionInformation`: in the first namespace of a bulkWrite, inside an
      explain for the shared library or the server, otherwise at top level. */
  function Host(cmd: Fields, target: Target): Fields {
    if IsBulkWrite(cmd) then
      var first := NsInfoAt(cmd, 0, "0");
      if first.Some? && first.value.Document? then first.value.fields else []
    else if IsNestedExplain(cmd, target) then
      if cmd[0].value.Document? then cmd[0].value.fields else []
    else cmd
  }

  function DocFields(v: Value): Fields {
    if v.Document? then v.fields else []
  }

  /** The schemas inside one field of a command, by namespace. */
  function SchemasIn(f: Field): Fields {
    if f.key == "encryptionInformation" then
      var schema := Find(DocFields(f.value), "schema");
      if schema.Some? then DocFields(schema.value) else []
    else if f.key == "csfleEncryptionSchemas" then DocFields(f.value)
    else []
  }

  /** How often the fields with this key describe a namespace. */
  function Mentions(fields: Fields, key: string, ns: string): nat {
    if fields == [] then 0
    else (if fields[0].key == key then CountKey(SchemasIn(fields[0]), ns) else 0) + Mentions(fields[1..], key, ns)
  }

  /** How often a command describes a namespace; `jsonSchema` describes the only collection. */
  function Descriptions(b: State, cmd: Fields, target: Target, ns: string): nat {
    Mentions(Host(cmd, target), "encryptionInformation", ns)
    + Mentions(cmd, "csfleEncryptionSchemas", ns)
    + if |b.entries| == 1 && Ns(DbName(b), b.entries[0].coll) == ns then CountKey(cmd, "jsonSchema") else 0
  }

  lemma {:induction false} MentionsAppend(a: Fields, b: Fields, key: string, ns: string)
    ensures Mentions(a + b, key, ns) == Mentions(a, key, ns) + Mentions(b, key, ns)
  {
    if a == [] {
      assert a + b == b;
    } else {
      assert (a + b)[1..] == a[1..] + b;
      MentionsAppend(a[1..], b, key, ns);
    }
  }

  lemma {:induction false} MentionsWithout(fields: Fields, dropped: string, key: string, ns: string)
    requires dropped != key
    ensures Mentions(Without(fields, dropped), key, ns) == Mentions(fields, key, ns)
    ensures CountKey(Without(fields, dropped), key) == CountKey(fields, key)
    ensures CountKey(Without(fields, dropped), dropped) == 0
  {
    if fields != [] {
      MentionsWithout(fields[1..], dropped, key, ns);
      var rest := Without(fields[1..], dropped);
      if fields[0].key != dropped {
        assert ([fields[0]] + rest)[1..] == rest;
      } else {
        assert [] + rest == rest;
      }
    }
  }

  lemma MentionsOne(f: Field, key: string, ns: string)
    ensures Mentions([f], key, ns) == if f.key == key then CountKey(SchemasIn(f), ns) else 0
    ensures CountKey([f], key) == if f.key == key then 1 else 0
  {
  }

  /** Names in one database have distinct namespaces. */
  lemma NsInjective(db: string, a: string, b: string)
    requires Ns(db, a) == Ns(db, b)
    ensures a == b
  {
    var n := |db| + 1;
    assert Ns(db, a)[n..] == a && Ns(db, b)[n..] == b;
  }

  // ----- which entries the two kinds of schema mention

  lemma EiSchemas(schemas: Fields, ns: string)
    ensures SchemasIn(EncryptionInformation(schemas)) == schemas
  {
    FindAt(EncryptionInformation(schemas).value.fields, "schema", 1);
  }

  lemma {:induction false} EfSchemasSkip(db: string, es: seq<Entry>, kb: KeyBroker, ns: string)
    requires EfSchemas(db, es, kb).Ok?
    requires forall i :: 0 <= i < |es| ==> Ns(db, es[i].coll) != ns
    ensures CountKey(EfSchemas(db, es, kb).value, ns) == 0
  {
    if es != [] {
      EfSchemasSkip(db, es[1..], kb, ns);
    }
  }

  lemma OthersDiffer(db: string, es: seq<Entry>)
    requires NamesDistinct(es) && es != []
    ensures forall j :: 0 <= j < |es| - 1 ==> Ns(db, es[1..][j].coll) != Ns(db, es[0].coll)
    ensures NamesDistinct(es[1..])
  {
    forall j | 0 <= j < |es| - 1
      ensures Ns(db, es[1..][j].coll) != Ns(db, es[0].coll)
    {
      if Ns(db, es[1..][j].coll) == Ns(db, es[0].coll) {
        NsInjective(db, es[j + 1].coll, es[0].coll);
      }
    }
  }

  /** `encryptionInformation` mentions an entry once or not at all, with the entry's own document. */
  lemma {:induction false} EfSchemasMention(db: string, es: seq<Entry>, kb: KeyBroker, i: nat)
    requires NamesDistinct(es) && i < |es| && EfSchemas(db, es, kb).Ok?
    ensures var schemas, ns := EfSchemas(db, es, kb).value, Ns(db, es[i].coll);
            if InEncryptionInformation(es[i]) then
              && CountKey(schemas, ns) == 1 && EfOf(es[i], kb).Ok?
              && Find(schemas, ns) == Some(Document(EfOf(es[i], kb).value))
            else CountKey(schemas, ns) == 0
  {
    OthersDiffer(db, es);
    var rest := EfSchemas(db, es[1..], kb).value;
    var ns := Ns(db, es[i].coll);
    if InEncryptionInformation(es[0]) {
      var f := Field(Ns(db, es[0].coll), Document(EfOf(es[0], kb).value));
      assert EfSchemas(db, es, kb).value == [f] + rest && ([f] + rest)[1..] == rest;
    }
    if i == 0 {
      EfSchemasSkip(db, es[1..], kb, ns);
    } else {
      assert es[1..][i - 1] == es[i];
      EfSchemasMention(db, es[1..], kb, i - 1);
    }
  }

  lemma {:induction false} CsfleSchemasSkip(db: string, es: seq<Entry>, skipEmpty: bool, ns: string)
    requires forall i :: 0 <= i < |es| ==> Ns(db, es[i].coll) != ns
    ensures CountKey(CsfleSchemas(db, es, skipEmpty), ns) == 0
  {
    if es != [] {
      CsfleSchemasSkip(db, es[1..], skipEmpty, ns);
    }
  }

  /** `csfleEncryptionSchemas` mentions an entry once or not at all, with the entry's own schema. */
  lemma {:induction false} CsfleSchemasMention(db: string, es: seq<Entry>, skipEmpty: bool, i: nat)
    requires NamesDistinct(es) && i < |es|
    ensures var schemas, ns := CsfleSchemas(db, es, skipEmpty), Ns(db, es[i].coll);
            if InCsfle(es[i], skipEmpty) then
              CountKey(schemas, ns) == 1 && Find(schemas, ns) == Some(Document(CsfleOf(es[i], false)))
            else CountKey(schemas, ns) == 0
  {
    OthersDiffer(db, es);
    var rest := CsfleSchemas(db, es[1..], skipEmpty);
    var ns := Ns(db, es[i].coll);
    if InCsfle(es[0], skipEmpty) {
      var f := Field(Ns(db, es[0].coll), Document(CsfleOf(es[0], false)));
      assert CsfleSchemas(db, es, skipEmpty) == [f] + rest && ([f] + rest)[1..] == rest;
    }
    if i == 0 {
      CsfleSchemasSkip(db, es[1..], skipEmpty, ns);
    } else {
      assert es[1..][i - 1] == es[i];
      CsfleSchemasMention(db, es[1..], skipEmpty, i - 1);
    }
  }

  // ----- what the two insertions add

  lemma WithoutKeepsHead(cmd: Fields, key: string)
    requires cmd != [] && cmd[0].key != key
    ensures Without(cmd, key) != [] && Without(cmd, key)[0] == cmd[0]
  {
  }

  /** Inserting `encryptionInformation` adds exactly that field where the reader looks, and leaves the
      CSFLE fields as they are. */
  lemma InsertEiGrowsHost(b: State, cmd: Fields, target: Target, kb: KeyBroker, ns: string, key: string)
    requires cmd != [] && InsertEi(b, cmd, target, kb).Ok?
    requires key != "nsInfo" && key != "explain" && key != "encryptionInformation"
    ensures var out := InsertEi(b, cmd, target, kb).value;
            && EfSchemas(DbName(b), b.entries, kb).Ok?
            && var ei := EncryptionInformation(EfSchemas(DbName(b), b.entries, kb).value);
            && Host(out, target) == Host(cmd, target) + [ei]
            && Mentions(out, "csfleEncryptionSchemas", ns) == Mentions(cmd, "csfleEncryptionSchemas", ns)
            && CountKey(out, key) == CountKey(cmd, key)
  {
    var ei := EncryptionInformation(EfSchemas(DbName(b), b.entries, kb).value);
    var out := InsertEi(b, cmd, target, kb).value;
    if IsBulkWrite(cmd) {
      InsertEiBulkWrite(cmd, Field("nsInfo", Array([Document(Host(cmd, target) + [ei])])), ns, key);
    } else if IsNestedExplain(cmd, target) {
      InsertEiExplain(cmd, Field("explain", Document(cmd[0].value.fields + [ei])), ns, key);
    } else {
      MentionsAppend(cmd, [ei], "csfleEncryptionSchemas", ns);
      MentionsOne(ei, "csfleEncryptionSchemas", ns);
      MentionsOne(ei, key, ns);
      CountAppend(cmd, [ei], key);
    }
  }

  lemma InsertEiBulkWrite(cmd: Fields, nsInfo: Field, ns: string, key: string)
    requires IsBulkWrite(cmd) && nsInfo.key == "nsInfo" && key != "nsInfo"
    ensures var out := Without(cmd, "nsInfo") + [nsInfo];
            && IsBulkWrite(out) && Find(out, "nsInfo") == Some(nsInfo.value)
            && Mentions(out, "csfleEncryptionSchemas", ns) == Mentions(cmd, "csfleEncryptionSchemas", ns)
            && CountKey(out, key) == CountKey(cmd, key)
  {
    var kept := Without(cmd, "nsInfo");
    WithoutKeepsHead(cmd, "nsInfo");
    MentionsWithout(cmd, "nsInfo", "csfleEncryptionSchemas", ns);
    MentionsWithout(cmd, "nsInfo", key, ns);
    MentionsAppend(kept, [nsInfo], "csfleEncryptionSchemas", ns);
    MentionsOne(nsInfo, "csfleEncryptionSchemas", ns);
    MentionsOne(nsInfo, key, ns);
    CountAppend(kept, [nsInfo], key);
    FindFirst(kept, [nsInfo], "nsInfo");
  }

  lemma InsertEiExplain(cmd: Fields, explain: Field, ns: string, key: string)
    requires cmd != [] && explain.key == "explain" && key != "explain"
    ensures var out := [explain] + Without(cmd, "explain");
            && out[0] == explain
            && Mentions(out, "csfleEncryptionSchemas", ns) == Mentions(cmd, "csfleEncryptionSchemas", ns)
            && CountKey(out, key) == CountKey(cmd, key)
  {
    var kept := Without(cmd, "explain");
    MentionsWithout(cmd, "explain", "csfleEncryptionSchemas", ns);
    MentionsWithout(cmd, "explain", key, ns);
    MentionsAppend([explain], kept, "csfleEncryptionSchemas", ns);
    MentionsOne(explain, "csfleEncryptionSchemas", ns);
    MentionsOne(explain, key, ns);
    CountAppend([explain], kept, key);
  }

  /** Appending fields of other names at top level leaves what the reader finds for a namespace. */
  lemma AppendKeepsHost(cmd: Fields, extra: Fields, target: Target, ns: string)
    requires cmd != []
    requires CountKey(extra, "nsInfo") == 0 && Mentions(extra, "encryptionInformation", ns) == 0
    ensures Mentions(Host(cmd + extra, target), "encryptionInformation", ns)
         == Mentions(Host(cmd, target), "encryptionInformation", ns)
  {
    MentionsAppend(cmd, extra, "encryptionInformation", ns);
    FindFirst(cmd, extra, "nsInfo");
    FindCounts(cmd, "nsInfo");
    FindCounts(extra, "nsInfo");
  }

  lemma CsfleOfCounts(e: Entry, emptyIsRemote: bool, ns: string)
    ensures var extra := CsfleOf(e, emptyIsRemote);
            && CountKey(extra, "nsInfo") == 0 && CountKey(extra, "jsonSchema") == 1
            && Mentions(extra, "encryptionInformation", ns) == 0 && Mentions(extra, "csfleEncryptionSchemas", ns) == 0
  {
    var a, b := [CsfleOf(e, emptyIsRemote)[0]], [CsfleOf(e, emptyIsRemote)[1]];
    assert CsfleOf(e, emptyIsRemote) == a + b;
    CountAppend(a, b, "nsInfo");
    CountAppend(a, b, "jsonSchema");
    MentionsAppend(a, b, "encryptionInformation", ns);
    MentionsAppend(a, b, "csfleEncryptionSchemas", ns);
  }

  lemma InsertCsfleAdds(b: State, cmd: Fields, target: Target, ns: string)
    requires cmd != [] && b.llLen == |b.entries| && QueryAnalysis(target)
    ensures var out := InsertCsfle(b, cmd, target);
            && Mentions(Host(out, target), "encryptionInformation", ns)
            == Mentions(Host(cmd, target), "encryptionInformation", ns)
            && (if |b.entries| == 1 then
                  && Mentions(out, "csfleEncryptionSchemas", ns) == Mentions(cmd, "csfleEncryptionSchemas", ns)
                  && CountKey(out, "jsonSchema") == CountKey(cmd, "jsonSchema") + 1
                else
                  && Mentions(out, "csfleEncryptionSchemas", ns)
                  == Mentions(cmd, "csfleEncryptionSchemas", ns)
                   + CountKey(CsfleSchemas(DbName(b), b.entries, AnyEf(b.entries)), ns)
                  && CountKey(out, "jsonSchema") == CountKey(cmd, "jsonSchema"))
  {
    if |b.entries| == 1 {
      var extra := CsfleOf(b.entries[0], true);
      CsfleOfCounts(b.entries[0], true, ns);
      AppendKeepsHost(cmd, extra, target, ns);
      MentionsAppend(cmd, extra, "csfleEncryptionSchemas", ns);
      CountAppend(cmd, extra, "jsonSchema");
    } else {
      var f := Field("csfleEncryptionSchemas", Document(CsfleSchemas(DbName(b), b.entries, AnyEf(b.entries))));
      MentionsOne(f, "encryptionInformation", ns);
      MentionsOne(f, "nsInfo", ns);
      MentionsOne(f, "csfleEncryptionSchemas", ns);
      MentionsOne(f, "jsonSchema", ns);
      AppendKeepsHost(cmd, [f], target, ns);
      MentionsAppend(cmd, [f], "csfleEncryptionSchemas", ns);
      CountAppend(cmd, [f], "jsonSchema");
    }
  }

  // ----- every collection once

  lemma InsertEiDescribes(b: State, cmd: Fields, target: Target, kb: KeyBroker, i: nat)
    requires Inv(b) && i < |b.entries| && cmd != [] && InsertEi(b, cmd, target, kb).Ok?
    ensures var out, ns := InsertEi(b, cmd, target, kb).value, Ns(DbName(b), b.entries[i].coll);
            Descriptions(b, out, target, ns) ==
            Descriptions(b, cmd, target, ns) + if InEncryptionInformation(b.entries[i]) then 1 else 0
  {
    var ns := Ns(DbName(b), b.entries[i].coll);
    InsertEiGrowsHost(b, cmd, target, kb, ns, "jsonSchema");
    var schemas := EfSchemas(DbName(b), b.entries, kb).value;
    EfSchemasMention(DbName(b), b.entries, kb, i);
    EiSchemas(schemas, ns);
    MentionsAppend(Host(cmd, target), [EncryptionInformation(schemas)], "encryptionInformation", ns);
    MentionsOne(EncryptionInformation(schemas), "encryptionInformation", ns);
  }

  lemma InsertCsfleDescribes(b: State, cmd: Fields, target: Target, i: nat)
    requires Inv(b) && i < |b.entries| && cmd != [] && QueryAnalysis(target)
    ensures var ns := Ns(DbName(b), b.entries[i].coll);
            Descriptions(b, InsertCsfle(b, cmd, target), target, ns) ==
            Descriptions(b, cmd, target, ns) +
            if |b.entries| == 1 || InCsfle(b.entries[i], AnyEf(b.entries)) then 1 else 0
  {
    InsertCsfleAdds(b, cmd, target, Ns(DbName(b), b.entries[i].coll));
    CsfleSchemasMention(DbName(b), b.entries, AnyEf(b.entries), i);
  }

  lemma InsertEiNotEmpty(b: State, cmd: Fields, target: Target, kb: KeyBroker)
    requires cmd != [] && InsertEi(b, cmd, target, kb).Ok?
    ensures InsertEi(b, cmd, target, kb).value != []
  {
  }

  /** A command prepared for query analysis describes every requested collection exactly once more than
      it did before, over all the places where a schema can stand. */
  lemma DescribedExactlyOnce(b: State, cmd: Fields, target: Target, kb: KeyBroker, i: nat)
    requires Inv(b) && i < |b.entries| && QueryAnalysis(target)
    requires AddSchemas(b, cmd, target, kb).Ok?
    ensures var ns := Ns(DbName(b), b.entries[i].coll);
            Descriptions(b, AddSchemas(b, cmd, target, kb).value, target, ns) == Descriptions(b, cmd, target, ns) + 1
  {
    var es := b.entries;
    if AnyEf(es) && AnyJsonOnly(es) {
      var x :| 0 <= x < |es| && es[x].encryptedFields.Some?;
      var y :| 0 <= y < |es| && es[y].encryptedFields.None? && es[y].jsonSchema.Some?;
      InsertEiDescribes(b, cmd, target, kb, i);
      InsertEiNotEmpty(b, cmd, target, kb);
      InsertCsfleDescribes(b, InsertEi(b, cmd, target, kb).value, target, i);
    } else if AnyEf(es) || (!AnyJsonOnly(es) && IsBulkWrite(cmd)) {
      InsertEiDescribes(b, cmd, target, kb, i);
    } else {
      InsertCsfleDescribes(b, cmd, target, i);
    }
  }

  lemma InsertEiSkips(b: State, cmd: Fields, target: Target, kb: KeyBroker, ns: string)
    requires cmd != [] && InsertEi(b, cmd, target, kb).Ok?
    requires forall i :: 0 <= i < |b.entries| ==> Ns(DbName(b), b.entries[i].coll) != ns
    ensures Descriptions(b, InsertEi(b, cmd, target, kb).value, target, ns) == Descriptions(b, cmd, target, ns)
  {
    InsertEiGrowsHost(b, cmd, target, kb, ns, "jsonSchema");
    var schemas := EfSchemas(DbName(b), b.entries, kb).value;
    EfSchemasSkip(DbName(b), b.entries, kb, ns);
    EiSchemas(schemas, ns);
    MentionsAppend(Host(cmd, target), [EncryptionInformation(schemas)], "encryptionInformation", ns);
    MentionsOne(EncryptionInformation(schemas), "encryptionInformation", ns);
  }

  lemma InsertCsfleSkips(b: State, cmd: Fields, target: Target, ns: string)
    requires Inv(b) && cmd != [] && QueryAnalysis(target)
    requires forall i :: 0 <= i < |b.entries| ==> Ns(DbName(b), b.entries[i].coll) != ns
    ensures Descriptions(b, InsertCsfle(b, cmd, target), target, ns) == Descriptions(b, cmd, target, ns)
  {
    CsfleSchemasSkip(DbName(b), b.entries, AnyEf(b.entries), ns);
    InsertCsfleAdds(b, cmd, target, ns);
  }

  /** No other namespace gains a description. */
  lemma OthersNotDescribed(b: State, cmd: Fields, target: Target, kb: KeyBroker, ns: string)
    requires Inv(b) && QueryAnalysis(target) && AddSchemas(b, cmd, target, kb).Ok?
    requires forall i :: 0 <= i < |b.entries| ==> Ns(DbName(b), b.entries[i].coll) != ns
    ensures Descriptions(b, AddSchemas(b, cmd, target, kb).value, target, ns) == Descriptions(b, cmd, target, ns)
  {
    if AnyEf(b.entries) && AnyJsonOnly(b.entries) {
      InsertEiSkips(b, cmd, target, kb, ns);
      InsertEiNotEmpty(b, cmd, target, kb);
      InsertCsfleSkips(b, InsertEi(b, cmd, target, kb).value, target, ns);
    } else if AnyEf(b.entries) || (!AnyJsonOnly(b.entries) && IsBulkWrite(cmd)) {
      InsertEiSkips(b, cmd, target, kb, ns);
    } else {
      InsertCsfleSkips(b, cmd, target, ns);
    }
  }

  /** Over a whole run: a collection that was requested, in any successful run that ends with every entry
      satisfied, is described exactly once in a query-analysis command that held no schemas. */
  lemma RequestedDescribedOnce(
    calls: seq<Call>, parse: EfParser, coll: string, cmd: Fields, target: Target, kb: KeyBroker)
    requires Succeeds(calls, parse) && coll in Requested(calls)
    requires AllSatisfied(Run(calls, parse).entries) && QueryAnalysis(target)
    requires (RunInv(calls, parse); AddSchemas(Run(calls, parse), cmd, target, kb).Ok?)
    requires var b := Run(calls, parse); Descriptions(b, cmd, target, Ns(DbName(b), coll)) == 0
    ensures var b := Run(calls, parse);
            (RunInv(calls, parse);
             Descriptions(b, AddSchemas(b, cmd, target, kb).value, target, Ns(DbName(b), coll)) == 1)
  {
    var b := Run(calls, parse);
    RunInv(calls, parse);
    EntriesAreRequests(calls, parse);
    assert coll in Names(b.entries);
    var i :| 0 <= i < |b.entries| && b.entries[i].coll == coll;
    DescribedExactlyOnce(b, cmd, target, kb, i);
  }

  // ----- reading the schemas back

  datatype Schema = Qe(doc: Fields) | Csfle(doc: Fields, isRemote: bool)

  function ReadCsfle(fields: Fields): Option<Schema> {
    var schema, isRemote := Find(fields, "jsonSchema"), Find(fields, "isRemoteSchema");
    if schema.Some? && schema.value.Document? && isRemote.Some? && isRemote.value.Bool? then
      Some(Csfle(schema.value.fields, isRemote.value.b))
    else None
  }

  /** The schema a reader finds for a namespace: `encryptionInformation` first, then the CSFLE schemas by
      namespace, then the schema of the only collection. */
  function ReadSchema(b: State, cmd: Fields, target: Target, ns: string): Option<Schema> {
    var ei := Find(Host(cmd, target), "encryptionInformation");
    var qe := if ei.Some? then Find(SchemasIn(Field("encryptionInformation", ei.value)), ns) else None;
    if qe.Some? then if qe.value.Document? then Some(Qe(qe.value.fields)) else None
    else
      var csfle := Find(cmd, "csfleEncryptionSchemas");
      if csfle.Some? then
        var doc := Find(DocFields(csfle.value), ns);
        if doc.Some? then ReadCsfle(DocFields(doc.value)) else None
      else if |b.entries| == 1 && Ns(DbName(b), b.entries[0].coll) == ns then ReadCsfle(cmd)
      else None
  }

  /** The command carries no schema yet. */
  predicate NoSchemas(cmd: Fields, target: Target) {
    && CountKey(Host(cmd, target), "encryptionInformation") == 0
    && CountKey(cmd, "csfleEncryptionSchemas") == 0
    && CountKey(cmd, "jsonSchema") == 0 && CountKey(cmd, "isRemoteSchema") == 0
  }

  /** Whether the step writes `encryptionInformation`. */
  predicate UsesEi(b: State, cmd: Fields) {
    AnyEf(b.entries) || (!AnyJsonOnly(b.entries) && IsBulkWrite(cmd))
  }

  /** The broker's schema for an entry: its `encryptedFields` if it has them, else its JSON schema, else an
      empty schema of the kind the command uses. */
  function SchemaOf(b: State, cmd: Fields, e: Entry, kb: KeyBroker): Option<Schema> {
    if InEncryptionInformation(e) && UsesEi(b, cmd) then
      match EfOf(e, kb) case Ok(doc) => Some(Qe(doc)) case Err => None
    else if e.jsonSchema.Some? then Some(Csfle(e.jsonSchema.value.doc, e.jsonSchema.value.isRemote))
    else Some(Csfle([], |b.entries| == 1))
  }

  lemma CsfleReadsBack(prefix: Fields, e: Entry, emptyIsRemote: bool)
    requires CountKey(prefix, "jsonSchema") == 0 && CountKey(prefix, "isRemoteSchema") == 0
    ensures ReadCsfle(prefix + CsfleOf(e, emptyIsRemote)) ==
            Some(if e.jsonSchema.Some? then Csfle(e.jsonSchema.value.doc, e.jsonSchema.value.isRemote)
                 else Csfle([], emptyIsRemote))
  {
    var doc := CsfleOf(e, emptyIsRemote);
    FindFirst(prefix, doc, "jsonSchema");
    FindFirst(prefix, doc, "isRemoteSchema");
    FindAt(doc, "jsonSchema", 0);
    FindAt(doc, "isRemoteSchema", 1);
  }

  lemma AppendKeepsEi(cmd: Fields, extra: Fields, target: Target)
    requires cmd != []
    requires CountKey(extra, "nsInfo") == 0 && CountKey(extra, "encryptionInformation") == 0
    ensures Find(Host(cmd + extra, target), "encryptionInformation") == Find(Host(cmd, target), "encryptionInformation")
  {
    FindFirst(cmd, extra, "nsInfo");
    FindCounts(cmd, "nsInfo");
    FindCounts(extra, "nsInfo");
    FindFirst(cmd, extra, "encryptionInformation");
    FindCounts(cmd, "encryptionInformation");
    FindCounts(extra, "encryptionInformation");
  }

  /** What is read of the `encryptionInformation` just inserted. */
  lemma EiReadsBack(b: State, cmd: Fields, target: Target, kb: KeyBroker)
    requires cmd != [] && InsertEi(b, cmd, target, kb).Ok? && NoSchemas(cmd, target)
    ensures var out := InsertEi(b, cmd, target, kb).value;
            && EfSchemas(DbName(b), b.entries, kb).Ok?
            && Find(Host(out, target), "encryptionInformation") ==
               Some(EncryptionInformation(EfSchemas(DbName(b), b.entries, kb).value).value)
            && CountKey(out, "csfleEncryptionSchemas") == 0
  {
    InsertEiGrowsHost(b, cmd, target, kb, "", "csfleEncryptionSchemas");
    var ei := EncryptionInformation(EfSchemas(DbName(b), b.entries, kb).value);
    FindFirst(Host(cmd, target), [ei], "encryptionInformation");
  }

  /** What is read of the CSFLE schemas of several collections. */
  lemma CsfleSchemasReadBack(b: State, cmd: Fields, target: Target, i: nat)
    requires Inv(b) && i < |b.entries| && |b.entries| > 1 && cmd != [] && QueryAnalysis(target)
    requires CountKey(cmd, "csfleEncryptionSchemas") == 0 && InCsfle(b.entries[i], AnyEf(b.entries))
    ensures var out, e := InsertCsfle(b, cmd, target), b.entries[i];
            var csfle := Find(out, "csfleEncryptionSchemas");
            && Find(Host(out, target), "encryptionInformation") == Find(Host(cmd, target), "encryptionInformation")
            && csfle.Some?
            && var doc := Find(DocFields(csfle.value), Ns(DbName(b), e.coll));
            && doc.Some?
            && ReadCsfle(DocFields(doc.value)) ==
               Some(if e.jsonSchema.Some? then Csfle(e.jsonSchema.value.doc, e.jsonSchema.value.isRemote)
                    else Csfle([], false))
  {
    var e := b.entries[i];
    var f := Field("csfleEncryptionSchemas", Document(CsfleSchemas(DbName(b), b.entries, AnyEf(b.entries))));
    AppendKeepsEi(cmd, [f], target);
    FindFirst(cmd, [f], "csfleEncryptionSchemas");
    CsfleSchemasMention(DbName(b), b.entries, AnyEf(b.entries), i);
    CsfleReadsBack([], e, false);
    assert [] + CsfleOf(e, false) == CsfleOf(e, false);
  }

  lemma CsfleOnlyReadsBack(b: State, cmd: Fields, target: Target, kb: KeyBroker, i: nat)
    requires Inv(b) && i < |b.entries| && cmd != [] && QueryAnalysis(target)
    requires NoSchemas(cmd, target) && !UsesEi(b, cmd)
    ensures ReadSchema(b, InsertCsfle(b, cmd, target), target, Ns(DbName(b), b.entries[i].coll)) ==
            SchemaOf(b, cmd, b.entries[i], kb)
  {
    FindCounts(Host(cmd, target), "encryptionInformation");
    if |b.entries| == 1 {
      var extra := CsfleOf(b.entries[0], true);
      CsfleOfCounts(b.entries[0], true, "");
      CountEi(b.entries[0], true);
      AppendKeepsEi(cmd, extra, target);
      FindCounts(cmd + extra, "csfleEncryptionSchemas");
      CountAppend(cmd, extra, "csfleEncryptionSchemas");
      CsfleReadsBack(cmd, b.entries[0], true);
    } else {
      CsfleSchemasReadBack(b, cmd, target, i);
    }
  }

  lemma CountEi(e: Entry, emptyIsRemote: bool)
    ensures CountKey(CsfleOf(e, emptyIsRemote), "encryptionInformation") == 0
    ensures CountKey(CsfleOf(e, emptyIsRemote), "csfleEncryptionSchemas") == 0
  {
    var a, b := [CsfleOf(e, emptyIsRemote)[0]], [CsfleOf(e, emptyIsRemote)[1]];
    assert CsfleOf(e, emptyIsRemote) == a + b;
    CountAppend(a, b, "encryptionInformation");
    CountAppend(a, b, "csfleEncryptionSchemas");
  }

  lemma EiOnlyReadsBack(b: State, cmd: Fields, target: Target, kb: KeyBroker, i: nat)
    requires Inv(b) && i < |b.entries| && cmd != [] && InEncryptionInformation(b.entries[i])
    requires NoSchemas(cmd, target) && UsesEi(b, cmd) && InsertEi(b, cmd, target, kb).Ok?
    ensures ReadSchema(b, InsertEi(b, cmd, target, kb).value, target, Ns(DbName(b), b.entries[i].coll)) ==
            SchemaOf(b, cmd, b.entries[i], kb)
  {
    EiReadsBack(b, cmd, target, kb);
    EiSchemas(EfSchemas(DbName(b), b.entries, kb).value, "");
    EfSchemasMention(DbName(b), b.entries, kb, i);
  }

  lemma MixedReadsBack(b: State, cmd: Fields, target: Target, kb: KeyBroker, i: nat)
    requires Inv(b) && i < |b.entries| && |b.entries| > 1 && cmd != [] && QueryAnalysis(target)
    requires NoSchemas(cmd, target) && AnyEf(b.entries) && InsertEi(b, cmd, target, kb).Ok?
    ensures var out := InsertCsfle(b, InsertEi(b, cmd, target, kb).value, target);
            ReadSchema(b, out, target, Ns(DbName(b), b.entries[i].coll)) == SchemaOf(b, cmd, b.entries[i], kb)
  {
    var out, e, ns := InsertEi(b, cmd, target, kb).value, b.entries[i], Ns(DbName(b), b.entries[i].coll);
    var schemas := EfSchemas(DbName(b), b.entries, kb).value;
    InsertEiNotEmpty(b, cmd, target, kb);
    EiReadsBack(b, cmd, target, kb);
    EiSchemas(schemas, "");
    EfSchemasMention(DbName(b), b.entries, kb, i);
    FindCounts(schemas, ns);
    if InEncryptionInformation(e) {
      var f := Field("csfleEncryptionSchemas", Document(CsfleSchemas(DbName(b), b.entries, AnyEf(b.entries))));
      AppendKeepsEi(out, [f], target);
    } else {
      CsfleSchemasReadBack(b, out, target, i);
    }
  }

  /** From a command prepared for query analysis, a reader gets for every requested collection exactly the
      broker's schema for it. */
  lemma SchemasReadBack(b: State, cmd: Fields, target: Target, kb: KeyBroker, i: nat)
    requires Inv(b) && i < |b.entries| && QueryAnalysis(target)
    requires NoSchemas(cmd, target) && AddSchemas(b, cmd, target, kb).Ok?
    ensures ReadSchema(b, AddSchemas(b, cmd, target, kb).value, target, Ns(DbName(b), b.entries[i].coll)) ==
            SchemaOf(b, cmd, b.entries[i], kb)
  {
    var es := b.entries;
    if AnyEf(es) && AnyJsonOnly(es) {
      var x :| 0 <= x < |es| && es[x].encryptedFields.Some?;
      var y :| 0 <= y < |es| && es[y].encryptedFields.None? && es[y].jsonSchema.Some?;
      MixedReadsBack(b, cmd, target, kb, i);
    } else if UsesEi(b, cmd) {
      EiOnlyReadsBack(b, cmd, target, kb, i);
    } else {
      CsfleOnlyReadsBack(b, cmd, target, kb, i);
    }
  }

  /** Such a command describes nothing. */
  lemma NoSchemasNoDescriptions(b: State, cmd: Fields, target: Target, ns: string)
    requires NoSchemas(cmd, target)
    ensures Descriptions(b, cmd, target, ns) == 0
  {
    NotMentioned(Host(cmd, target), "encryptionInformation", ns);
    NotMentioned(cmd, "csfleEncryptionSchemas", ns);
  }

  lemma {:induction false} NotMentioned(fields: Fields, key: string, ns: string)
    requires CountKey(fields, key) == 0
    ensures Mentions(fields, key, ns) == 0
  {
    if fields != [] {
      NotMentioned(fields[1..], key, ns);
    }
  }

  // ----- translation of key names

  lemma TranslatedKeys(doc: Fields, kb: KeyBroker)
    requires TranslateField(doc, kb).Ok?
    ensures var out := TranslateField(doc, kb).value;
            && !HasKey(out, "keyAltName")
            && forall name :: Find(doc, "keyAltName") == Some(Utf8(name)) ==>
                 CString(name) in kb && HasKey(out, "keyId")
  {
    var out, kept := TranslateField(doc, kb).value, Without(doc, "keyAltName");
    MentionsWithout(doc, "keyAltName", "keyId", "");
    if out != kept {
      var last := [out[|kept|]];
      assert out == kept + last;
      CountAppend(kept, last, "keyAltName");
      CountAppend(kept, last, "keyId");
      MentionsOne(last[0], "keyAltName", "");
      MentionsOne(last[0], "keyId", "");
    }
  }

  /** Translating keeps the number of items, and no description of a field keeps an alternate name. */
  lemma {:induction false} NoAltNamesRemain(items: seq<Value>, kb: KeyBroker, i: nat)
    requires i < |items| && TranslateItems(items, kb).Ok?
    ensures var out := TranslateItems(items, kb).value;
            && |out| == |items|
            && (if items[i].Document? then
                  && out[i].Document? && !HasKey(out[i].fields, "keyAltName")
                  && (forall name :: Find(items[i].fields, "keyAltName") == Some(Utf8(name)) ==>
                        CString(name) in kb && HasKey(out[i].fields, "keyId"))
                else out[i] == items[i])
  {
    if i > 0 {
      NoAltNamesRemain(items[1..], kb, i - 1);
    } else {
      if |items| > 1 {
        NoAltNamesRemain(items[1..], kb, 0);
      } else {
        assert items[1..] == [];
      }
      if items[0].Document? {
        TranslatedKeys(items[0].fields, kb);
      }
    }
  }
}

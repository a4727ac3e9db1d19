/** What adding the schemas does to each field of a command and of an `encryptedFields` document, said by the
    values that stand under a key, and when the step is refused. */
module CommandFields {
  import opened Common
  import opened Bson
  import opened SchemaBroker
  import opened SchemaCommand

  /** The values under a key, in order. */
  function ValuesOf(fields: Fields, key: string): seq<Value> {
    if fields == [] then []
    else (if fields[0].key == key then [fields[0].value] else []) + ValuesOf(fields[1..], key)
  }

  lemma Associate(a: seq<Value>, b: seq<Value>, c: seq<Value>)
    ensures (a + b) + c == a + (b + c)
  {
  }

  lemma {:induction false} ValuesAppend(a: Fields, b: Fields, key: string)
    ensures ValuesOf(a + b, key) == ValuesOf(a, key) + ValuesOf(b, key)
  {
    if a == [] {
      assert a + b == b;
    } else {
      assert (a + b)[1..] == a[1..] + b;
      ValuesAppend(a[1..], b, key);
      Associate(if a[0].key == key then [a[0].value] else [], ValuesOf(a[1..], key), ValuesOf(b, key));
    }
  }

  lemma ValuesOne(f: Field, key: string)
    ensures ValuesOf([f], key) == if f.key == key then [f.value] else []
  {
    assert [f][1..] == [];
  }

  /** Leaving out one key keeps the values of every other. */
  lemma {:induction false} ValuesWithout(fields: Fields, dropped: string, key: string)
    ensures ValuesOf(Without(fields, dropped), key) == if key == dropped then [] else ValuesOf(fields, key)
  {
    if fields != [] {
      ValuesWithout(fields[1..], dropped, key);
      var kept := if fields[0].key == dropped then [] else [fields[0]];
      ValuesAppend(kept, Without(fields[1..], dropped), key);
      ValuesOne(fields[0], key);
    }
  }

  /** The first of them is what a reader finds. */
  lemma {:induction false} FindIsFirst(fields: Fields, key: string)
    ensures Find(fields, key) == if ValuesOf(fields, key) == [] then None else Some(ValuesOf(fields, key)[0])
    ensures CountKey(fields, key) == |ValuesOf(fields, key)|
  {
    if fields != [] {
      FindIsFirst(fields[1..], key);
    }
  }

  // ----- names of keys

  /** The description of a field names a key by this alternate name. */
  ghost predicate NamesKey(doc: Fields, name: string) {
    exists text :: Find(doc, "keyAltName") == Some(Utf8(text)) && CString(text) == name
  }

  /** A description is refused exactly when it names an unknown key; otherwise the alternate name goes, the id
      of the named key comes last under `keyId`, and everything else stays. */
  lemma TranslatedField(doc: Fields, kb: KeyBroker, key: string)
    ensures TranslateField(doc, kb).Err? <==> exists name :: NamesKey(doc, name) && name !in kb
    ensures TranslateField(doc, kb).Ok? ==>
              var out := ValuesOf(TranslateField(doc, kb).value, key);
              && (key == "keyAltName" ==> out == [])
              && (key != "keyAltName" && key != "keyId" ==> out == ValuesOf(doc, key))
              && (key == "keyId" && (forall name :: !NamesKey(doc, name)) ==> out == ValuesOf(doc, key))
              && (key == "keyId" ==>
                    forall name :: NamesKey(doc, name) ==>
                      name in kb && out == ValuesOf(doc, key) + [Binary(kb[name])])
  {
    var kept := Without(doc, "keyAltName");
    ValuesWithout(doc, "keyAltName", key);
    var name := Find(doc, "keyAltName");
    if name.Some? && name.value.Utf8? {
      assert NamesKey(doc, CString(name.value.text));
      if CString(name.value.text) in kb {
        var f := Field("keyId", Binary(kb[CString(name.value.text)]));
        ValuesAppend(kept, [f], key);
        ValuesOne(f, key);
      }
    }
  }

  /** The items of a list are translated one by one. */
  lemma {:induction false} TranslatedItem(items: seq<Value>, kb: KeyBroker, i: nat)
    requires i < |items| && TranslateItems(items, kb).Ok?
    ensures var out := TranslateItems(items, kb).value;
            && |out| == |items|
            && if items[i].Document? then
                 TranslateField(items[i].fields, kb).Ok? &&
                 out[i] == Document(TranslateField(items[i].fields, kb).value)
               else out[i] == items[i]
  {
    if |items| > 1 {
      TranslatedItem(items[1..], kb, if i > 0 then i - 1 else 0);
    } else {
      assert items[1..] == [];
    }
  }

  /** The list is refused exactly when one of its descriptions is. */
  lemma {:induction false} ItemsRefusedIff(items: seq<Value>, kb: KeyBroker)
    ensures TranslateItems(items, kb).Err? <==>
            exists i :: 0 <= i < |items| && items[i].Document? && TranslateField(items[i].fields, kb).Err?
  {
    if items != [] {
      ItemsRefusedIff(items[1..], kb);
      assert forall i :: 1 <= i < |items| ==> items[i] == items[1..][i - 1];
      assert forall i :: 0 <= i < |items| - 1 ==> items[1..][i] == items[i + 1];
    }
  }

  // ----- an `encryptedFields` document

  /** A list of field descriptions becomes the translated list; any other value stays. */
  ghost predicate TranslatedValue(key: string, v: Value, out: Value, kb: KeyBroker) {
    if key == "fields" && v.Array? then out.Array? && TranslateItems(v.items, kb) == Ok(out.items) else out == v
  }

  ghost predicate TranslatedList(key: string, before: seq<Value>, after: seq<Value>, kb: KeyBroker) {
    |before| == |after| && forall k :: 0 <= k < |before| ==> TranslatedValue(key, before[k], after[k], kb)
  }

  lemma TranslatedConcat(key: string, a: seq<Value>, a': seq<Value>, b: seq<Value>, b': seq<Value>, kb: KeyBroker)
    requires TranslatedList(key, a, a', kb) && TranslatedList(key, b, b', kb)
    ensures TranslatedList(key, a + b, a' + b', kb)
  {
  }

  lemma {:induction false} TranslatedValues(doc: Fields, kb: KeyBroker, key: string)
    requires TranslateEf(doc, kb).Ok?
    ensures var before, after := ValuesOf(doc, key), ValuesOf(TranslateEf(doc, kb).value, key);
            TranslatedList(key, before, after, kb)
  {
    if doc != [] {
      var f, rest := TranslateEntry(doc[0], kb).value, TranslateEf(doc[1..], kb).value;
      TranslatedValues(doc[1..], kb, key);
      ValuesAppend([f], rest, key);
      ValuesOne(f, key);
      TranslatedConcat(key, if f.key == key then [doc[0].value] else [], if f.key == key then [f.value] else [],
                       ValuesOf(doc[1..], key), ValuesOf(rest, key), kb);
    }
  }

  /** What the document gets if it has no value under the key. */
  function Default(key: string, coll: string, strEncodeVersion: nat): seq<Value> {
    if key == "escCollection" then [Utf8("enxcol_." + coll + ".esc")]
    else if key == "ecocCollection" then [Utf8("enxcol_." + coll + ".ecoc")]
    else if key == "fields" then [Array([])]
    else if key == "strEncodeVersion" && strEncodeVersion != 0 then [Int32(strEncodeVersion)]
    else []
  }

  /** A field that is appended unless it is skipped. */
  function OptionalField(skipped: bool, f: Field): Fields {
    if skipped then [] else [f]
  }

  lemma ValuesOptional(fields: Fields, skipped: bool, f: Field, key: string)
    ensures ValuesOf(fields + OptionalField(skipped, f), key)
         == ValuesOf(fields, key) + if skipped || f.key != key then [] else [f.value]
  {
    ValuesAppend(fields, OptionalField(skipped, f), key);
    ValuesOne(f, key);
  }

  /** Of four optional fields with different keys at most one has the key. */
  lemma FourOptional(p: bool, f: Field, q: bool, g: Field, r: bool, h: Field, t: bool, k: Field, key: string)
    requires f.key != g.key && f.key != h.key && f.key != k.key && g.key != h.key && g.key != k.key && h.key != k.key
    ensures var values :=
              ValuesOf(OptionalField(p, f) + OptionalField(q, g) + OptionalField(r, h) + OptionalField(t, k), key);
            && (key == f.key ==> values == if p then [] else [f.value])
            && (key == g.key ==> values == if q then [] else [g.value])
            && (key == h.key ==> values == if r then [] else [h.value])
            && (key == k.key ==> values == if t then [] else [k.value])
            && (key != f.key && key != g.key && key != h.key && key != k.key ==> values == [])
  {
    var a := OptionalField(p, f);
    var b := a + OptionalField(q, g);
    var c := b + OptionalField(r, h);
    assert [] + a == a;
    ValuesOptional([], p, f, key);
    ValuesOptional(a, q, g, key);
    ValuesOptional(b, r, h, key);
    ValuesOptional(c, t, k, key);
  }

  lemma DefaultValues(
    esc: bool, ecoc: bool, hasFields: bool, version: bool, coll: string, strEncodeVersion: nat, key: string)
    ensures ValuesOf(EfDefaults(esc, ecoc, hasFields, version, coll, strEncodeVersion), key) ==
            if (key == "escCollection" && esc) || (key == "ecocCollection" && ecoc)
               || (key == "fields" && hasFields) || (key == "strEncodeVersion" && version)
            then [] else Default(key, coll, strEncodeVersion)
  {
    var f := Field("escCollection", Utf8("enxcol_." + coll + ".esc"));
    var g := Field("ecocCollection", Utf8("enxcol_." + coll + ".ecoc"));
    var h, k := Field("fields", Array([])), Field("strEncodeVersion", Int32(strEncodeVersion));
    KeysDiffer();
    FourOptional(esc, f, ecoc, g, hasFields, h, version || strEncodeVersion == 0, k, key);
    assert EfDefaults(esc, ecoc, hasFields, version, coll, strEncodeVersion) ==
           OptionalField(esc, f) + OptionalField(ecoc, g) + OptionalField(hasFields, h)
           + OptionalField(version || strEncodeVersion == 0, k);
  }

  lemma KeysDiffer()
    ensures "escCollection" != "ecocCollection" && "escCollection" != "fields" && "escCollection" != "strEncodeVersion"
    ensures "ecocCollection" != "fields" && "ecocCollection" != "strEncodeVersion" && "fields" != "strEncodeVersion"
  {
    assert "escCollection"[1] == 's' && "ecocCollection"[1] == 'c';
    assert "escCollection"[0] == 'e' && "ecocCollection"[0] == 'e';
    assert "fields"[0] == 'f' && "strEncodeVersion"[0] == 's';
  }

  /** The defaults that are written for a document, by key. */
  lemma DefaultsFor(doc: Fields, coll: string, strEncodeVersion: nat, key: string)
    ensures var defaults := EfDefaults(HasKey(doc, "escCollection"), HasKey(doc, "ecocCollection"),
                                       HasKey(doc, "fields"), HasKey(doc, "strEncodeVersion"), coll, strEncodeVersion);
            ValuesOf(defaults, key) == if HasKey(doc, key) then [] else Default(key, coll, strEncodeVersion)
  {
    DefaultValues(HasKey(doc, "escCollection"), HasKey(doc, "ecocCollection"),
                  HasKey(doc, "fields"), HasKey(doc, "strEncodeVersion"), coll, strEncodeVersion, key);
  }

  /** The written document has the values of the given one under every key, translated, and the defaults
      under the keys that the given one lacks. */
  lemma WrittenValues(doc: Fields, coll: string, strEncodeVersion: nat, kb: KeyBroker, key: string)
    requires EfDocument(doc, coll, strEncodeVersion, kb).Ok?
    ensures var before := ValuesOf(doc, key);
            var after := ValuesOf(EfDocument(doc, coll, strEncodeVersion, kb).value, key);
            if before == [] then after == Default(key, coll, strEncodeVersion)
            else TranslatedList(key, before, after, kb)
  {
    var translated, written := TranslateEf(doc, kb).value, EfDocument(doc, coll, strEncodeVersion, kb).value;
    var before, after := ValuesOf(doc, key), ValuesOf(translated, key);
    var defaults := written[|translated|..];
    assert written == translated + defaults;
    TranslatedValues(doc, kb, key);
    ValuesAppend(translated, defaults, key);
    DefaultsFor(doc, coll, strEncodeVersion, key);
    FindIsFirst(doc, key);
    assert HasKey(doc, key) <==> before != [];
    assert if HasKey(doc, key) then after + [] == after else after == [];
  }

  /** For an entry this is its `encryptedFields` with its own version as the default, and nothing but the
      defaults if it has none. */
  lemma WrittenForEntry(e: Entry, kb: KeyBroker, key: string)
    requires EfOf(e, kb).Ok?
    ensures var after := ValuesOf(EfOf(e, kb).value, key);
            match e.encryptedFields
            case Some(ef) =>
              var before := ValuesOf(ef.doc, key);
              if before == [] then after == Default(key, e.coll, ef.config.strEncodeVersion)
              else TranslatedList(key, before, after, kb)
            case None => after == Default(key, e.coll, 0)
  {
    match e.encryptedFields {
      case Some(ef) => WrittenValues(ef.doc, e.coll, ef.config.strEncodeVersion, kb, key);
      case None => WrittenValues([], e.coll, 0, kb, key);
    }
  }

  /** The document is refused exactly when one of its lists of descriptions is. */
  lemma {:induction false} DocumentRefusedIff(doc: Fields, coll: string, strEncodeVersion: nat, kb: KeyBroker)
    ensures EfDocument(doc, coll, strEncodeVersion, kb).Err? <==>
            exists i :: 0 <= i < |doc| && doc[i].key == "fields" && doc[i].value.Array?
              && TranslateItems(doc[i].value.items, kb).Err?
  {
    if doc != [] {
      DocumentRefusedIff(doc[1..], coll, strEncodeVersion, kb);
      assert forall i :: 1 <= i < |doc| ==> doc[i] == doc[1..][i - 1];
      assert forall i :: 0 <= i < |doc| - 1 ==> doc[1..][i] == doc[i + 1];
    }
  }

  // ----- where `encryptionInformation` goes

  /** The command has one namespace, described by this document: as an array or as a document with index keys. */
  ghost predicate OneNamespace(cmd: Fields, first: Fields) {
    || Find(cmd, "nsInfo") == Some(Array([Document(first)]))
    || exists fs :: Find(cmd, "nsInfo") == Some(Document(fs)) && Find(fs, "0") == Some(Document(first))
         && Find(fs, "1").None?
  }

  /** A bulkWrite takes it in its only namespace, an explain for the shared library or the server inside the
      explained command, every other command at its end; and when it has no place. */
  lemma WhereEiGoes(b: State, cmd: Fields, target: Target, kb: KeyBroker, schemas: Fields, first: Fields)
    requires cmd != [] && EfSchemas(DbName(b), b.entries, kb) == Ok(schemas)
    ensures var r, ei := InsertEi(b, cmd, target, kb), EncryptionInformation(schemas);
            var name, v := cmd[0].key, cmd[0].value;
            if name == "bulkWrite" then
              && (OneNamespace(cmd, first) && CountKey(first, "encryptionInformation") == 0 ==>
                    r == Ok(Without(cmd, "nsInfo") + [Field("nsInfo", Array([Document(first + [ei])]))]))
              && (OneNamespace(cmd, first) && CountKey(first, "encryptionInformation") != 0 ==> r == Err)
              && ((forall f :: !OneNamespace(cmd, f)) ==> r == Err)
            else if name == "explain" && target != Mongocryptd then
              && (v == Document(first) ==>
                    r == Ok([Field("explain", Document(first + [ei]))] + Without(cmd, "explain")))
              && (!v.Document? ==> r == Err)
            else r == Ok(cmd + [ei])
  {
    FindCounts(first, "encryptionInformation");
    var place := NsInfoAt(cmd, 0, "0");
    if IsBulkWrite(cmd) && place.Some? && NsInfoAt(cmd, 1, "1").None? && place.value.Document? {
      OnlyNamespace(cmd, place.value.fields);
    }
  }

  lemma OnlyNamespace(cmd: Fields, first: Fields)
    requires NsInfoAt(cmd, 0, "0") == Some(Document(first)) && NsInfoAt(cmd, 1, "1").None?
    ensures OneNamespace(cmd, first)
  {
    var nsInfo := Find(cmd, "nsInfo").value;
    if nsInfo.Array? {
      assert nsInfo.items == [Document(first)];
    }
  }

  lemma EiTypeIsOne(schemas: Fields)
    ensures EncryptionInformation(schemas).key == "encryptionInformation"
    ensures ValuesOf(DocFields(EncryptionInformation(schemas).value), "type") == [Int32(1)]
    ensures ValuesOf(DocFields(EncryptionInformation(schemas).value), "schema") == [Document(schemas)]
  {
    ValuesOne(Field("type", Int32(1)), "type");
    ValuesOne(Field("type", Int32(1)), "schema");
    ValuesOne(Field("schema", Document(schemas)), "type");
    ValuesOne(Field("schema", Document(schemas)), "schema");
    var type1, schema := [Field("type", Int32(1))], [Field("schema", Document(schemas))];
    assert EncryptionInformation(schemas).value.fields == type1 + schema;
    ValuesAppend(type1, schema, "type");
    ValuesAppend(type1, schema, "schema");
  }

  // ----- the whole step

  /** An entry is of Queryable Encryption if it has `encryptedFields`, else of CSFLE if it has a JSON schema. */
  ghost predicate SomeQe(es: seq<Entry>) {
    exists e :: e in es && e.encryptedFields.Some?
  }

  ghost predicate SomeCsfle(es: seq<Entry>) {
    exists e :: e in es && e.encryptedFields.None? && e.jsonSchema.Some?
  }

  /** A parsed field of an entry names a key that is not known, and has no id yet. */
  ghost predicate SomeKeyUnknown(es: seq<Entry>, kb: KeyBroker) {
    exists e, f ::
      && e in es && e.encryptedFields.Some? && f in e.encryptedFields.value.config.fields
      && f.keyAltName.Some? && f.keyId == [] && f.keyAltName.value !in kb
  }

  lemma KindsAgree(es: seq<Entry>, kb: KeyBroker)
    ensures AnyEf(es) <==> SomeQe(es)
    ensures AnyJsonOnly(es) <==> SomeCsfle(es)
    ensures (exists i :: 0 <= i < |es| && !KeysKnown(es[i], kb)) <==> SomeKeyUnknown(es, kb)
  {
    if SomeKeyUnknown(es, kb) {
      var e, f :| e in es && e.encryptedFields.Some? && f in e.encryptedFields.value.config.fields
        && f.keyAltName.Some? && f.keyId == [] && f.keyAltName.value !in kb;
      var i :| 0 <= i < |es| && es[i] == e;
      assert !KeysKnown(es[i], kb);
    }
  }

  /** The step succeeds exactly for a command, with all keys known, without a mix of both kinds of schema
      unless that is supported, and with a place and translatable fields for `encryptionInformation` if it is
      written: for entries of Queryable Encryption, or for a bulkWrite without any schema. */
  lemma AddSchemasSucceedsIff(b: State, cmd: Fields, target: Target, kb: KeyBroker)
    requires Inv(b)
    ensures AddSchemas(b, cmd, target, kb).Ok? <==>
            && cmd != [] && !SomeKeyUnknown(b.entries, kb)
            && (SomeQe(b.entries) && SomeCsfle(b.entries) ==> b.mixing)
            && (SomeQe(b.entries) || (!SomeCsfle(b.entries) && cmd[0].key == "bulkWrite") ==>
                  InsertEi(b, cmd, target, kb).Ok?)
  {
    KindsAgree(b.entries, kb);
  }

  lemma InsertEiKeeps(b: State, cmd: Fields, target: Target, kb: KeyBroker, key: string)
    requires cmd != [] && InsertEi(b, cmd, target, kb).Ok?
    requires key != "nsInfo" && key != "explain" && key != "encryptionInformation"
    ensures var out := InsertEi(b, cmd, target, kb).value;
            out != [] && out[0].key == cmd[0].key && ValuesOf(out, key) == ValuesOf(cmd, key)
  {
    var schemas, first := EfSchemas(DbName(b), b.entries, kb).value, Host(cmd, target);
    var ei := EncryptionInformation(schemas);
    ValuesWithout(cmd, "nsInfo", key);
    ValuesWithout(cmd, "explain", key);
    if IsBulkWrite(cmd) {
      var f := Field("nsInfo", Array([Document(first + [ei])]));
      ValuesAppend(Without(cmd, "nsInfo"), [f], key);
      ValuesOne(f, key);
    } else if IsNestedExplain(cmd, target) {
      var f := Field("explain", Document(first + [ei]));
      ValuesAppend([f], Without(cmd, "explain"), key);
      ValuesOne(f, key);
    } else {
      ValuesAppend(cmd, [ei], key);
      ValuesOne(ei, key);
    }
  }

  lemma InsertCsfleKeeps(b: State, cmd: Fields, target: Target, key: string)
    requires Inv(b) && cmd != []
    requires key != "jsonSchema" && key != "isRemoteSchema" && key != "csfleEncryptionSchemas"
    ensures var out := InsertCsfle(b, cmd, target);
            out != [] && out[0].key == cmd[0].key && ValuesOf(out, key) == ValuesOf(cmd, key)
  {
    var out := InsertCsfle(b, cmd, target);
    var extra := out[|cmd|..];
    assert out == cmd + extra;
    assert forall i :: 0 <= i < |extra| ==> extra[i].key != key;
    ValuesAppend(cmd, extra, key);
    FindNothing(extra, key);
    FindIsFirst(extra, key);
  }

  /** The command is otherwise unchanged: its name, and the values under every key that the step does not
      write. */
  lemma OtherFieldsKept(b: State, cmd: Fields, target: Target, kb: KeyBroker, key: string)
    requires Inv(b) && AddSchemas(b, cmd, target, kb).Ok?
    requires key !in {"nsInfo", "explain", "encryptionInformation"}
    requires key !in {"jsonSchema", "isRemoteSchema", "csfleEncryptionSchemas"}
    ensures var out := AddSchemas(b, cmd, target, kb).value;
            out != [] && out[0].key == cmd[0].key && ValuesOf(out, key) == ValuesOf(cmd, key)
  {
    if AnyEf(b.entries) && AnyJsonOnly(b.entries) {
      InsertEiKeeps(b, cmd, target, kb, key);
      InsertCsfleKeeps(b, InsertEi(b, cmd, target, kb).value, target, key);
    } else if AnyEf(b.entries) || (!AnyJsonOnly(b.entries) && IsBulkWrite(cmd)) {
      InsertEiKeeps(b, cmd, target, kb, key);
    } else {
      InsertCsfleKeeps(b, cmd, target, key);
    }
  }

  /** For the server no CSFLE schema is written, and for it the command changes at most by
      `encryptionInformation`. */
  lemma ServerGetsNoCsfle(b: State, cmd: Fields, kb: KeyBroker)
    requires Inv(b) && AddSchemas(b, cmd, Server, kb).Ok?
    ensures AddSchemas(b, cmd, Server, kb) ==
            if SomeQe(b.entries) || (!SomeCsfle(b.entries) && cmd[0].key == "bulkWrite")
            then InsertEi(b, cmd, Server, kb) else Ok(cmd)
  {
    KindsAgree(b.entries, kb);
  }
}

/** Where the broker's schemas come from, said by the fields of the calls: what each call has for a
    collection, which calls succeed, and that the first call with something for a collection wins. */
module SchemaOrigin {
  import opened Common
  import opened Bson
  import opened SchemaBroker

  // ----- what a call gives, by the fields that it reads

  /** The value under the key `inner` of the document under the key `outer`. */
  ghost predicate Under(fields: Fields, outer: string, inner: string, v: Value) {
    exists sub :: Find(fields, outer) == Some(Document(sub)) && Find(sub, inner) == Some(v)
  }

  /** The validator has exactly one field `$jsonSchema`, and it is this document. */
  ghost predicate OnlySchema(validator: Fields, doc: Fields) {
    exists k :: 0 <= k < |validator| && validator[k] == Field("$jsonSchema", Document(doc))
      && forall j :: 0 <= j < |validator| && j != k ==> validator[j].key != "$jsonSchema"
  }

  ghost predicate NoSchema(validator: Fields) {
    forall j :: 0 <= j < |validator| ==> validator[j].key != "$jsonSchema"
  }

  /** The JSON schema in a result of listCollections, or its absence. */
  ghost predicate CollinfoSchema(info: Fields, schema: Option<JsonSchema>) {
    match schema
    case Some(s) =>
      s.isRemote && exists validator ::
        Under(info, "options", "validator", Document(validator)) && OnlySchema(validator, s.doc)
    case None =>
      forall validator :: Under(info, "options", "validator", Document(validator)) ==> NoSchema(validator)
  }

  /** The `encryptedFields` in a result of listCollections, or their absence. */
  ghost predicate CollinfoEf(info: Fields, parse: EfParser, ef: Option<EncryptedFields>) {
    match ef
    case Some(x) => Under(info, "options", "encryptedFields", Document(x.doc)) && parse(x.doc) == Some(x.config)
    case None => forall v :: !Under(info, "options", "encryptedFields", v)
  }

  ghost predicate SaysView(info: Fields) {
    exists text :: Find(info, "type") == Some(Utf8(text)) && CString(text) == "view"
  }

  /** What a call has for a collection. */
  datatype Given = Nothing | Schemas(jsonSchema: Option<JsonSchema>, encryptedFields: Option<EncryptedFields>)

  ghost predicate CollinfoGives(info: Fields, parse: EfParser, g: Given) {
    g.Schemas? && !SaysView(info) && CollinfoSchema(info, g.jsonSchema) && CollinfoEf(info, parse, g.encryptedFields)
  }

  /** A field with `encryptedFields` in it. */
  ghost predicate EfGives(found: Option<Value>, parse: EfParser, g: Given) {
    match g
    case Nothing => found.None?
    case Schemas(schema, ef) =>
      schema.None? && ef.Some? && found == Some(Document(ef.value.doc)) && parse(ef.value.doc) == Some(ef.value.config)
  }

  ghost predicate MapGives(found: Option<Value>, g: Given) {
    match g
    case Nothing => found.None?
    case Schemas(schema, ef) =>
      ef.None? && schema.Some? && !schema.value.isRemote && found == Some(Document(schema.value.doc))
  }

  ghost predicate CommandGives(cmd: Fields, parse: EfParser, g: Given)
    requires cmd != []
  {
    if exists v :: Under(cmd[1..], "validator", "$jsonSchema", v) then
      && g.Schemas? && g.encryptedFields.None? && g.jsonSchema.Some? && g.jsonSchema.value.isRemote
      && Under(cmd[1..], "validator", "$jsonSchema", Document(g.jsonSchema.value.doc))
    else EfGives(Find(cmd, "encryptedFields"), parse, g)
  }

  /** The field is a text that names the collection. */
  predicate NamesColl(v: Option<Value>, coll: string) {
    v == Some(Utf8(coll)) && '\0' !in coll
  }

  /** Whether a command creates or modifies a collection. */
  predicate DefinesColl(cmd: Fields) {
    cmd != [] && (cmd[0].key == "create" || cmd[0].key == "collMod")
  }

  /** What the call has for an unsatisfied entry; a call that has something malformed for it gives it neither
      something nor nothing. */
  ghost predicate Gives(db: string, call: Call, coll: string, parse: EfParser, g: Given) {
    match call
    case Satisfy(SchemaMap(schemas)) => MapGives(Find(schemas, db + "." + coll), g)
    case Satisfy(EncryptedFieldsMap(efs)) => EfGives(Find(efs, db + "." + coll), parse, g)
    case Satisfy(Cached(infos)) =>
      if db + "." + coll in infos then CollinfoGives(infos[db + "." + coll], parse, g) else g == Nothing
    case Satisfy(EmptySchemas) => g == Schemas(None, None)
    case Collinfo(info) =>
      if NamesColl(Find(info, "name"), coll) then CollinfoGives(info, parse, g) else g == Nothing
    case Command(cmd) =>
      if DefinesColl(cmd) && NamesColl(Some(cmd[0].value), coll) then CommandGives(cmd, parse, g) else g == Nothing
    case Request(_, _) => g == Nothing
    case SupportMixing => g == Nothing
  }

  /** The entry that holds what is given. */
  function Holding(coll: string, g: Given): Entry {
    match g
    case Nothing => Unanswered(coll)
    case Schemas(schema, ef) => Entry(coll, schema, ef, true)
  }

  lemma FindInIffUnder(fields: Fields, outer: string, inner: string)
    ensures forall v :: FindIn(fields, outer, inner) == Some(v) <==> Under(fields, outer, inner, v)
  {
  }

  /** The search of a validator, by its fields. */
  lemma ValidatorMeans(validator: Fields)
    ensures ValidatorSchema(validator) == (None, true) <==> NoSchema(validator)
    ensures forall doc :: ValidatorSchema(validator) == (Some(doc), true) <==> OnlySchema(validator, doc)
  {
    var key := "$jsonSchema";
    FindNothing(validator, key);
    forall doc
      ensures ValidatorSchema(validator) == (Some(doc), true) <==> OnlySchema(validator, doc)
    {
      if OnlySchema(validator, doc) {
        var k :| 0 <= k < |validator| && validator[k] == Field(key, Document(doc))
          && forall j :: 0 <= j < |validator| && j != k ==> validator[j].key != key;
        FindAt(validator, key, k);
        CountOne(validator, key, k);
      }
      if ValidatorSchema(validator) == (Some(doc), true) {
        var k := FoundIndex(validator, key);
        CountOne(validator, key, k);
      }
    }
  }

  lemma {:induction false} FoundIndex(fields: Fields, key: string) returns (k: nat)
    requires Find(fields, key).Some?
    ensures k < |fields| && fields[k] == Field(key, Find(fields, key).value)
  {
    if fields[0].key == key {
      return 0;
    }
    k := FoundIndex(fields[1..], key);
    k := k + 1;
  }

  /** A key that stands at k is counted once exactly when it stands nowhere else. */
  lemma CountOne(fields: Fields, key: string, k: nat)
    requires k < |fields| && fields[k].key == key
    ensures CountKey(fields, key) == 1 <==> forall j :: 0 <= j < |fields| && j != k ==> fields[j].key != key
  {
    var before, after := fields[..k], fields[k + 1..];
    assert fields == before + [fields[k]] + after;
    CountAppend(before + [fields[k]], after, key);
    CountAppend(before, [fields[k]], key);
    assert CountKey([fields[k]], key) == 1 + CountKey([], key);
    CountNothing(before, key);
    CountNothing(after, key);
    if CountKey(fields, key) == 1 {
      forall j | 0 <= j < |fields| && j != k
        ensures fields[j].key != key
      {
        assert fields[j] == if j < k then before[j] else after[j - k - 1];
      }
    }
  }

  lemma CountNothing(fields: Fields, key: string)
    ensures CountKey(fields, key) == 0 <==> forall j :: 0 <= j < |fields| ==> fields[j].key != key
  {
    FindCounts(fields, key);
    FindNothing(fields, key);
  }

  /** What a fresh entry takes from a result of listCollections, and when the result is refused. */
  lemma CollinfoMeans(coll: string, info: Fields, parse: EfParser, g: Given)
    ensures CollinfoGives(info, parse, g) ==> FromCollinfo(Unanswered(coll), info, parse) == (Holding(coll, g), true)
  {
    FindInIffUnder(info, "options", "encryptedFields");
    FindInIffUnder(info, "options", "validator");
    var validator := FindIn(info, "options", "validator");
    if validator.Some? && validator.value.Document? {
      ValidatorMeans(validator.value.fields);
    }
  }

  lemma CollinfoTaken(coll: string, info: Fields, parse: EfParser) returns (g: Given)
    requires FromCollinfo(Unanswered(coll), info, parse).1
    ensures CollinfoGives(info, parse, g)
  {
    var e := FromCollinfo(Unanswered(coll), info, parse).0;
    g := Schemas(e.jsonSchema, e.encryptedFields);
    FindInIffUnder(info, "options", "encryptedFields");
    FindInIffUnder(info, "options", "validator");
    var validator := FindIn(info, "options", "validator");
    if validator.Some? && validator.value.Document? {
      ValidatorMeans(validator.value.fields);
    }
  }

  /** What a call gives is what its fields say: something given satisfies a fresh entry with it, nothing
      given leaves it fresh. */
  lemma OfferMeans(db: string, call: Call, coll: string, parse: EfParser, g: Given)
    requires Gives(db, call, coll, parse, g)
    ensures Offer(db, call, Unanswered(coll), parse) == (Holding(coll, g), true)
  {
    match call {
      case Satisfy(Cached(infos)) =>
        if Ns(db, coll) in infos {
          CollinfoMeans(coll, infos[Ns(db, coll)], parse, g);
        }
      case Collinfo(info) => CollinfoMeans(coll, info, parse, g);
      case Command(cmd) => if cmd != [] { FindInIffUnder(cmd[1..], "validator", "$jsonSchema"); }
      case _ =>
    }
  }

  /** A call that is not refused gives something or nothing. */
  lemma OfferTaken(db: string, call: Call, coll: string, parse: EfParser) returns (g: Given)
    requires Offer(db, call, Unanswered(coll), parse).1
    ensures Gives(db, call, coll, parse, g)
  {
    var e := Offer(db, call, Unanswered(coll), parse).0;
    g := if e.satisfied then Schemas(e.jsonSchema, e.encryptedFields) else Nothing;
    match call {
      case Satisfy(Cached(infos)) =>
        if Ns(db, coll) in infos {
          g := CollinfoTaken(coll, infos[Ns(db, coll)], parse);
        }
      case Collinfo(info) =>
        if NamesColl(Find(info, "name"), coll) {
          g := CollinfoTaken(coll, info, parse);
        }
      case Command(cmd) => if cmd != [] { FindInIffUnder(cmd[1..], "validator", "$jsonSchema"); }
      case _ =>
    }
  }

  /** The first source that has a schema wins, by the fields: a satisfied entry holds what the n-th call has
      for its collection, and every earlier call since the request had nothing for it. */
  lemma FirstGiverWins(calls: seq<Call>, parse: EfParser, i: nat) returns (n: nat, g: Given)
    requires Succeeds(calls, parse) && i < |Run(calls, parse).entries| && Run(calls, parse).entries[i].satisfied
    ensures n < |calls| && i < |Run(calls[..n], parse).entries|
    ensures var b := Run(calls, parse);
            var db, coll := NameOfDb(b), b.entries[i].coll;
            && Gives(db, calls[n], coll, parse, g)
            && g.Schemas? && b.entries[i] == Entry(coll, g.jsonSchema, g.encryptedFields, true)
            && forall k: nat :: k < n && i < |Run(calls[..k], parse).entries| ==>
                 Gives(db, calls[k], coll, parse, Nothing)
  {
    var b := Run(calls, parse);
    var db, coll := NameOfDb(b), b.entries[i].coll;
    n := FirstOfferWins(calls, parse, i);
    g := OfferTaken(db, calls[n], coll, parse);
    OfferMeans(db, calls[n], coll, parse, g);
    forall k: nat | k < n && i < |Run(calls[..k], parse).entries|
      ensures Gives(db, calls[k], coll, parse, Nothing)
    {
      var nothing := OfferTaken(db, calls[k], coll, parse);
      OfferMeans(db, calls[k], coll, parse, nothing);
    }
  }

  /** An entry that is still unsatisfied was given nothing by any call since its request. */
  lemma UnsatisfiedGivenNothing(calls: seq<Call>, parse: EfParser, i: nat, k: nat)
    requires Succeeds(calls, parse) && i < |Run(calls, parse).entries| && !Run(calls, parse).entries[i].satisfied
    requires k < |calls| && i < |Run(calls[..k], parse).entries|
    ensures var b := Run(calls, parse);
            && b.entries[i] == Entry(b.entries[i].coll, None, None, false)
            && Gives(NameOfDb(b), calls[k], b.entries[i].coll, parse, Nothing)
  {
    var b := Run(calls, parse);
    UnsatisfiedWasOfferedNothing(calls, parse, i, k);
    var g := OfferTaken(NameOfDb(b), calls[k], b.entries[i].coll, parse);
    OfferMeans(NameOfDb(b), calls[k], b.entries[i].coll, parse, g);
  }

  /** The call has something or nothing for the collection, not something malformed. */
  ghost predicate WellFormedFor(db: string, call: Call, coll: string, parse: EfParser) {
    exists g :: Gives(db, call, coll, parse, g)
  }

  lemma TakenIffWellFormed(db: string, call: Call, e: Entry, parse: EfParser)
    requires e == Unanswered(e.coll)
    ensures Offer(db, call, e, parse).1 <==> WellFormedFor(db, call, e.coll, parse)
  {
    if Offer(db, call, e, parse).1 {
      var g := OfferTaken(db, call, e.coll, parse);
    }
    if g :| Gives(db, call, e.coll, parse, g) {
      OfferMeans(db, call, e.coll, parse, g);
    }
  }

  lemma {:induction false} AllTakenIff(db: string, source: Source, es: seq<Entry>, parse: EfParser)
    requires UnsatisfiedUnset(es)
    ensures FromSourceAll(db, source, es, parse).1 <==>
            forall i :: 0 <= i < |es| && !es[i].satisfied ==> WellFormedFor(db, Satisfy(source), es[i].coll, parse)
  {
    if es != [] {
      AllTakenIff(db, source, es[1..], parse);
      if !es[0].satisfied {
        TakenIffWellFormed(db, Satisfy(source), es[0], parse);
      }
      assert forall i :: 1 <= i < |es| ==> es[i] == es[1..][i - 1];
      assert forall i :: 0 <= i < |es| - 1 ==> es[1..][i] == es[i + 1];
    }
  }

  /** It names a collection, and is well formed for its entry if that is unsatisfied. */
  ghost predicate WellFormedCommand(b: State, cmd: Fields, parse: EfParser)
    requires cmd != []
  {
    exists coll ::
      && NamesColl(Some(cmd[0].value), coll)
      && forall i :: 0 <= i < |b.entries| && b.entries[i].coll == coll && !b.entries[i].satisfied ==>
           WellFormedFor(NameOfDb(b), Command(cmd), coll, parse)
  }

  /** Which calls succeed: a request for the one database; a result for an unsatisfied entry that is well
      formed; a source that is well formed for every unsatisfied entry; a well-formed command. */
  lemma NextSucceedsIff(b: State, call: Call, parse: EfParser)
    requires Inv(b)
    ensures Next(b, call, parse).1 <==>
            match call
            case Request(db, _) => b.db.None? || b.db.value == db
            case Collinfo(info) =>
              exists i :: 0 <= i < |b.entries| && !b.entries[i].satisfied
                && NamesColl(Find(info, "name"), b.entries[i].coll)
                && WellFormedFor(NameOfDb(b), call, b.entries[i].coll, parse)
            case Satisfy(_) =>
              forall i :: 0 <= i < |b.entries| && !b.entries[i].satisfied ==>
                WellFormedFor(NameOfDb(b), call, b.entries[i].coll, parse)
            case Command(cmd) =>
              cmd != [] && (DefinesColl(cmd) ==> WellFormedCommand(b, cmd, parse))
            case SupportMixing => true
  {
    match call {
      case Satisfy(source) => AllTakenIff(NameOfDb(b), source, b.entries, parse);
      case Collinfo(info) => CollinfoSucceedsIff(b, info, parse);
      case Command(cmd) => CommandSucceedsIff(b, cmd, parse);
      case _ =>
    }
  }

  lemma CollinfoSucceedsIff(b: State, info: Fields, parse: EfParser)
    requires Inv(b)
    ensures Next(b, Collinfo(info), parse).1 <==>
            exists i :: 0 <= i < |b.entries| && !b.entries[i].satisfied
              && NamesColl(Find(info, "name"), b.entries[i].coll)
              && WellFormedFor(NameOfDb(b), Collinfo(info), b.entries[i].coll, parse)
  {
    var name := CollName(Find(info, "name"));
    forall i | 0 <= i < |b.entries|
      ensures NamesColl(Find(info, "name"), b.entries[i].coll) <==>
              name.Some? && IndexOf(b.entries, name.value) == i
      ensures !b.entries[i].satisfied ==>
                (Offer(NameOfDb(b), Collinfo(info), b.entries[i], parse).1 <==>
                 WellFormedFor(NameOfDb(b), Collinfo(info), b.entries[i].coll, parse))
    {
      NamedEntry(b.entries, i, name);
      if !b.entries[i].satisfied {
        TakenIffWellFormed(NameOfDb(b), Collinfo(info), b.entries[i], parse);
      }
    }
  }

  lemma CommandSucceedsIff(b: State, cmd: Fields, parse: EfParser)
    requires Inv(b)
    ensures Next(b, Command(cmd), parse).1 <==>
            cmd != [] && (DefinesColl(cmd) ==> WellFormedCommand(b, cmd, parse))
  {
    if DefinesColl(cmd) && CollName(Some(cmd[0].value)).Some? {
      var coll := CollName(Some(cmd[0].value)).value;
      var i := IndexOf(b.entries, coll);
      assert NamesColl(Some(cmd[0].value), coll);
      if i < |b.entries| && !b.entries[i].satisfied {
        TakenIffWellFormed(NameOfDb(b), Command(cmd), b.entries[i], parse);
      }
    }
  }

  /** The k-th call of a run succeeds. */
  ghost predicate CallSucceeds(calls: seq<Call>, parse: EfParser, k: nat) {
    k < |calls| && Next(Run(calls[..k], parse), calls[k], parse).1
  }

  lemma SucceedsBefore(calls: seq<Call>, parse: EfParser, n: nat, k: nat)
    requires k < n <= |calls|
    ensures CallSucceeds(calls[..n], parse, k) <==> CallSucceeds(calls, parse, k)
  {
    assert calls[..n][..k] == calls[..k] && calls[..n][k] == calls[k];
  }

  /** A run succeeds exactly when each of its calls does. */
  lemma {:induction false} RunSucceedsIff(calls: seq<Call>, parse: EfParser)
    ensures Succeeds(calls, parse) <==> forall k: nat :: k < |calls| ==> CallSucceeds(calls, parse, k)
  {
    if calls != [] {
      var n := |calls| - 1;
      RunSucceedsIff(calls[..n], parse);
      forall k: nat | k < n
        ensures CallSucceeds(calls[..n], parse, k) <==> CallSucceeds(calls, parse, k)
      {
        SucceedsBefore(calls, parse, n, k);
      }
      LastCall(calls, parse);
    }
  }

  lemma LastCall(calls: seq<Call>, parse: EfParser)
    requires calls != []
    ensures var n := |calls| - 1;
            Succeeds(calls, parse) <==> Succeeds(calls[..n], parse) && CallSucceeds(calls, parse, n)
  {
  }

  /** Mixing of schemas is supported exactly when some call asked for it. */
  lemma {:induction false} MixingWasAskedFor(calls: seq<Call>, parse: EfParser)
    ensures Run(calls, parse).mixing <==> SupportMixing in calls
  {
    if calls != [] {
      var n := |calls| - 1;
      MixingWasAskedFor(calls[..n], parse);
      MixingStep(Run(calls[..n], parse), calls[n], parse);
      assert calls == calls[..n] + [calls[n]];
    }
  }

  lemma MixingStep(b: State, call: Call, parse: EfParser)
    ensures Next(b, call, parse).0.mixing <==> b.mixing || call == SupportMixing
  {
  }

  /** All requests of a successful run are for one database, which is the broker's. */
  lemma {:induction false} OneDatabase(calls: seq<Call>, parse: EfParser, k: nat)
    requires Succeeds(calls, parse) && k < |calls| && calls[k].Request?
    ensures Run(calls, parse).db == Some(calls[k].db)
  {
    var n := |calls| - 1;
    var front := calls[..n];
    DbOfLastCall(calls, parse);
    if k < n {
      assert front[k] == calls[k];
      OneDatabase(front, parse, k);
    }
  }

  lemma DbOfLastCall(calls: seq<Call>, parse: EfParser)
    requires Succeeds(calls, parse) && calls != []
    ensures var front, last := calls[..|calls| - 1], calls[|calls| - 1];
            && Succeeds(front, parse)
            && Run(calls, parse).db == (if last.Request? then Some(last.db) else Run(front, parse).db)
            && (last.Request? && Run(front, parse).db.Some? ==> Run(front, parse).db == Some(last.db))
  {
    RunInv(calls[..|calls| - 1], parse);
    DbStep(Run(calls[..|calls| - 1], parse), calls[|calls| - 1], parse);
  }

  lemma DbStep(b: State, call: Call, parse: EfParser)
    requires Inv(b) && Next(b, call, parse).1
    ensures Next(b, call, parse).0.db == if call.Request? then Some(call.db) else b.db
    ensures call.Request? && b.db.Some? ==> b.db == Some(call.db)
  {
    if !call.Request? {
      NextSteps(b, call, parse);
    }
  }
}

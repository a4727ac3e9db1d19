/** The schema broker: a list of requested collections, each satisfied at most once, by the first source
    that has a schema for it. */
module SchemaBroker {
  import opened Common
  import opened Bson

  type Fields = seq<Field>

  datatype EncryptedField = EncryptedField(keyAltName: Option<string>, keyId: bytes)

  datatype EfConfig = EfConfig(fields: seq<EncryptedField>, strEncodeVersion: nat)

  /** The parser of `encryptedFields` documents; None is a refusal. */
  type EfParser = Fields -> Option<EfConfig>

  datatype JsonSchema = JsonSchema(doc: Fields, isRemote: bool)

  datatype EncryptedFields = EncryptedFields(doc: Fields, config: EfConfig)

  datatype Entry = Entry(
    coll: string, jsonSchema: Option<JsonSchema>, encryptedFields: Option<EncryptedFields>, satisfied: bool)

  datatype State = State(db: Option<string>, entries: seq<Entry>, llLen: nat, mixing: bool)

  function Ns(db: string, coll: string): string {
    db + "." + coll
  }

  /** The value at a path of two keys. */
  function FindIn(fields: Fields, outer: string, inner: string): Option<Value> {
    match Find(fields, outer)
    case Some(Document(sub)) => Find(sub, inner)
    case _ => None
  }

  function CountKey(fields: Fields, key: string): nat {
    if fields == [] then 0 else (if fields[0].key == key then 1 else 0) + CountKey(fields[1..], key)
  }

  // ----- one entry

  function SetSchema(e: Entry, doc: Fields, isRemote: bool): Entry {
    e.(jsonSchema := Some(JsonSchema(doc, isRemote)))
  }

  function SetEf(e: Entry, doc: Fields, config: EfConfig): Entry {
    e.(encryptedFields := Some(EncryptedFields(doc, config)))
  }

  /** A schema found in a validator is a remote one. */
  function WithFound(e: Entry, found: Option<Fields>): Entry {
    if found.Some? then SetSchema(e, found.value, true) else e
  }

  /** The `$jsonSchema` of a validator: refused if it occurs twice or is not a document. The first part is
      the schema stored by then. */
  function ValidatorSchema(validator: Fields): (Option<Fields>, bool) {
    match Find(validator, "$jsonSchema")
    case None => (None, true)
    case Some(Document(doc)) => (Some(doc), CountKey(validator, "$jsonSchema") == 1)
    case _ => (None, false)
  }

  /** `encryptedFields` from a collection's options. */
  function TakeOptionsEf(e: Entry, info: Fields, parse: EfParser): (Entry, bool) {
    match FindIn(info, "options", "encryptedFields")
    case None => (e, true)
    case Some(Document(doc)) =>
      (match parse(doc)
       case Some(config) => (SetEf(e, doc, config), true)
       case None => (e, false))
    case _ => (e, false)
  }

  /** `$jsonSchema` from a collection's validator. */
  function TakeOptionsSchema(e: Entry, info: Fields): (Entry, bool) {
    match FindIn(info, "options", "validator")
    case Some(Document(validator)) =>
      var found := ValidatorSchema(validator);
      (WithFound(e, found.0), found.1)
    case _ => (e, true)
  }

  predicate IsView(info: Fields) {
    var t := Find(info, "type");
    t.Some? && t.value.Utf8? && CString(t.value.text) == "view"
  }

  function FromCollinfo(e: Entry, info: Fields, parse: EfParser): (Entry, bool) {
    if e.satisfied || IsView(info) then (e, false)
    else
      var (e1, ok1) := TakeOptionsEf(e, info, parse);
      if !ok1 then (e1, false)
      else
        var (e2, ok2) := TakeOptionsSchema(e1, info);
        if ok2 then (e2.(satisfied := true), true) else (e2, false)
  }

  function WithEf(e: Entry, v: Value, parse: EfParser): (Entry, bool) {
    if !v.Document? then (e, false)
    else
      match parse(v.fields)
      case Some(config) => (SetEf(e, v.fields, config).(satisfied := true), true)
      case None => (e, false)
  }

  function WithSchema(e: Entry, v: Value, isRemote: bool): (Entry, bool) {
    if v.Document? then (SetSchema(e, v.fields, isRemote).(satisfied := true), true)
    else (e, false)
  }

  /** The schema that a create or collMod command gives its own collection. */
  function FromCommand(e: Entry, cmd: Fields, parse: EfParser): (Entry, bool)
    requires cmd != []
  {
    if e.satisfied then (e, true)
    else
      match FindIn(cmd[1..], "validator", "$jsonSchema")
      case Some(v) => WithSchema(e, v, true)
      case None =>
        match Find(cmd, "encryptedFields")
        case Some(v) => WithEf(e, v, parse)
        case None => (e, true)
  }

  /** The sources that are offered to every unsatisfied entry in turn. `Cached` is what the cache of
      collection infos answers. */
  datatype Source =
    | SchemaMap(schemas: Fields)
    | EncryptedFieldsMap(efs: Fields)
    | Cached(infos: map<string, Fields>)
    | EmptySchemas

  function FromSource(db: string, source: Source, e: Entry, parse: EfParser): (Entry, bool) {
    if e.satisfied then (e, true)
    else
      match source
      case SchemaMap(schemas) =>
        (match Find(schemas, Ns(db, e.coll)) case Some(v) => WithSchema(e, v, false) case None => (e, true))
      case EncryptedFieldsMap(efs) =>
        (match Find(efs, Ns(db, e.coll)) case Some(v) => WithEf(e, v, parse) case None => (e, true))
      case Cached(infos) =>
        if Ns(db, e.coll) in infos then FromCollinfo(e, infos[Ns(db, e.coll)], parse) else (e, true)
      case EmptySchemas => (e.(satisfied := true), true)
  }

  /** Offers a source to the entries from the front, stopping at the first error. */
  function FromSourceAll(db: string, source: Source, es: seq<Entry>, parse: EfParser): (r: (seq<Entry>, bool))
    ensures |r.0| == |es|
  {
    if es == [] then ([], true)
    else
      var (e, ok) := FromSource(db, source, es[0], parse);
      if !ok then ([e] + es[1..], false)
      else
        var (rest, ok2) := FromSourceAll(db, source, es[1..], parse);
        ([e] + rest, ok2)
  }

  // ----- the calls

  function IndexOf(es: seq<Entry>, coll: string): (i: nat)
    ensures i <= |es|
    ensures i < |es| ==> es[i].coll == coll
    ensures forall j :: 0 <= j < i ==> es[j].coll != coll
  {
    if es == [] || es[0].coll == coll then 0 else IndexOf(es[1..], coll) + 1
  }

  datatype Call =
    | Request(db: string, coll: string)
    | Collinfo(info: Fields)
    | Satisfy(source: Source)
    | Command(cmd: Fields)
    | SupportMixing

  function RequestNext(b: State, db: string, coll: string): (State, bool) {
    if b.db.Some? && b.db.value != db then (b, false)
    else if IndexOf(b.entries, coll) < |b.entries| then (b, true)
    else
      (b.(db := if b.entries == [] then Some(db) else b.db,
          entries := b.entries + [Entry(coll, None, None, false)], llLen := b.llLen + 1), true)
  }

  /** The collection a text element names; null characters are refused. */
  function CollName(v: Option<Value>): Option<string> {
    if v.Some? && v.value.Utf8? && CString(v.value.text) == v.value.text then Some(v.value.text) else None
  }

  function CollinfoNext(b: State, info: Fields, parse: EfParser): (State, bool) {
    var name := CollName(Find(info, "name"));
    if name.None? then (b, false)
    else
      var i := IndexOf(b.entries, name.value);
      if i == |b.entries| then (b, false)
      else
        var (e, ok) := FromCollinfo(b.entries[i], info, parse);
        (b.(entries := b.entries[i := e]), ok)
  }

  function CommandNext(b: State, cmd: Fields, parse: EfParser): (State, bool) {
    if cmd == [] then (b, false)
    else if cmd[0].key != "create" && cmd[0].key != "collMod" then (b, true)
    else
      var name := CollName(Some(cmd[0].value));
      if name.None? then (b, false)
      else
        var i := IndexOf(b.entries, name.value);
        if i == |b.entries| then (b, true)
        else
          var (e, ok) := FromCommand(b.entries[i], cmd, parse);
          (b.(entries := b.entries[i := e]), ok)
  }

  function SatisfyNext(b: State, source: Source, parse: EfParser): (State, bool) {
    var (es, ok) := FromSourceAll(if b.db.Some? then b.db.value else "", source, b.entries, parse);
    (b.(entries := es), ok)
  }

  function Next(b: State, call: Call, parse: EfParser): (State, bool) {
    match call
    case Request(db, coll) => RequestNext(b, db, coll)
    case Collinfo(info) => CollinfoNext(b, info, parse)
    case Satisfy(source) => SatisfyNext(b, source, parse)
    case Command(cmd) => CommandNext(b, cmd, parse)
    case SupportMixing => (b.(mixing := true), true)
  }

  // ----- invariant

  predicate Unset(e: Entry) {
    e.jsonSchema.None? && e.encryptedFields.None?
  }

  /** Distinct names, a count that agrees with the list, and no schema on an unsatisfied entry. */
  ghost predicate Inv(b: State) {
    && NamesDistinct(b.entries)
    && b.llLen == |b.entries|
    && (b.entries != [] ==> b.db.Some?)
    && UnsatisfiedUnset(b.entries)
  }

  ghost predicate NamesDistinct(es: seq<Entry>) {
    forall i, j :: 0 <= i < j < |es| ==> es[i].coll != es[j].coll
  }

  ghost predicate UnsatisfiedUnset(es: seq<Entry>) {
    forall i :: 0 <= i < |es| && !es[i].satisfied ==> Unset(es[i])
  }

  /** No entry is dropped or renamed, and a satisfied one stays as it is. */
  ghost predicate Evolves(a: seq<Entry>, b: seq<Entry>) {
    && |a| <= |b|
    && forall i :: 0 <= i < |a| ==> a[i].coll == b[i].coll && (a[i].satisfied ==> b[i] == a[i])
  }

  /** What any one entry-level step does. */
  ghost predicate EntryStep(e: Entry, r: (Entry, bool)) {
    && r.0.coll == e.coll
    && (e.satisfied ==> r.0 == e)
    && (r.1 && !r.0.satisfied && Unset(e) ==> Unset(r.0))
  }

  /** Every entry takes such a step. */
  ghost predicate Steps(a: seq<Entry>, b: seq<Entry>, ok: bool) {
    |a| == |b| && Evolves(a, b) && (ok ==> forall i :: 0 <= i < |a| ==> EntryStep(a[i], (b[i], true)))
  }

  lemma EntrySteps(db: string, source: Source, e: Entry, parse: EfParser)
    ensures EntryStep(e, FromSource(db, source, e, parse))
  {
  }

  lemma {:induction false} FromSourceAllSteps(db: string, source: Source, es: seq<Entry>, parse: EfParser)
    ensures var r := FromSourceAll(db, source, es, parse); Steps(es, r.0, r.1)
  {
    if es != [] {
      EntrySteps(db, source, es[0], parse);
      FromSourceAllSteps(db, source, es[1..], parse);
    }
  }

  lemma UpdateSteps(es: seq<Entry>, i: nat, r: (Entry, bool))
    requires i < |es| && EntryStep(es[i], r)
    ensures Steps(es, es[i := r.0], r.1)
  {
  }

  lemma CollinfoSteps(b: State, info: Fields, parse: EfParser)
    ensures var r := CollinfoNext(b, info, parse);
            Steps(b.entries, r.0.entries, r.1) && r.0 == b.(entries := r.0.entries)
  {
    var name := CollName(Find(info, "name"));
    if name.Some? && IndexOf(b.entries, name.value) < |b.entries| {
      var i := IndexOf(b.entries, name.value);
      UpdateSteps(b.entries, i, FromCollinfo(b.entries[i], info, parse));
    }
  }

  lemma CommandSteps(b: State, cmd: Fields, parse: EfParser)
    ensures var r := CommandNext(b, cmd, parse);
            Steps(b.entries, r.0.entries, r.1) && r.0 == b.(entries := r.0.entries)
  {
    if cmd != [] {
      var name := CollName(Some(cmd[0].value));
      if name.Some? && IndexOf(b.entries, name.value) < |b.entries| {
        var i := IndexOf(b.entries, name.value);
        UpdateSteps(b.entries, i, FromCommand(b.entries[i], cmd, parse));
      }
    }
  }

  /** Every call other than a request keeps the list and takes a step in each entry. */
  lemma NextSteps(b: State, call: Call, parse: EfParser)
    requires !call.Request?
    ensures var r := Next(b, call, parse);
            Steps(b.entries, r.0.entries, r.1) && r.0 == b.(entries := r.0.entries, mixing := r.0.mixing)
  {
    match call {
      case Collinfo(info) => CollinfoSteps(b, info, parse);
      case Satisfy(source) => FromSourceAllSteps(if b.db.Some? then b.db.value else "", source, b.entries, parse);
      case Command(cmd) => CommandSteps(b, cmd, parse);
      case SupportMixing =>
    }
  }

  lemma StepsKeepInv(b: State, entries: seq<Entry>, mixing: bool, ok: bool)
    requires Inv(b) && Steps(b.entries, entries, ok)
    ensures NamesDistinct(entries) && (ok ==> Inv(b.(entries := entries, mixing := mixing)))
  {
    if ok {
      assert forall i :: 0 <= i < |entries| ==> EntryStep(b.entries[i], (entries[i], true));
    }
  }

  lemma NextEvolves(b: State, call: Call, parse: EfParser)
    ensures Evolves(b.entries, Next(b, call, parse).0.entries)
  {
    if !call.Request? {
      NextSteps(b, call, parse);
    }
  }

  /** Every successful call keeps the invariant; the unsuccessful ones keep its part about names. */
  lemma NextKeepsInv(b: State, call: Call, parse: EfParser)
    requires Inv(b)
    ensures var r := Next(b, call, parse);
            && NamesDistinct(r.0.entries) && r.0.llLen == |r.0.entries|
            && (r.1 ==> Inv(r.0))
  {
    if !call.Request? {
      var r := Next(b, call, parse);
      NextSteps(b, call, parse);
      StepsKeepInv(b, r.0.entries, r.0.mixing, r.1);
    }
  }

  // ----- runs

  const EMPTY: State := State(None, [], 0, false)

  function Run(calls: seq<Call>, parse: EfParser): State {
    if calls == [] then EMPTY
    else Next(Run(calls[..|calls| - 1], parse), calls[|calls| - 1], parse).0
  }

  predicate Succeeds(calls: seq<Call>, parse: EfParser) {
    if calls == [] then true
    else
      var front := calls[..|calls| - 1];
      Succeeds(front, parse) && Next(Run(front, parse), calls[|calls| - 1], parse).1
  }

  /** Every successful run keeps the names unique, counts them, and sets no schema without satisfying. */
  lemma {:induction false} RunInv(calls: seq<Call>, parse: EfParser)
    requires Succeeds(calls, parse)
    ensures Inv(Run(calls, parse))
  {
    if calls != [] {
      var front := calls[..|calls| - 1];
      RunInv(front, parse);
      NextKeepsInv(Run(front, parse), calls[|calls| - 1], parse);
    }
  }

  /** Once satisfied, an entry keeps its schema for the rest of the run. */
  lemma {:induction false} SatisfiedNeverChanges(calls: seq<Call>, n: nat, parse: EfParser)
    requires n <= |calls|
    ensures Evolves(Run(calls[..n], parse).entries, Run(calls, parse).entries)
  {
    if n < |calls| {
      var front := calls[..|calls| - 1];
      assert front[..n] == calls[..n];
      SatisfiedNeverChanges(front, n, parse);
      NextEvolves(Run(front, parse), calls[|calls| - 1], parse);
    } else {
      assert calls[..n] == calls;
    }
  }

  // ----- which source an entry's schema comes from

  function Unanswered(coll: string): Entry {
    Entry(coll, None, None, false)
  }

  /** What one call gives to one entry: a source offered to all gives to each, and a result or command
      gives to the collection that it names. */
  function Offer(db: string, call: Call, e: Entry, parse: EfParser): (Entry, bool) {
    match call
    case Satisfy(source) => FromSource(db, source, e, parse)
    case Collinfo(info) =>
      if CollName(Find(info, "name")) == Some(e.coll) then FromCollinfo(e, info, parse) else (e, true)
    case Command(cmd) =>
      if cmd == [] || (cmd[0].key != "create" && cmd[0].key != "collMod") then (e, true)
      else if CollName(Some(cmd[0].value)) == Some(e.coll) then FromCommand(e, cmd, parse)
      else (e, true)
    case _ => (e, true)
  }

  function NameOfDb(b: State): string {
    if b.db.Some? then b.db.value else ""
  }

  lemma {:induction false} OfferedAt(db: string, source: Source, es: seq<Entry>, parse: EfParser, i: nat)
    requires i < |es| && FromSourceAll(db, source, es, parse).1
    ensures (FromSourceAll(db, source, es, parse).0[i], true) == FromSource(db, source, es[i], parse)
  {
    if i > 0 {
      OfferedAt(db, source, es[1..], parse, i - 1);
    }
  }

  /** A successful call does to each entry what it offers it. */
  lemma NextOffers(b: State, call: Call, parse: EfParser, i: nat)
    requires Inv(b) && i < |b.entries| && Next(b, call, parse).1
    ensures i < |Next(b, call, parse).0.entries|
    ensures (Next(b, call, parse).0.entries[i], true) == Offer(NameOfDb(b), call, b.entries[i], parse)
    ensures NameOfDb(Next(b, call, parse).0) == NameOfDb(b)
  {
    match call {
      case Satisfy(source) => OfferedAt(NameOfDb(b), source, b.entries, parse, i);
      case Collinfo(info) => NamedEntry(b.entries, i, CollName(Find(info, "name")));
      case Command(cmd) => if cmd != [] { NamedEntry(b.entries, i, CollName(Some(cmd[0].value))); }
      case Request(_, _) =>
      case SupportMixing =>
    }
  }

  /** With distinct names, the search finds an entry exactly by its own name. */
  lemma NamedEntry(es: seq<Entry>, i: nat, name: Option<string>)
    requires NamesDistinct(es) && i < |es|
    ensures name.Some? ==> (IndexOf(es, name.value) == i <==> name == Some(es[i].coll))
  {
  }

  /** The i-th entry is as fresh as when it was requested, and the call gives it nothing. */
  ghost predicate GivesNothing(b: State, call: Call, parse: EfParser, i: nat) {
    i < |b.entries|
    && var e := Unanswered(b.entries[i].coll);
       b.entries[i] == e && Offer(NameOfDb(b), call, e, parse) == (e, true)
  }

  /** If an entry is unsatisfied after a call, the call found it fresh and gave it nothing. */
  lemma UnsatisfiedStep(b: State, last: Call, parse: EfParser, i: nat)
    requires Inv(b) && i < |b.entries| && Next(b, last, parse).1
    requires i < |Next(b, last, parse).0.entries| && !Next(b, last, parse).0.entries[i].satisfied
    ensures !b.entries[i].satisfied && GivesNothing(Next(b, last, parse).0, last, parse, i)
    ensures Next(b, last, parse).0.entries[i] == b.entries[i] && NameOfDb(Next(b, last, parse).0) == NameOfDb(b)
  {
    NextKeepsInv(b, last, parse);
    NextOffers(b, last, parse, i);
    NextEvolves(b, last, parse);
  }

  /** What gave nothing before gives nothing now. */
  lemma NothingStaysNothing(b: State, next: State, call: Call, parse: EfParser, i: nat)
    requires GivesNothing(b, call, parse, i) && i < |next.entries|
    requires next.entries[i] == b.entries[i] && NameOfDb(next) == NameOfDb(b)
    ensures GivesNothing(next, call, parse, i)
  {
  }

  lemma GivesNothingStep(b: State, last: Call, call: Call, parse: EfParser, i: nat)
    requires Inv(b) && i < |b.entries| && Next(b, last, parse).1
    requires i < |Next(b, last, parse).0.entries| && !Next(b, last, parse).0.entries[i].satisfied
    requires call == last || GivesNothing(b, call, parse, i)
    ensures GivesNothing(Next(b, last, parse).0, call, parse, i)
  {
    UnsatisfiedStep(b, last, parse, i);
    if call != last {
      NothingStaysNothing(b, Next(b, last, parse).0, call, parse, i);
    }
  }

  /** It was there and unsatisfied before the last call, too. */
  lemma UnsatisfiedBefore(calls: seq<Call>, parse: EfParser, i: nat, k: nat)
    requires Succeeds(calls, parse) && i < |Run(calls, parse).entries| && !Run(calls, parse).entries[i].satisfied
    requires k < |calls| && i < |Run(calls[..k], parse).entries|
    ensures var front := calls[..|calls| - 1];
            && i < |Run(front, parse).entries| && !Run(front, parse).entries[i].satisfied
            && (k < |calls| - 1 ==> front[..k] == calls[..k])
  {
    var front := calls[..|calls| - 1];
    assert front[..k] == calls[..k];
    SatisfiedNeverChanges(front, k, parse);
    NextEvolves(Run(front, parse), calls[|calls| - 1], parse);
  }

  /** An entry that is unsatisfied at the end was given nothing by any call since its request. */
  lemma {:induction false} UnsatisfiedWasOfferedNothing(calls: seq<Call>, parse: EfParser, i: nat, k: nat)
    requires Succeeds(calls, parse) && i < |Run(calls, parse).entries| && !Run(calls, parse).entries[i].satisfied
    requires k < |calls| && i < |Run(calls[..k], parse).entries|
    ensures GivesNothing(Run(calls, parse), calls[k], parse, i)
  {
    var n := |calls| - 1;
    RunInv(calls[..n], parse);
    UnsatisfiedBefore(calls, parse, i, k);
    if k < n {
      UnsatisfiedWasOfferedNothing(calls[..n], parse, i, k);
    }
    GivesNothingStep(Run(calls[..n], parse), calls[n], calls[k], parse, i);
  }

  /** The first source that has a schema wins: a satisfied entry is exactly what the n-th call gives to a
      fresh entry of its name, and every earlier call since the request gave it nothing. */
  lemma {:induction false} FirstOfferWins(calls: seq<Call>, parse: EfParser, i: nat) returns (n: nat)
    requires Succeeds(calls, parse) && i < |Run(calls, parse).entries| && Run(calls, parse).entries[i].satisfied
    ensures n < |calls| && i < |Run(calls[..n], parse).entries|
    ensures var b := Run(calls, parse);
            var e := Unanswered(b.entries[i].coll);
            && (b.entries[i], true) == Offer(NameOfDb(b), calls[n], e, parse)
            && forall k: nat :: k < n && i < |Run(calls[..k], parse).entries| ==>
                 Offer(NameOfDb(b), calls[k], e, parse) == (e, true)
  {
    var m := |calls| - 1;
    var front := calls[..m];
    var b := Run(front, parse);
    RunInv(front, parse);
    RequestLeavesUnsatisfied(b, calls[m], parse, i);
    NextOffers(b, calls[m], parse, i);
    NextEvolves(b, calls[m], parse);
    if b.entries[i].satisfied {
      n := FirstOfferWins(front, parse, i);
      assert front[..n] == calls[..n];
      forall k: nat | k < n && i < |Run(calls[..k], parse).entries|
        ensures var e := Unanswered(b.entries[i].coll); Offer(NameOfDb(b), calls[k], e, parse) == (e, true)
      {
        assert front[..k] == calls[..k];
      }
    } else {
      n := m;
      forall k: nat | k < n && i < |Run(calls[..k], parse).entries|
        ensures var e := Unanswered(b.entries[i].coll); Offer(NameOfDb(b), calls[k], e, parse) == (e, true)
      {
        assert front[..k] == calls[..k];
        UnsatisfiedWasOfferedNothing(front, parse, i, k);
      }
    }
  }

  /** A call that satisfies an entry does not add it. */
  lemma RequestLeavesUnsatisfied(b: State, call: Call, parse: EfParser, i: nat)
    requires Inv(b) && Next(b, call, parse).1 && i < |Next(b, call, parse).0.entries|
    requires Next(b, call, parse).0.entries[i].satisfied
    ensures i < |b.entries|
  {
    if !call.Request? {
      NextSteps(b, call, parse);
    }
  }

  /** The collections asked for, without repetition. */
  ghost function Requested(calls: seq<Call>): set<string> {
    if calls == [] then {}
    else
      var last := calls[|calls| - 1];
      Requested(calls[..|calls| - 1]) + if last.Request? then {last.coll} else {}
  }

  ghost function Names(es: seq<Entry>): set<string> {
    set i | 0 <= i < |es| :: es[i].coll
  }

  lemma SameNames(a: seq<Entry>, b: seq<Entry>)
    requires Evolves(a, b) && |a| == |b|
    ensures Names(a) == Names(b)
  {
    assert forall i :: 0 <= i < |a| ==> a[i].coll == b[i].coll;
  }

  /** The entries of a successful run are exactly the requested collections. */
  lemma {:induction false} EntriesAreRequests(calls: seq<Call>, parse: EfParser)
    requires Succeeds(calls, parse)
    ensures Names(Run(calls, parse).entries) == Requested(calls)
  {
    if calls != [] {
      var front, last := calls[..|calls| - 1], calls[|calls| - 1];
      var b, next := Run(front, parse), Run(calls, parse);
      EntriesAreRequests(front, parse);
      NextEvolves(b, last, parse);
      if last.Request? && IndexOf(b.entries, last.coll) == |b.entries| {
        var es := next.entries;
        assert es == b.entries + [Entry(last.coll, None, None, false)];
        assert forall c :: c in Names(es) <==> c in Names(b.entries) || c == last.coll by {
          assert es[|b.entries|].coll == last.coll;
          assert forall i :: 0 <= i < |b.entries| ==> es[i] == b.entries[i];
        }
      } else {
        if last.Request? {
          assert b.entries[IndexOf(b.entries, last.coll)].coll == last.coll;
        }
        SameNames(b.entries, next.entries);
      }
    }
  }

  predicate AllSatisfied(es: seq<Entry>) {
    forall i :: 0 <= i < |es| ==> es[i].satisfied
  }

  /** Offering empty schemas leaves nothing unsatisfied. */
  lemma {:induction false} EmptySchemasSatisfyAll(db: string, es: seq<Entry>, parse: EfParser)
    ensures var r := FromSourceAll(db, EmptySchemas, es, parse); r.1 && AllSatisfied(r.0)
  {
    if es != [] {
      EmptySchemasSatisfyAll(db, es[1..], parse);
    }
  }

  // ----- the broker object

  lemma {:induction false} CountAppend(a: Fields, b: Fields, key: string)
    ensures CountKey(a + b, key) == CountKey(a, key) + CountKey(b, key)
  {
    if a == [] {
      assert a + b == b;
    } else {
      assert (a + b)[1..] == a[1..] + b;
      CountAppend(a[1..], b, key);
    }
  }

  lemma {:induction false} FindCounts(fields: Fields, key: string)
    ensures Find(fields, key).Some? <==> CountKey(fields, key) > 0
  {
    if fields != [] {
      FindCounts(fields[1..], key);
    }
  }

  lemma {:induction false} FindFirst(a: Fields, b: Fields, key: string)
    ensures Find(a + b, key) == if CountKey(a, key) > 0 then Find(a, key) else Find(b, key)
  {
    if a == [] {
      assert a + b == b;
    } else {
      assert (a + b)[1..] == a[1..] + b;
      FindFirst(a[1..], b, key);
    }
  }

  /** The first entry with a name, at which a search that has passed the earlier ones stops. */
  lemma {:induction false} IndexAt(es: seq<Entry>, coll: string, i: nat)
    requires i <= |es| && (i < |es| ==> es[i].coll == coll)
    requires forall j :: 0 <= j < i ==> es[j].coll != coll
    ensures IndexOf(es, coll) == i
  {
    if i > 0 {
      IndexAt(es[1..], coll, i - 1);
    }
  }

  /** The source has been offered to the first entries, which have become `done`. */
  ghost predicate Offered(db: string, source: Source, before: seq<Entry>, done: seq<Entry>, parse: EfParser)
    requires |done| <= |before|
  {
    var all, rest := FromSourceAll(db, source, before, parse), FromSourceAll(db, source, before[|done|..], parse);
    all.0 == done + rest.0 && all.1 == rest.1
  }

  lemma OfferStarts(db: string, source: Source, before: seq<Entry>, parse: EfParser)
    ensures Offered(db, source, before, [], parse) && before == [] + before[0..]
  {
    assert before[0..] == before;
  }

  lemma OfferToHead(db: string, source: Source, before: seq<Entry>, k: nat, parse: EfParser)
    requires k < |before|
    ensures FromSourceAll(db, source, before[k..], parse) ==
            Joined(FromSource(db, source, before[k], parse), before[k + 1..],
                   FromSourceAll(db, source, before[k + 1..], parse))
  {
    assert before[k..][0] == before[k] && before[k..][1..] == before[k + 1..];
  }

  /** The outcome of a pass from the outcome r of its first entry and that of the rest. */
  function Joined(r: (Entry, bool), tail: seq<Entry>, rest: (seq<Entry>, bool)): (seq<Entry>, bool) {
    if r.1 then ([r.0] + rest.0, rest.1) else ([r.0] + tail, false)
  }

  lemma JoinedAfter(done: seq<Entry>, r: (Entry, bool), tail: seq<Entry>, rest: (seq<Entry>, bool))
    ensures done + Joined(r, tail, rest).0 == done + [r.0] + if r.1 then rest.0 else tail
  {
  }

  lemma OfferStep(db: string, source: Source, before: seq<Entry>, done: seq<Entry>, parse: EfParser, r: (Entry, bool))
    requires |done| < |before| && Offered(db, source, before, done, parse)
    requires r == FromSource(db, source, before[|done|], parse)
    ensures r.1 ==> Offered(db, source, before, done + [r.0], parse)
    ensures !r.1 ==> FromSourceAll(db, source, before, parse) == (done + [r.0] + before[|done| + 1..], false)
  {
    var k := |done|;
    OfferToHead(db, source, before, k, parse);
    JoinedAfter(done, r, before[k + 1..], FromSourceAll(db, source, before[k + 1..], parse));
  }

  lemma OfferEnds(db: string, source: Source, before: seq<Entry>, done: seq<Entry>, parse: EfParser)
    requires |done| == |before| && Offered(db, source, before, done, parse)
    ensures FromSourceAll(db, source, before, parse) == (done, true) && done + before[|done|..] == done
  {
    assert before[|done|..] == [] && done + [] == done;
  }

  lemma ReplaceHead(done: seq<Entry>, before: seq<Entry>, e: Entry)
    requires |done| < |before|
    ensures var i := |done|;
            && (done + before[i..])[i := e] == done + [e] + before[i + 1..]
            && (before[i] == e ==> done + before[i..] == done + [e] + before[i + 1..])
  {
  }

  /** What one more field of a validator changes. */
  lemma ValidatorStep(validator: Fields, k: nat)
    requires k < |validator| && ValidatorSchema(validator[..k]).1
    ensures var before, v := ValidatorSchema(validator[..k]).0, validator[k].value;
            ValidatorSchema(validator[..k + 1]) ==
            if validator[k].key != "$jsonSchema" then (before, true)
            else if before.Some? then (before, false)
            else if v.Document? then (Some(v.fields), true)
            else (None, false)
  {
    var front, one := validator[..k], [validator[k]];
    assert validator[..k + 1] == front + one;
    CountAppend(front, one, "$jsonSchema");
    FindFirst(front, one, "$jsonSchema");
    FindCounts(front, "$jsonSchema");
    assert CountKey(one, "$jsonSchema") == if validator[k].key == "$jsonSchema" then 1 else 0;
  }

  /** A validator that fails early fails. */
  lemma ValidatorFailure(validator: Fields, k: nat)
    requires k <= |validator| && !ValidatorSchema(validator[..k]).1
    ensures ValidatorSchema(validator) == ValidatorSchema(validator[..k])
  {
    assert validator == validator[..k] + validator[k..];
    CountAppend(validator[..k], validator[k..], "$jsonSchema");
    FindFirst(validator[..k], validator[k..], "$jsonSchema");
    FindCounts(validator[..k], "$jsonSchema");
  }

  class Broker {
    const parse: EfParser
    var db: Option<string>
    var entries: seq<Entry>
    var llLen: nat
    var mixing: bool

    ghost function Value(): State
      reads this
    {
      State(db, entries, llLen, mixing)
    }

    ghost predicate Valid()
      reads this
    {
      Inv(Value())
    }

    constructor (parse: EfParser)
      ensures Valid() && Value() == EMPTY && this.parse == parse
    {
      this.parse := parse;
      db, entries, llLen, mixing := None, [], 0, false;
    }

    method SupportMixingSchemas()
      modifies this`mixing
      ensures Value() == old(Value()).(mixing := true)
    {
      mixing := true;
    }

    /** The position of a collection in the list, or its length. */
    method Search(coll: string) returns (i: nat)
      ensures i == IndexOf(entries, coll)
    {
      i := 0;
      while i < |entries| && entries[i].coll != coll
        invariant i <= |entries|
        invariant forall j :: 0 <= j < i ==> entries[j].coll != coll
      {
        i := i + 1;
      }
      IndexAt(entries, coll, i);
    }

    method RequestSchema(db: string, coll: string) returns (ok: bool)
      requires Valid()
      modifies this
      ensures Valid() && (Value(), ok) == RequestNext(old(Value()), db, coll)
    {
      NextKeepsInv(Value(), Request(db, coll), parse);
      if this.db.Some? && this.db.value != db {
        return false;
      }
      var i := Search(coll);
      if i < |entries| {
        return true;
      }
      if entries == [] {
        this.db := Some(db);
      }
      entries := entries + [Entry(coll, None, None, false)];
      llLen := llLen + 1;
      ok := true;
    }

    /** Whether at least two collections are requested. */
    method HasMultipleRequests() returns (r: bool)
      requires Valid()
      ensures r <==> exists i, j :: 0 <= i < j < |entries| && entries[i].coll != entries[j].coll
    {
      r := llLen > 1;
      if r {
        assert entries[0].coll != entries[1].coll;
      }
    }

    method NeedMoreSchemas() returns (r: bool)
      ensures r <==> exists i :: 0 <= i < |entries| && !entries[i].satisfied
    {
      var i := 0;
      while i < |entries|
        invariant 0 <= i <= |entries| && AllSatisfied(entries[..i])
      {
        if !entries[i].satisfied {
          return true;
        }
        i := i + 1;
      }
      r := false;
    }

    method HasAnyQeSchemas() returns (r: bool)
      requires AllSatisfied(entries)
      ensures r <==> exists i :: 0 <= i < |entries| && entries[i].encryptedFields.Some?
    {
      var i := 0;
      while i < |entries|
        invariant 0 <= i <= |entries| && forall j :: 0 <= j < i ==> entries[j].encryptedFields.None?
      {
        if entries[i].encryptedFields.Some? {
          return true;
        }
        i := i + 1;
      }
      r := false;
    }

    /** Looks for `$jsonSchema` in a validator; the internal check that no schema is set yet always holds. */
    method TakeValidator(i: nat, validator: Fields) returns (ok: bool)
      requires i < |entries| && entries[i].jsonSchema.None?
      modifies this`entries
      ensures var found := ValidatorSchema(validator);
              ok == found.1 && entries == old(entries)[i := WithFound(old(entries[i]), found.0)]
    {
      var found := false;
      var k := 0;
      while k < |validator|
        invariant 0 <= k <= |validator|
        invariant ValidatorSchema(validator[..k]).1
        invariant found <==> ValidatorSchema(validator[..k]).0.Some?
        invariant entries == old(entries)[i := WithFound(old(entries[i]), ValidatorSchema(validator[..k]).0)]
      {
        ValidatorStep(validator, k);
        if !ValidatorSchema(validator[..k + 1]).1 {
          ValidatorFailure(validator, k + 1);
        }
        if validator[k].key == "$jsonSchema" {
          if found || !validator[k].value.Document? {
            return false;
          }
          found := true;
          assert entries[i].jsonSchema.None?;
          entries := entries[i := SetSchema(entries[i], validator[k].value.fields, true)];
        }
        k := k + 1;
      }
      assert validator[..k] == validator;
      ok := true;
    }

    method SatisfyEntryFromCollinfo(i: nat, info: Fields) returns (ok: bool)
      requires i < |entries| && (!entries[i].satisfied ==> Unset(entries[i]))
      modifies this`entries
      ensures var r := FromCollinfo(old(entries[i]), info, parse); entries == old(entries)[i := r.0] && ok == r.1
    {
      if entries[i].satisfied || IsView(info) {
        return false;
      }
      var options := FindIn(info, "options", "encryptedFields");
      if options.Some? {
        if !options.value.Document? {
          return false;
        }
        var config := parse(options.value.fields);
        if config.None? {
          return false;
        }
        entries := entries[i := SetEf(entries[i], options.value.fields, config.value)];
      }
      var validator := FindIn(info, "options", "validator");
      if validator.Some? && validator.value.Document? {
        ok := TakeValidator(i, validator.value.fields);
        if !ok {
          return;
        }
      }
      entries := entries[i := entries[i].(satisfied := true)];
      ok := true;
    }

    method SatisfyFromCollinfo(info: Fields) returns (ok: bool)
      requires Valid()
      modifies this`entries
      ensures (Value(), ok) == CollinfoNext(old(Value()), info, parse)
      ensures ok ==> Valid()
    {
      NextKeepsInv(Value(), Collinfo(info), parse);
      var name := CollName(Find(info, "name"));
      if name.None? {
        return false;
      }
      var i := Search(name.value);
      if i == |entries| {
        return false;
      }
      ok := SatisfyEntryFromCollinfo(i, info);
    }

    method SatisfyEntry(i: nat, source: Source) returns (ok: bool)
      requires i < |entries| && !entries[i].satisfied && Unset(entries[i]) && db.Some?
      modifies this`entries
      ensures var r := FromSource(db.value, source, old(entries[i]), parse);
              entries == old(entries)[i := r.0] && ok == r.1
    {
      var ns := Ns(db.value, entries[i].coll);
      ok := true;
      match source {
        case SchemaMap(schemas) =>
          var found := Find(schemas, ns);
          if found.Some? {
            if !found.value.Document? {
              return false;
            }
            entries := entries[i := SetSchema(entries[i], found.value.fields, false).(satisfied := true)];
          }
        case EncryptedFieldsMap(efs) =>
          var found := Find(efs, ns);
          if found.Some? {
            if !found.value.Document? {
              return false;
            }
            var config := parse(found.value.fields);
            if config.None? {
              return false;
            }
            entries := entries[i := SetEf(entries[i], found.value.fields, config.value).(satisfied := true)];
          }
        case Cached(infos) =>
          if ns in infos {
            ok := SatisfyEntryFromCollinfo(i, infos[ns]);
          }
        case EmptySchemas =>
          entries := entries[i := entries[i].(satisfied := true)];
      }
    }

    /** One step of the pass below, at the entry after those in `done`. */
    method OfferNext(source: Source, i: nat, ghost before: seq<Entry>, ghost done: seq<Entry>) returns (ok: bool)
      requires |done| == i < |before| && entries == done + before[i..] && db.Some?
      requires !before[i].satisfied ==> Unset(before[i])
      requires Offered(db.value, source, before, done, parse)
      modifies this`entries
      ensures |entries| == |before|
      ensures ok ==> entries == done + [entries[i]] + before[i + 1..]
      ensures ok ==> Offered(db.value, source, before, done + [entries[i]], parse)
      ensures !ok ==> FromSourceAll(db.value, source, before, parse) == (entries, false)
    {
      ghost var r := FromSource(db.value, source, before[i], parse);
      assert entries[i] == before[i];
      OfferStep(db.value, source, before, done, parse, r);
      ReplaceHead(done, before, r.0);
      ok := true;
      if !entries[i].satisfied {
        ok := SatisfyEntry(i, source);
      }
      assert entries == done + [r.0] + before[i + 1..];
    }

    /** Offers a source to every unsatisfied entry in turn. */
    method OfferAll(source: Source) returns (ok: bool)
      requires UnsatisfiedUnset(entries) && (entries != [] ==> db.Some?)
      modifies this`entries
      ensures (entries, ok) == FromSourceAll(NameOfDb(Value()), source, old(entries), parse)
    {
      ghost var before, name := entries, if db.Some? then db.value else "";
      ghost var done := [];
      var i := 0;
      OfferStarts(name, source, before, parse);
      while i < |entries|
        invariant |done| == i <= |entries| == |before|
        invariant entries == done + before[i..]
        invariant Offered(name, source, before, done, parse)
      {
        ok := OfferNext(source, i, before, done);
        if !ok {
          return;
        }
        done := done + [entries[i]];
        i := i + 1;
      }
      OfferEnds(name, source, before, done, parse);
      ok := true;
    }

    method SatisfyFrom(source: Source) returns (ok: bool)
      requires Valid()
      modifies this`entries
      ensures (Value(), ok) == SatisfyNext(old(Value()), source, parse)
      ensures ok ==> Valid()
      ensures source == EmptySchemas ==> ok && AllSatisfied(entries)
    {
      NextKeepsInv(Value(), Satisfy(source), parse);
      EmptySchemasSatisfyAll(if db.Some? then db.value else "", entries, parse);
      ok := OfferAll(source);
    }

    method SatisfyFromCreateOrCollMod(cmd: Fields) returns (ok: bool)
      requires Valid()
      modifies this`entries
      ensures (Value(), ok) == CommandNext(old(Value()), cmd, parse)
      ensures ok ==> Valid()
    {
      NextKeepsInv(Value(), Command(cmd), parse);
      if cmd == [] {
        return false;
      }
      if cmd[0].key != "create" && cmd[0].key != "collMod" {
        return true;
      }
      var name := CollName(Some(cmd[0].value));
      if name.None? {
        return false;
      }
      var i := Search(name.value);
      assert i < |entries| ==> entries[i := entries[i]] == entries;
      if i == |entries| || entries[i].satisfied {
        return true;
      }
      var schema := FindIn(cmd[1..], "validator", "$jsonSchema");
      if schema.Some? {
        if !schema.value.Document? {
          return false;
        }
        entries := entries[i := SetSchema(entries[i], schema.value.fields, true).(satisfied := true)];
        return true;
      }
      var ef := Find(cmd, "encryptedFields");
      if ef.Some? {
        if !ef.value.Document? {
          return false;
        }
        var config := parse(ef.value.fields);
        if config.None? {
          return false;
        }
        entries := entries[i := SetEf(entries[i], ef.value.fields, config.value).(satisfied := true)];
      }
      ok := true;
    }

    /** The parsed `encryptedFields` of a collection, if it has any. */
    method GetEncryptedFields(coll: string) returns (r: Option<EfConfig>)
      requires Valid() && AllSatisfied(entries)
      ensures r.Some? ==> exists i :: 0 <= i < |entries| && entries[i].coll == coll && Ef(entries[i]) == r
      ensures r.None? ==> forall i :: 0 <= i < |entries| && entries[i].coll == coll ==> entries[i].encryptedFields.None?
    {
      var i := Search(coll);
      r := if i < |entries| then Ef(entries[i]) else None;
    }

    /** A filter for listCollections that asks for the unsatisfied collections. */
    method ListCollectionsFilter() returns (r: Result<Fields>)
      ensures r.Ok? <==> exists i :: 0 <= i < |entries| && !entries[i].satisfied
      ensures r.Ok? ==> forall coll :: FilterMatches(r.value, coll) <==>
                          exists i :: 0 <= i < |entries| && !entries[i].satisfied && entries[i].coll == coll
    {
      var names: seq<Value> := [];
      var i := 0;
      while i < |entries|
        invariant 0 <= i <= |entries|
        invariant forall k :: 0 <= k < |names| ==>
                    && names[k].Utf8?
                    && exists j :: 0 <= j < i && !entries[j].satisfied && entries[j].coll == names[k].text
        invariant forall j :: 0 <= j < i && !entries[j].satisfied ==> Utf8(entries[j].coll) in names
      {
        if !entries[i].satisfied {
          names := names + [Utf8(entries[i].coll)];
        }
        i := i + 1;
      }
      if |names| == 0 {
        return Err;
      }
      assert names[0].Utf8?;
      r := Ok([Field("name", if |names| == 1 then names[0] else Document([Field("$in", Array(names))]))]);
      forall coll
        ensures FilterMatches(r.value, coll) <==>
                  exists j :: 0 <= j < |entries| && !entries[j].satisfied && entries[j].coll == coll
      {
        assert FilterMatches(r.value, coll) <==> Utf8(coll) in names;
      }
    }
  }

  function Ef(e: Entry): Option<EfConfig> {
    if e.encryptedFields.Some? then Some(e.encryptedFields.value.config) else None
  }

  /** Which names the server returns for a filter on the name: a text is compared, `$in` lists choices. */
  predicate FilterMatches(filter: Fields, coll: string) {
    match Find(filter, "name")
    case Some(Utf8(text)) => text == coll
    case Some(Document(condition)) =>
      var choices := Find(condition, "$in");
      choices.Some? && choices.value.Array? && Utf8(coll) in choices.value.items
    case _ => false
  }
}

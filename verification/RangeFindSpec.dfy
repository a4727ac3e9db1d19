/** Range find specifications: parsing an `$and` of range operators and rewriting it with placeholders. */
module RangeFindSpec {
  import opened Common
  import opened Bson

  datatype Operator = Gt | Gte | Lt | Lte

  function OperatorType(key: string): Option<Operator> {
    if key == "$gt" then Some(Gt)
    else if key == "$gte" then Some(Gte)
    else if key == "$lt" then Some(Lt)
    else if key == "$lte" then Some(Lte)
    else None
  }

  function OperatorName(op: Operator): (name: string)
    ensures OperatorType(name) == Some(op)
  {
    match op case Gt => "$gt" case Gte => "$gte" case Lt => "$lt" case Lte => "$lte"
  }

  function OperatorCode(op: Operator): int {
    match op case Gt => 1 case Gte => 2 case Lt => 3 case Lte => 4
  }

  predicate IsLower(op: Operator) {
    op == Gt || op == Gte
  }

  predicate IsInclusive(op: Operator) {
    op == Gte || op == Lte
  }

  /** One comparison of a field with a value. */
  datatype Operand = Operand(field: string, op: Operator, value: Value)

  /** {$gt: ["$age", 5]} */
  function ReadAggregate(f: Field): Option<Operand> {
    if f.value.Array? && |f.value.items| == 2 && f.value.items[0].Utf8? && OperatorType(f.key).Some? then
      Some(Operand(CString(f.value.items[0].text), OperatorType(f.key).value, f.value.items[1]))
    else None
  }

  /** {age: {$gt: 5}} */
  function ReadMatch(f: Field): Option<Operand> {
    if f.value.Document? && |f.value.fields| == 1 && OperatorType(f.value.fields[0].key).Some? then
      Some(Operand(f.key, OperatorType(f.value.fields[0].key).value, f.value.fields[0].value))
    else None
  }

  /** The operand of an element of the `$and` array, which is read from its first key. */
  function ReadOperand(aggregate: bool, item: Value): Option<Operand> {
    if !item.Document? || item.fields == [] then None
    else if aggregate then ReadAggregate(item.fields[0]) else ReadMatch(item.fields[0])
  }

  /** The first key of the first element decides which form every element must have. */
  predicate IsAggregate(items: seq<Value>) {
    items != [] && items[0].Document? && items[0].fields != [] && OperatorType(items[0].fields[0].key).Some?
  }

  predicate AndDocument(doc: Value) {
    doc.Document? && |doc.fields| == 1 && doc.fields[0].key == "$and" && doc.fields[0].value.Array?
  }

  /** The operand of the i-th element. */
  function OperandAt(items: seq<Value>, i: nat): Option<Operand>
    requires i < |items|
  {
    ReadOperand(IsAggregate(items), items[i])
  }

  /** At most one lower and one upper bound, on one field, all in the same form. */
  predicate AcceptedItems(items: seq<Value>) {
    && |items| <= 2
    && (forall i :: 0 <= i < |items| ==> OperandAt(items, i).Some?)
    && (|items| == 2 ==>
          && OperandAt(items, 0).value.field == OperandAt(items, 1).value.field
          && IsLower(OperandAt(items, 0).value.op) != IsLower(OperandAt(items, 1).value.op))
  }

  predicate Accepted(doc: Value) {
    AndDocument(doc) && AcceptedItems(doc.fields[0].value.items)
  }

  datatype Bound = Bound(value: Value, included: bool)

  datatype Spec = Spec(
    field: Option<string>,
    lower: Option<Bound>,
    upper: Option<Bound>,
    isAggregate: bool,
    nOps: nat,
    firstOp: Option<Operator>,
    secondOp: Option<Operator>)

  function BoundOf(o: Operand): Bound {
    Bound(o.value, IsInclusive(o.op))
  }

  /** The specification that a list of elements describes. */
  function SpecOf(items: seq<Value>): Spec
    requires AcceptedItems(items)
  {
    var form := IsAggregate(items);
    if items == [] then Spec(None, None, None, false, 0, None, None)
    else
      var a := OperandAt(items, 0).value;
      if |items| == 1 then
        Spec(Some(a.field), if IsLower(a.op) then Some(BoundOf(a)) else None,
             if IsLower(a.op) then None else Some(BoundOf(a)), form, 1, Some(a.op), None)
      else
        var b := OperandAt(items, 1).value;
        Spec(Some(a.field), Some(BoundOf(if IsLower(a.op) then a else b)),
             Some(BoundOf(if IsLower(a.op) then b else a)), form, 2, Some(a.op), Some(b.op))
  }

  /** Adds an operand: refused if its end is already bounded, or if it names another field. */
  function Extend(spec: Spec, o: Operand): Result<Spec> {
    if (if IsLower(o.op) then spec.lower else spec.upper).Some? then Err
    else if spec.field.Some? && spec.field.value != o.field then Err
    else
      var bounded := if IsLower(o.op) then spec.(lower := Some(Bound(o.value, o.op == Gte)))
                     else spec.(upper := Some(Bound(o.value, o.op == Lte)));
      var counted := bounded.(nOps := spec.nOps + 1, field := Some(o.field));
      if counted.nOps == 1 then Ok(counted.(firstOp := Some(o.op)))
      else if counted.nOps == 2 then Ok(counted.(secondOp := Some(o.op)))
      else Err
  }

  lemma AcceptedPrefix(items: seq<Value>, n: nat)
    requires n <= |items| && AcceptedItems(items)
    ensures AcceptedItems(items[..n])
  {
    forall i | 0 <= i < n
      ensures OperandAt(items[..n], i) == OperandAt(items, i)
    {
    }
  }

  /** What one more element does to an accepted list; a third is always refused as a duplicate bound. */
  lemma SpecGrows(front: seq<Value>, item: Value)
    requires AcceptedItems(front)
    ensures var items := front + [item];
            var o, spec := OperandAt(items, |front|), SpecOf(front).(isAggregate := IsAggregate(items));
            && (AcceptedItems(items) <==> o.Some? && Extend(spec, o.value).Ok?)
            && (AcceptedItems(items) ==> Extend(spec, o.value) == Ok(SpecOf(items)))
            && (o.Some? && |front| == 2 ==> (if IsLower(o.value.op) then spec.lower else spec.upper).Some?)
  {
    var items := front + [item];
    forall i | 0 <= i < |front|
      ensures OperandAt(items, i) == OperandAt(front, i)
    {
    }
  }

  /** The parser accepts exactly the documents with at most one lower and one upper bound on one field,
      and describes them. An empty list is accepted. */
  method Parse(doc: Value) returns (r: Result<Spec>)
    ensures r == if Accepted(doc) then Ok(SpecOf(doc.fields[0].value.items)) else Err
  {
    if !AndDocument(doc) {
      return Err;
    }
    var items := doc.fields[0].value.items;
    var spec := Spec(None, None, None, false, 0, None, None);
    var form: Option<bool> := None;
    var i := 0;
    while i < |items|
      invariant 0 <= i <= |items|
      invariant AcceptedItems(items[..i]) && spec == SpecOf(items[..i])
      invariant form == if i == 0 then None else Some(IsAggregate(items[..i]))
    {
      assert items[..i + 1] == items[..i] + [items[i]];
      SpecGrows(items[..i], items[i]);
      if AcceptedItems(items) {
        AcceptedPrefix(items, i + 1);
      }
      if !items[i].Document? || items[i].fields == [] {
        return Err;
      }
      if form == None {
        form := Some(OperatorType(items[i].fields[0].key).Some?);
        spec := spec.(isAggregate := form.value);
      }
      var operand := if form.value then ReadAggregate(items[i].fields[0]) else ReadMatch(items[i].fields[0]);
      if operand.None? {
        return Err;
      }
      var extended := Extend(spec, operand.value);
      if extended.Err? {
        return Err;
      }
      spec := extended.value;
      i := i + 1;
    }
    assert items[..i] == items;
    r := Ok(spec);
  }

  // ----- placeholders

  const INFINITY: Value := Double(0x7FF0_0000_0000_0000)
  const NEG_INFINITY: Value := Double(0xFFF0_0000_0000_0000)
  const DBL_MAX: Value := Double(0x7FEF_FFFF_FFFF_FFFF)
  const NEG_DBL_MAX: Value := Double(0xFFEF_FFFF_FFFF_FFFF)
  const DEC128_LARGEST: Value := Decimal128(0x5FFF_ED09_BEAD_87C0, 0x378D_8E63_FFFF_FFFF)
  const NEG_DEC128_LARGEST: Value := Decimal128(0xDFFF_ED09_BEAD_87C0, 0x378D_8E63_FFFF_FFFF)
  const PLACEHOLDER_FIND: int := 2
  const ALGORITHM_RANGE: int := 3

  datatype RangeOpts = RangeOpts(
    min: Option<Value>, max: Option<Value>, sparsity: int, precision: Option<int>, trimFactor: Option<int>)

  datatype Settings = Settings(opts: RangeOpts, maxContention: int, userKeyId: bytes, indexKeyId: bytes, payloadId: int)

  predicate SameType(a: Value, b: Value) {
    match a
    case Document(_) => b.Document?
    case Array(_) => b.Array?
    case Utf8(_) => b.Utf8?
    case Bool(_) => b.Bool?
    case Int32(_) => b.Int32?
    case Int64(_) => b.Int64?
    case DateTime(_) => b.DateTime?
    case Double(_) => b.Double?
    case Decimal128(_, _) => b.Decimal128?
    case Binary(_) => b.Binary? || b.Placeholder?
    case Placeholder(_) => b.Binary? || b.Placeholder?
    case Other(tag) => b.Other? && b.tag == tag
  }

  /** An end of the index's domain: the configured one if its type is that of the bound, otherwise the
      greatest magnitude of a floating-point type; integers and dates have no default. */
  function DomainEnd(configured: Option<Value>, bound: Value, double: Value, decimal: Value): Result<Value> {
    if configured.Some? then if SameType(configured.value, bound) then Ok(configured.value) else Err
    else if bound.Double? then Ok(double)
    else if bound.Decimal128? then Ok(decimal)
    else Err
  }

  function Optional(key: string, i: Option<int>): seq<Field> {
    if i.Some? then [Field(key, Int32(i.value))] else []
  }

  datatype Interval = Interval(lower: Bound, upper: Bound)

  /** A missing bound is an included infinity. */
  function IntervalOf(spec: Spec): Interval {
    Interval(if spec.lower.Some? then spec.lower.value else Bound(NEG_INFINITY, true),
             if spec.upper.Some? then spec.upper.value else Bound(INFINITY, true))
  }

  function EdgesInfo(interval: Interval, indexMin: Value, indexMax: Value, opts: RangeOpts): Value {
    Document([Field("lowerBound", interval.lower.value), Field("lbIncluded", Bool(interval.lower.included)),
              Field("upperBound", interval.upper.value), Field("ubIncluded", Bool(interval.upper.included)),
              Field("indexMin", indexMin), Field("indexMax", indexMax)]
             + Optional("precision", opts.precision) + Optional("trimFactor", opts.trimFactor))
  }

  function PayloadFields(edgesInfo: Option<Value>, spec: Spec, s: Settings): seq<Field>
    requires spec.firstOp.Some?
  {
    (if edgesInfo.Some? then [Field("edgesInfo", edgesInfo.value)] else [])
    + [Field("payloadId", Int32(s.payloadId)), Field("firstOperator", Int32(OperatorCode(spec.firstOp.value)))]
    + Optional("secondOperator", if spec.secondOp.Some? then Some(OperatorCode(spec.secondOp.value)) else None)
  }

  /** The placeholder of one operator; a stub has no `edgesInfo`. */
  function MakePlaceholder(edgesInfo: Option<Value>, spec: Spec, s: Settings): Value
    requires spec.firstOp.Some?
  {
    var v := PayloadFields(edgesInfo, spec, s);
    Placeholder(Document([
      Field("t", Int32(PLACEHOLDER_FIND)), Field("a", Int32(ALGORITHM_RANGE)), Field("ki", Binary(s.indexKeyId)),
      Field("ku", Binary(s.userKeyId)), Field("v", Document(v)), Field("cm", Int64(s.maxContention)),
      Field("s", Int64(s.opts.sparsity))]))
  }

  /** One element of the rewritten `$and`, in the form of the specification. */
  function Element(aggregate: bool, field: string, op: Operator, value: Value): Value {
    if aggregate then Document([Field(OperatorName(op), Array([Utf8(field), value]))])
    else Document([Field(field, Document([Field(OperatorName(op), value)]))])
  }

  ghost predicate Parsed(spec: Spec) {
    exists items :: AcceptedItems(items) && spec == SpecOf(items)
  }

  /** The document with placeholders: the first carries the interval, the second is a stub. */
  method ToPlaceholders(spec: Spec, s: Settings) returns (r: Result<Value>)
    requires Parsed(spec)
    ensures r == Rewritten(spec, s)
  {
    ParsedShape(spec);
    if spec.lower.None? && spec.upper.None? {
      return Err;
    }
    var bound := if spec.lower.Some? then spec.lower.value.value else spec.upper.value.value;
    var indexMin := DomainEnd(s.opts.min, bound, NEG_DBL_MAX, NEG_DEC128_LARGEST);
    if indexMin.Err? {
      return Err;
    }
    var indexMax := DomainEnd(s.opts.max, bound, DBL_MAX, DEC128_LARGEST);
    if indexMax.Err? {
      return Err;
    }
    var lower := if spec.lower.Some? then spec.lower.value else Bound(NEG_INFINITY, true);
    var upper := if spec.upper.Some? then spec.upper.value else Bound(INFINITY, true);
    var edgesInfo := EdgesInfo(Interval(lower, upper), indexMin.value, indexMax.value, s.opts);
    var p1 := MakePlaceholder(Some(edgesInfo), spec, s);
    var items := [];
    items := items + [Element(spec.isAggregate, spec.field.value, spec.firstOp.value, p1)];
    if spec.nOps == 2 {
      var p2 := MakePlaceholder(None, spec, s);
      items := items + [Element(spec.isAggregate, spec.field.value, spec.secondOp.value, p2)];
    }
    assert items == (match Rewritten(spec, s) case Ok(d) => d.fields[0].value.items case Err => []);
    r := Ok(Document([Field("$and", Array(items))]));
  }

  lemma ParsedShape(spec: Spec)
    requires Parsed(spec)
    ensures spec.nOps == (if spec.lower.Some? then 1 else 0) + (if spec.upper.Some? then 1 else 0)
    ensures spec.nOps > 0 ==> spec.firstOp.Some? && spec.field.Some?
    ensures spec.nOps == 2 <==> spec.secondOp.Some?
  {
  }

  function Rewritten(spec: Spec, s: Settings): Result<Value>
    requires Parsed(spec)
  {
    ParsedShape(spec);
    if spec.nOps == 0 then Err
    else
      var bound := (if spec.lower.Some? then spec.lower else spec.upper).value.value;
      var indexMin := DomainEnd(s.opts.min, bound, NEG_DBL_MAX, NEG_DEC128_LARGEST);
      var indexMax := DomainEnd(s.opts.max, bound, DBL_MAX, DEC128_LARGEST);
      if indexMin.Err? || indexMax.Err? then Err
      else
        var edgesInfo := EdgesInfo(IntervalOf(spec), indexMin.value, indexMax.value, s.opts);
        var p1 := MakePlaceholder(Some(edgesInfo), spec, s);
        var first := Element(spec.isAggregate, spec.field.value, spec.firstOp.value, p1);
        if spec.nOps == 1 then Ok(Document([Field("$and", Array([first]))]))
        else
          var stub := MakePlaceholder(None, spec, s);
          var second := Element(spec.isAggregate, spec.field.value, spec.secondOp.value, stub);
          Ok(Document([Field("$and", Array([first, second]))]))
  }

  // ----- the interval

  /** Whether v satisfies an operator, for an order given as a comparison: the sign of compare(a, b) tells
      how a stands to b. */
  predicate Holds(compare: (Value, Value) -> int, v: Value, op: Operator, bound: Value) {
    match op
    case Gt => compare(v, bound) > 0
    case Gte => compare(v, bound) >= 0
    case Lt => compare(v, bound) < 0
    case Lte => compare(v, bound) <= 0
  }

  /** Whether v satisfies every operator of the `$and`. */
  ghost predicate Matches(compare: (Value, Value) -> int, v: Value, items: seq<Value>)
    requires AcceptedItems(items)
  {
    forall i :: 0 <= i < |items| ==> Holds(compare, v, OperandAt(items, i).value.op, OperandAt(items, i).value.value)
  }

  predicate InInterval(compare: (Value, Value) -> int, v: Value, interval: Interval) {
    && (if interval.lower.included then compare(v, interval.lower.value) >= 0 else compare(v, interval.lower.value) > 0)
    && (if interval.upper.included then compare(v, interval.upper.value) <= 0 else compare(v, interval.upper.value) < 0)
  }

  function ReadBound(edgesInfo: seq<Field>, valueKey: string, includedKey: string): Option<Bound> {
    var value, included := Find(edgesInfo, valueKey), Find(edgesInfo, includedKey);
    if value.Some? && included.Some? && included.value.Bool? then Some(Bound(value.value, included.value.b)) else None
  }

  /** The interval that a placeholder carries, read by key as the encryption step does. */
  function ReadInterval(placeholder: Value): Option<Interval> {
    if !placeholder.Placeholder? || !placeholder.doc.Document? then None
    else
      var v := Find(placeholder.doc.fields, "v");
      if v.None? || !v.value.Document? then None
      else
        var edgesInfo := Find(v.value.fields, "edgesInfo");
        if edgesInfo.None? || !edgesInfo.value.Document? then None
        else
          var lower := ReadBound(edgesInfo.value.fields, "lowerBound", "lbIncluded");
          var upper := ReadBound(edgesInfo.value.fields, "upperBound", "ubIncluded");
          if lower.Some? && upper.Some? then Some(Interval(lower.value, upper.value)) else None
  }

  lemma ReadBounds(interval: Interval, indexMin: Value, indexMax: Value, opts: RangeOpts)
    ensures var fields := EdgesInfo(interval, indexMin, indexMax, opts).fields;
            && ReadBound(fields, "lowerBound", "lbIncluded") == Some(interval.lower)
            && ReadBound(fields, "upperBound", "ubIncluded") == Some(interval.upper)
  {
    var fields := EdgesInfo(interval, indexMin, indexMax, opts).fields;
    FindAt(fields, "lowerBound", 0);
    FindAt(fields, "lbIncluded", 1);
    FindAt(fields, "upperBound", 2);
    FindAt(fields, "ubIncluded", 3);
  }

  lemma PlaceholderCarriesInterval(interval: Interval, indexMin: Value, indexMax: Value, spec: Spec, s: Settings)
    requires spec.firstOp.Some?
    ensures var info := EdgesInfo(interval, indexMin, indexMax, s.opts);
            ReadInterval(MakePlaceholder(Some(info), spec, s)) == Some(interval)
    ensures ReadInterval(MakePlaceholder(None, spec, s)) == None
  {
    ReadBounds(interval, indexMin, indexMax, s.opts);
    var info := EdgesInfo(interval, indexMin, indexMax, s.opts);
    var doc := MakePlaceholder(Some(info), spec, s).doc.fields;
    FindAt(doc, "v", 4);
    FindAt(doc[4].value.fields, "edgesInfo", 0);
    var stub := MakePlaceholder(None, spec, s).doc.fields;
    FindAt(stub, "v", 4);
    FindNothing(stub[4].value.fields, "edgesInfo");
  }

  /** The interval of a specification denotes the values that satisfy the operators it was parsed from,
      in either order; nothing lies beyond the infinities. */
  lemma IntervalDenotesOperators(compare: (Value, Value) -> int, v: Value, items: seq<Value>)
    requires AcceptedItems(items)
    requires compare(v, NEG_INFINITY) >= 0 && compare(v, INFINITY) <= 0
    ensures InInterval(compare, v, IntervalOf(SpecOf(items))) <==> Matches(compare, v, items)
  {
    if |items| == 1 {
      var a := OperandAt(items, 0).value;
      assert Matches(compare, v, items) <==> Holds(compare, v, a.op, a.value);
    } else if |items| == 2 {
      var a, b := OperandAt(items, 0).value, OperandAt(items, 1).value;
      assert Matches(compare, v, items) <==> Holds(compare, v, a.op, a.value) && Holds(compare, v, b.op, b.value);
    }
  }

  /** The whole rewriting: for every accepted document that is rewritten, the first placeholder of the
      result carries an interval that holds exactly the values satisfying the document's operators, a
      second placeholder carries none, and parsing the result gives the same field, form and operators. */
  lemma RewritingPreservesMeaning(compare: (Value, Value) -> int, v: Value, doc: Value, s: Settings)
    requires Accepted(doc)
    requires compare(v, NEG_INFINITY) >= 0 && compare(v, INFINITY) <= 0
    requires Rewritten(SpecOf(doc.fields[0].value.items), s).Ok?
    ensures var items, out := doc.fields[0].value.items, Rewritten(SpecOf(doc.fields[0].value.items), s).value;
            && Accepted(out)
            && var outItems := out.fields[0].value.items;
            && |outItems| == |items| > 0
            && var first := ReadInterval(OperandAt(outItems, 0).value.value);
            && first.Some? && (InInterval(compare, v, first.value) <==> Matches(compare, v, items))
            && (|items| == 2 ==> ReadInterval(OperandAt(outItems, 1).value.value).None?)
            && SameQuery(SpecOf(items), SpecOf(outItems))
  {
    var items := doc.fields[0].value.items;
    IntervalDenotesOperators(compare, v, items);
    RewrittenShape(items, s);
  }

  /** Same field, form and sequence of operators, hence the same bounds with the same inclusions. */
  predicate SameQuery(a: Spec, b: Spec) {
    && a.field == b.field && a.isAggregate == b.isAggregate
    && a.nOps == b.nOps && a.firstOp == b.firstOp && a.secondOp == b.secondOp
    && a.lower.Some? == b.lower.Some? && a.upper.Some? == b.upper.Some?
    && (a.lower.Some? ==> a.lower.value.included == b.lower.value.included)
    && (a.upper.Some? ==> a.upper.value.included == b.upper.value.included)
  }

  /** An element written for an operand reads back as that operand with the placeholder as its value. */
  lemma ElementReadsBack(o: Operand, aggregate: bool, p: Value)
    requires aggregate ==> CString(o.field) == o.field
    ensures ReadOperand(aggregate, Element(aggregate, o.field, o.op, p)) == Some(Operand(o.field, o.op, p))
  {
  }

  lemma OperandFields(items: seq<Value>, i: nat)
    requires AcceptedItems(items) && i < |items|
    ensures var o := OperandAt(items, i).value;
            if IsAggregate(items) then CString(o.field) == o.field else i == 0 ==> OperatorType(o.field).None?
  {
  }

  /** The list of elements that the rewriting writes, from the operands and the two placeholders. */
  function RewrittenItems(items: seq<Value>, p1: Value, p2: Value): seq<Value>
    requires AcceptedItems(items) && items != []
  {
    var a := OperandAt(items, 0).value;
    var first := Element(IsAggregate(items), a.field, a.op, p1);
    if |items| == 1 then [first]
    else
      var b := OperandAt(items, 1).value;
      [first, Element(IsAggregate(items), a.field, b.op, p2)]
  }

  lemma RewrittenSameForm(items: seq<Value>, p1: Value, p2: Value)
    requires AcceptedItems(items) && items != []
    ensures IsAggregate(RewrittenItems(items, p1, p2)) == IsAggregate(items)
  {
    OperandFields(items, 0);
  }

  lemma RewrittenFirst(items: seq<Value>, p1: Value, p2: Value)
    requires AcceptedItems(items) && items != []
    ensures var a := OperandAt(items, 0).value;
            OperandAt(RewrittenItems(items, p1, p2), 0) == Some(Operand(a.field, a.op, p1))
  {
    OperandFields(items, 0);
    RewrittenSameForm(items, p1, p2);
    ElementReadsBack(OperandAt(items, 0).value, IsAggregate(items), p1);
  }

  lemma RewrittenSecond(items: seq<Value>, p1: Value, p2: Value)
    requires AcceptedItems(items) && |items| == 2
    ensures var b := OperandAt(items, 1).value;
            OperandAt(RewrittenItems(items, p1, p2), 1) == Some(Operand(b.field, b.op, p2))
  {
    OperandFields(items, 1);
    RewrittenSameForm(items, p1, p2);
    ElementReadsBack(OperandAt(items, 1).value, IsAggregate(items), p2);
  }

  /** The rewritten list is accepted and is the same query, whatever the placeholders are. */
  lemma RewrittenIsSameQuery(items: seq<Value>, p1: Value, p2: Value)
    requires AcceptedItems(items) && items != []
    ensures var out := RewrittenItems(items, p1, p2);
            AcceptedItems(out) && |out| == |items| && SameQuery(SpecOf(items), SpecOf(out))
  {
    RewrittenSameForm(items, p1, p2);
    RewrittenFirst(items, p1, p2);
    if |items| == 2 {
      RewrittenSecond(items, p1, p2);
    }
  }

  lemma RewrittenShape(items: seq<Value>, s: Settings)
    requires AcceptedItems(items) && Rewritten(SpecOf(items), s).Ok?
    ensures var spec, out := SpecOf(items), Rewritten(SpecOf(items), s).value;
            && Accepted(out) && |out.fields[0].value.items| == |items| > 0
            && SameQuery(spec, SpecOf(out.fields[0].value.items))
            && ReadInterval(OperandAt(out.fields[0].value.items, 0).value.value) == Some(IntervalOf(spec))
            && (|items| == 2 ==> ReadInterval(OperandAt(out.fields[0].value.items, 1).value.value).None?)
  {
    var spec := SpecOf(items);
    var bound := (if spec.lower.Some? then spec.lower else spec.upper).value.value;
    var indexMin := DomainEnd(s.opts.min, bound, NEG_DBL_MAX, NEG_DEC128_LARGEST).value;
    var indexMax := DomainEnd(s.opts.max, bound, DBL_MAX, DEC128_LARGEST).value;
    var p1 := MakePlaceholder(Some(EdgesInfo(IntervalOf(spec), indexMin, indexMax, s.opts)), spec, s);
    var p2 := MakePlaceholder(None, spec, s);
    PlaceholderCarriesInterval(IntervalOf(spec), indexMin, indexMax, spec, s);
    RewrittenIsSameQuery(items, p1, p2);
    RewrittenFirst(items, p1, p2);
    if |items| == 2 {
      RewrittenSecond(items, p1, p2);
    }
    assert Rewritten(spec, s) == Ok(Document([Field("$and", Array(RewrittenItems(items, p1, p2)))]));
  }

  // ----- what the placeholders carry

  /** The value under a key of a placeholder's document. */
  function FieldOf(placeholder: Value, key: string): Option<Value> {
    if placeholder.Placeholder? && placeholder.doc.Document? then Find(placeholder.doc.fields, key) else None
  }

  function FieldOfDoc(doc: Option<Value>, key: string): Option<Value> {
    if doc.Some? && doc.value.Document? then Find(doc.value.fields, key) else None
  }

  /** The value under a key of its `v` document. */
  function PayloadOf(placeholder: Value, key: string): Option<Value> {
    FieldOfDoc(FieldOf(placeholder, "v"), key)
  }

  /** The value under a key of the `edgesInfo` in it. */
  function EdgesOf(placeholder: Value, key: string): Option<Value> {
    FieldOfDoc(PayloadOf(placeholder, "edgesInfo"), key)
  }

  function IntField(i: Option<int>): Option<Value> {
    if i.Some? then Some(Int32(i.value)) else None
  }

  /** The number of an operator in a payload. */
  predicate IsCode(v: Option<Value>, op: Option<Operator>) {
    match op
    case None => v.None?
    case Some(Gt) => v == Some(Int32(1))
    case Some(Gte) => v == Some(Int32(2))
    case Some(Lt) => v == Some(Int32(3))
    case Some(Lte) => v == Some(Int32(4))
  }

  /** The type and algorithm of the placeholder, the caller's keys, contention factor, sparsity and payload id,
      and the operators of the query. */
  ghost predicate CarriesSettings(p: Value, spec: Spec, s: Settings) {
    && FieldOf(p, "t") == Some(Int32(2)) && FieldOf(p, "a") == Some(Int32(3))
    && FieldOf(p, "ki") == Some(Binary(s.indexKeyId)) && FieldOf(p, "ku") == Some(Binary(s.userKeyId))
    && FieldOf(p, "cm") == Some(Int64(s.maxContention)) && FieldOf(p, "s") == Some(Int64(s.opts.sparsity))
    && PayloadOf(p, "payloadId") == Some(Int32(s.payloadId))
    && IsCode(PayloadOf(p, "firstOperator"), spec.firstOp) && IsCode(PayloadOf(p, "secondOperator"), spec.secondOp)
  }

  lemma PayloadReadsBack(edgesInfo: Option<Value>, spec: Spec, s: Settings)
    requires spec.firstOp.Some?
    ensures var v := PayloadFields(edgesInfo, spec, s);
            && Find(v, "edgesInfo") == edgesInfo && Find(v, "payloadId") == Some(Int32(s.payloadId))
            && IsCode(Find(v, "firstOperator"), spec.firstOp) && IsCode(Find(v, "secondOperator"), spec.secondOp)
  {
    var v, k := PayloadFields(edgesInfo, spec, s), if edgesInfo.Some? then 1 else 0;
    assert "edgesInfo"[0] == 'e' && "payloadId"[0] == 'p' && "firstOperator"[0] == 'f' && "secondOperator"[0] == 's';
    assert v[k].key == "payloadId" && v[k + 1].key == "firstOperator";
    FindAt(v, "payloadId", k);
    FindAt(v, "firstOperator", k + 1);
    if spec.secondOp.Some? {
      assert v[k + 2].key == "secondOperator";
      FindAt(v, "secondOperator", k + 2);
    } else {
      FindNothing(v, "secondOperator");
    }
    if edgesInfo.None? {
      FindNothing(v, "edgesInfo");
    }
  }

  lemma PlaceholderReadsBack(edgesInfo: Option<Value>, spec: Spec, s: Settings)
    requires spec.firstOp.Some?
    ensures var doc := MakePlaceholder(edgesInfo, spec, s).doc.fields;
            && Find(doc, "t") == Some(Int32(2)) && Find(doc, "a") == Some(Int32(3))
            && Find(doc, "ki") == Some(Binary(s.indexKeyId)) && Find(doc, "ku") == Some(Binary(s.userKeyId))
            && Find(doc, "v") == Some(Document(PayloadFields(edgesInfo, spec, s)))
            && Find(doc, "cm") == Some(Int64(s.maxContention)) && Find(doc, "s") == Some(Int64(s.opts.sparsity))
  {
    var doc := MakePlaceholder(edgesInfo, spec, s).doc.fields;
    assert "ki"[1] == 'i' && "ku"[1] == 'u' && "cm"[0] == 'c';
    FindAt(doc, "a", 1);
    FindAt(doc, "ki", 2);
    FindAt(doc, "ku", 3);
    FindAt(doc, "v", 4);
    FindAt(doc, "cm", 5);
    FindAt(doc, "s", 6);
  }

  lemma PlaceholderCarriesSettings(edgesInfo: Option<Value>, spec: Spec, s: Settings)
    requires spec.firstOp.Some?
    ensures CarriesSettings(MakePlaceholder(edgesInfo, spec, s), spec, s)
    ensures PayloadOf(MakePlaceholder(edgesInfo, spec, s), "edgesInfo") == edgesInfo
  {
    PlaceholderReadsBack(edgesInfo, spec, s);
    PayloadReadsBack(edgesInfo, spec, s);
  }

  lemma EdgesInfoReadsBack(interval: Interval, indexMin: Value, indexMax: Value, opts: RangeOpts)
    ensures var info := Some(EdgesInfo(interval, indexMin, indexMax, opts));
            && FieldOfDoc(info, "indexMin") == Some(indexMin) && FieldOfDoc(info, "indexMax") == Some(indexMax)
            && FieldOfDoc(info, "precision") == IntField(opts.precision)
            && FieldOfDoc(info, "trimFactor") == IntField(opts.trimFactor)
  {
    var fields := EdgesInfo(interval, indexMin, indexMax, opts).fields;
    FindAt(fields, "indexMin", 4);
    FindAt(fields, "indexMax", 5);
    if opts.precision.Some? {
      FindAt(fields, "precision", 6);
    } else {
      FindNothing(fields, "precision");
    }
    if opts.trimFactor.Some? {
      FindAt(fields, "trimFactor", if opts.precision.Some? then 7 else 6);
    } else {
      FindNothing(fields, "trimFactor");
    }
  }

  /** The bound whose type is that of the index: the lower one if there is one. */
  function TypedBound(items: seq<Value>): Value
    requires AcceptedItems(items) && items != []
  {
    var a := OperandAt(items, 0).value;
    if IsLower(a.op) || |items| == 1 then a.value else OperandAt(items, 1).value.value
  }

  /** The number of a value's BSON type; a type that is not told apart has a number of its own. */
  function TypeNumber(v: Value): int {
    match v
    case Double(_) => 1
    case Utf8(_) => 2
    case Document(_) => 3
    case Array(_) => 4
    case Binary(_) => 5
    case Placeholder(_) => 5
    case Bool(_) => 8
    case DateTime(_) => 9
    case Int32(_) => 16
    case Int64(_) => 18
    case Decimal128(_, _) => 19
    case Other(tag) => 256 + tag
  }

  /** An end of the domain in a placeholder: the configured one, else that of the floating-point type. */
  ghost predicate IsDomainEnd(end: Option<Value>, configured: Option<Value>, bound: Value, negative: bool) {
    if configured.Some? then end == configured && TypeNumber(configured.value) == TypeNumber(bound)
    else if bound.Double? then end == Some(Double(if negative then 0xFFEF_FFFF_FFFF_FFFF else 0x7FEF_FFFF_FFFF_FFFF))
    else
      bound.Decimal128? && end == Some(Decimal128(if negative then 0xDFFF_ED09_BEAD_87C0 else 0x5FFF_ED09_BEAD_87C0,
                                                  0x378D_8E63_FFFF_FFFF))
  }

  /** An end of the domain exists: configured with the type of the bounds, or theirs is a floating-point type. */
  predicate HasDomainEnd(configured: Option<Value>, bound: Value) {
    if configured.Some? then TypeNumber(configured.value) == TypeNumber(bound) else TypeNumber(bound) in {1, 19}
  }

  lemma DomainEndIff(configured: Option<Value>, bound: Value, double: Value, decimal: Value)
    ensures DomainEnd(configured, bound, double, decimal).Ok? <==> HasDomainEnd(configured, bound)
  {
  }

  ghost predicate CarriesIndex(p: Value, bound: Value, s: Settings) {
    && IsDomainEnd(EdgesOf(p, "indexMin"), s.opts.min, bound, true)
    && IsDomainEnd(EdgesOf(p, "indexMax"), s.opts.max, bound, false)
    && EdgesOf(p, "precision") == IntField(s.opts.precision)
    && EdgesOf(p, "trimFactor") == IntField(s.opts.trimFactor)
  }

  lemma PlaceholderCarriesIndex(
    interval: Interval, indexMin: Value, indexMax: Value, bound: Value, spec: Spec, s: Settings)
    requires spec.firstOp.Some?
    requires DomainEnd(s.opts.min, bound, NEG_DBL_MAX, NEG_DEC128_LARGEST) == Ok(indexMin)
    requires DomainEnd(s.opts.max, bound, DBL_MAX, DEC128_LARGEST) == Ok(indexMax)
    ensures CarriesIndex(MakePlaceholder(Some(EdgesInfo(interval, indexMin, indexMax, s.opts)), spec, s), bound, s)
  {
    PlaceholderCarriesSettings(Some(EdgesInfo(interval, indexMin, indexMax, s.opts)), spec, s);
    EdgesInfoReadsBack(interval, indexMin, indexMax, s.opts);
  }

  /** Both placeholders carry the settings and the operators, and the first one the domain and the options of
      the index. */
  ghost predicate RewrittenCarries(items: seq<Value>, s: Settings, out: seq<Value>)
    requires AcceptedItems(items) && items != []
  {
    && AcceptedItems(out) && |out| == |items|
    && (forall i :: 0 <= i < |out| ==> CarriesSettings(OperandAt(out, i).value.value, SpecOf(items), s))
    && CarriesIndex(OperandAt(out, 0).value.value, TypedBound(items), s)
  }

  /** A missing bound is an included infinity. */
  lemma MissingBounds(items: seq<Value>)
    requires AcceptedItems(items)
    ensures var interval := IntervalOf(SpecOf(items));
            && ((forall i :: 0 <= i < |items| ==> !IsLower(OperandAt(items, i).value.op)) ==>
                  interval.lower == Bound(Double(0xFFF0_0000_0000_0000), true))
            && ((forall i :: 0 <= i < |items| ==> IsLower(OperandAt(items, i).value.op)) ==>
                  interval.upper == Bound(Double(0x7FF0_0000_0000_0000), true))
  {
  }

  /** A query is rewritten exactly when it is not empty and both ends of the index's domain exist. */
  lemma RewrittenIff(items: seq<Value>, s: Settings)
    requires AcceptedItems(items)
    ensures Rewritten(SpecOf(items), s).Ok? <==>
            items != [] && HasDomainEnd(s.opts.min, TypedBound(items)) && HasDomainEnd(s.opts.max, TypedBound(items))
  {
    if items != [] {
      DomainEndIff(s.opts.min, TypedBound(items), NEG_DBL_MAX, NEG_DEC128_LARGEST);
      DomainEndIff(s.opts.max, TypedBound(items), DBL_MAX, DEC128_LARGEST);
    }
  }

  lemma RewritingCarriesSettings(items: seq<Value>, s: Settings)
    requires AcceptedItems(items) && Rewritten(SpecOf(items), s).Ok?
    ensures items != [] && Accepted(Rewritten(SpecOf(items), s).value)
    ensures RewrittenCarries(items, s, Rewritten(SpecOf(items), s).value.fields[0].value.items)
  {
    var spec := SpecOf(items);
    var indexMin := DomainEnd(s.opts.min, TypedBound(items), NEG_DBL_MAX, NEG_DEC128_LARGEST).value;
    var indexMax := DomainEnd(s.opts.max, TypedBound(items), DBL_MAX, DEC128_LARGEST).value;
    var info := EdgesInfo(IntervalOf(spec), indexMin, indexMax, s.opts);
    var p1, p2 := MakePlaceholder(Some(info), spec, s), MakePlaceholder(None, spec, s);
    PlaceholderCarriesSettings(Some(info), spec, s);
    PlaceholderCarriesSettings(None, spec, s);
    PlaceholderCarriesIndex(IntervalOf(spec), indexMin, indexMax, TypedBound(items), spec, s);
    RewrittenIsSameQuery(items, p1, p2);
    RewrittenFirst(items, p1, p2);
    if |items| == 2 {
      RewrittenSecond(items, p1, p2);
    }
    assert Rewritten(spec, s) == Ok(Document([Field("$and", Array(RewrittenItems(items, p1, p2)))]));
  }

  /** Only the first key of an element is read: further keys change nothing. */
  lemma ExtraKeysIgnored(items: seq<Value>, i: nat, extra: seq<Field>)
    requires i < |items| && items[i].Document? && items[i].fields != []
    ensures var wider := items[i := Document(items[i].fields + extra)];
            && (AcceptedItems(wider) <==> AcceptedItems(items))
            && (AcceptedItems(items) ==> SpecOf(wider) == SpecOf(items))
  {
    var wider := items[i := Document(items[i].fields + extra)];
    assert IsAggregate(wider) == IsAggregate(items);
    forall k | 0 <= k < |items|
      ensures OperandAt(wider, k) == OperandAt(items, k)
    {
    }
  }

  // ----- payload ids

  const INT32_MAX: int := 0x7FFF_FFFF

  /** The process-wide counter of payload ids. */
  class PayloadIds {
    var next: nat
    ghost var taken: nat

    ghost predicate Valid()
      reads this
    {
      next == IdAfter(taken)
    }

    constructor ()
      ensures Valid() && taken == 0
    {
      next, taken := 0, 0;
    }

    method Next() returns (id: nat)
      requires Valid()
      modifies this
      ensures Valid() && taken == old(taken) + 1 && id == IdAfter(old(taken))
    {
      id := next;
      next := if next < INT32_MAX then next + 1 else 0;
      taken := taken + 1;
    }
  }

  /** The id handed out after `taken` earlier ones. */
  function IdAfter(taken: nat): nat {
    if taken == 0 then 0 else if IdAfter(taken - 1) < INT32_MAX then IdAfter(taken - 1) + 1 else 0
  }

  /** Ids are int32 values, and two are equal exactly when a multiple of 2^31 separates them: any 2^31
      consecutive ids are distinct. */
  lemma {:induction false} IdsCycle(taken: nat)
    ensures IdAfter(taken) == taken % 0x8000_0000
  {
    if taken > 0 {
      IdsCycle(taken - 1);
    }
  }
}

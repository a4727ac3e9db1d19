/** BSON documents as values. */
module Bson {
  import opened Common

  /** The kinds of element that the modelled code distinguishes. A placeholder is a binary element of the
      encrypted subtype whose first byte marks the document that follows it as a placeholder. */
  datatype Value =
    | Document(fields: seq<Field>)
    | Array(items: seq<Value>)
    | Utf8(text: string)
    | Bool(b: bool)
    | Int32(i: int)
    | Int64(i: int)
    | DateTime(i: int)
    | Double(bits: nat)
    | Decimal128(high: nat, low: nat)
    | Binary(data: bytes)
    | Placeholder(doc: Value)
    | Other(tag: nat)

  datatype Field = Field(key: string, value: Value)

  /** The value of the first field with this key. */
  function Find(fields: seq<Field>, key: string): Option<Value> {
    if fields == [] then None
    else if fields[0].key == key then Some(fields[0].value)
    else Find(fields[1..], key)
  }

  lemma {:induction false} FindNothing(fields: seq<Field>, key: string)
    ensures Find(fields, key).None? <==> forall i :: 0 <= i < |fields| ==> fields[i].key != key
  {
    if fields != [] {
      FindNothing(fields[1..], key);
      assert forall i :: 1 <= i < |fields| ==> fields[i] == fields[1..][i - 1];
      assert forall i :: 0 <= i < |fields| - 1 ==> fields[1..][i] == fields[i + 1];
    }
  }

  lemma {:induction false} FindAt(fields: seq<Field>, key: string, i: nat)
    requires i < |fields| && fields[i].key == key
    requires forall j :: 0 <= j < i ==> fields[j].key != key
    ensures Find(fields, key) == Some(fields[i].value)
  {
    if i > 0 {
      FindAt(fields[1..], key, i - 1);
    }
  }
}

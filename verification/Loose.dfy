/** Untyped values as the wire mappers see them: JSON, plus JavaScript's undefined. */
module Loose {

  /** `Scalar` is a number or a boolean; only zero and false are not truthy. */
  datatype Value =
    | Undefined | Null | Str(text: string) | Scalar(truthy: bool, id: int)
    | List(items: seq<Value>) | Rec(fields: map<string, Value>)

  type Fields = map<string, Value>

  /** An absent key reads as undefined. */
  function Get(r: Fields, key: string): Value { if key in r then r[key] else Undefined }

  /** The fields that can be read off a value: none unless it is a record. */
  function FieldsOf(v: Value): Fields { if v.Rec? then v.fields else map[] }

  function AsArray(v: Value): seq<Value> { if v.List? then v.items else [] }

  predicate Truthy(v: Value) {
    match v
    case Undefined => false
    case Null => false
    case Str(text) => text != ""
    case Scalar(truthy, _) => truthy
    case List(_) => true
    case Rec(_) => true
  }

  /** Undefined-valued keys removed at every depth. */
  function Clean(v: Value): (r: Value)
    ensures r.Undefined? <==> v.Undefined?
  {
    match v
    case List(items) => List(seq(|items|, i requires 0 <= i < |items| => Clean(items[i])))
    case Rec(fields) => Rec(map k | k in fields && !fields[k].Undefined? :: Clean(fields[k]))
    case _ => v
  }

  /** Records that read alike at every key are alike once cleaned. */
  lemma SameReads(a: Fields, b: Fields)
    requires forall k :: Clean(Get(a, k)) == Clean(Get(b, k))
    ensures Clean(Rec(a)) == Clean(Rec(b))
  {
    var x, y := Clean(Rec(a)).fields, Clean(Rec(b)).fields;
    forall k ensures k in x <==> k in y { assert Clean(Get(a, k)) == Clean(Get(b, k)); }
    forall k <- x ensures x[k] == y[k] { assert Clean(Get(a, k)) == Clean(Get(b, k)); }
    assert x == y;
  }

  lemma SameItems(a: seq<Value>, b: seq<Value>)
    requires |a| == |b| && forall i :: 0 <= i < |a| ==> Clean(a[i]) == Clean(b[i])
    ensures Clean(List(a)) == Clean(List(b))
  {
    assert Clean(List(a)).items == Clean(List(b)).items;
  }

  /** Cleaning shows what a record reads. */
  lemma CleanShows(a: Fields, b: Fields, k: string)
    requires Clean(Rec(a)) == Clean(Rec(b))
    ensures Clean(Get(a, k)) == Clean(Get(b, k))
  {
    var x, y := Clean(Rec(a)).fields, Clean(Rec(b)).fields;
    assert x == y;
    assert k in x <==> k in a && !a[k].Undefined?;
    assert k in y <==> k in b && !b[k].Undefined?;
  }
}

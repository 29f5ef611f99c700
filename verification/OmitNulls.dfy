/** Dropping optional nulls before transmission, along protocol structure only. */
module OmitNulls {
  import opened Options

  /** `Scalar` stands for numbers and booleans, which the walk never looks into. */
  datatype Json = Null | Str(text: string) | Scalar(id: int) | Arr(items: seq<Json>) | Obj(fields: map<string, Json>)

  datatype Shape =
    | Ref(name: string)
    | ArrayOf(items: Shape)
    | Object(optional: set<string>, fields: map<string, Shape>)
    | Union(discriminator: string, variants: map<string, string>)

  type Shapes = map<string, Shape>

  predicate IsVariant(name: string, shapes: Shapes) { name in shapes && shapes[name].Object? }

  predicate SoundShape(s: Shape, shapes: Shapes) {
    match s
    case Ref(name) => name in shapes
    case ArrayOf(items) => SoundShape(items, shapes)
    case Object(_, fields) => forall k <- fields :: SoundShape(fields[k], shapes)
    case Union(_, variants) => forall tag <- variants :: IsVariant(variants[tag], shapes)
  }

  /** As the generator builds it: every definition is an object or a union, and its references resolve. */
  ghost predicate SoundShapes(shapes: Shapes) {
    forall name <- shapes ::
      (shapes[name].Object? || shapes[name].Union?) && SoundShape(shapes[name], shapes)
  }

  /** How many indirections may come before a shape's own structure is reached. */
  function Rank(s: Shape, shapes: Shapes): nat {
    match s
    case Object(_, _) => 0
    case ArrayOf(_) => 0
    case Union(_, _) => 2
    case Ref(name) => if name in shapes && shapes[name].Union? then 3 else 1
  }

  function WithoutNulls(o: map<string, Json>, optional: set<string>): map<string, Json> {
    map k | k in o && !(k in optional && o[k].Null?) :: o[k]
  }

  /** The tag picks a variant only if it is a string the union lists. */
  function VariantOf(o: map<string, Json>, s: Shape): Option<string>
    requires s.Union?
  {
    if s.discriminator in o && o[s.discriminator].Str? && o[s.discriminator].text in s.variants
    then Some(s.variants[o[s.discriminator].text]) else None
  }

  function Omit(value: Json, s: Shape, shapes: Shapes): Json
    requires SoundShapes(shapes) && SoundShape(s, shapes)
    decreases value, Rank(s, shapes)
  {
    match s
    case Ref(name) => Omit(value, shapes[name], shapes)
    case ArrayOf(items) =>
      if value.Arr? then
        Arr(seq(|value.items|, i requires 0 <= i < |value.items| => Omit(value.items[i], items, shapes)))
      else value
    case Union(_, _) =>
      if !value.Obj? then value
      else
        var variant := VariantOf(value.fields, s);
        if variant.None? then value else Omit(value, Ref(variant.value), shapes)
    case Object(optional, fields) =>
      if !value.Obj? then value
      else
        var kept := WithoutNulls(value.fields, optional);
        Obj(map k | k in kept :: if k in fields then Omit(kept[k], fields[k], shapes) else kept[k])
  }

  method DeleteNulls(o: map<string, Json>, optional: set<string>) returns (result: map<string, Json>)
    ensures result == WithoutNulls(o, optional)
  {
    result := o;
    var todo := optional;
    while todo != {}
      invariant todo <= optional
      invariant result == WithoutNulls(o, optional - todo)
      decreases todo
    {
      var key :| key in todo;
      todo := todo - {key};
      if key in o && o[key].Null? { result := result - {key}; }
    }
    assert optional - todo == optional;
  }

  /** The walk with its copy: optional nulls are deleted, then nested structure is replaced key by key. */
  method OmitOptionalNulls(value: Json, s: Shape, shapes: Shapes) returns (r: Json)
    requires SoundShapes(shapes) && SoundShape(s, shapes)
    ensures r == Omit(value, s, shapes)
    decreases value, Rank(s, shapes), 1
  {
    match s
    case Ref(name) =>
      r := OmitOptionalNulls(value, shapes[name], shapes);
    case ArrayOf(_) =>
      if !value.Arr? { return value; }
      r := OmitItems(value, s, shapes);
    case Union(_, _) =>
      if !value.Obj? { return value; }
      var variant := VariantOf(value.fields, s);
      if variant.None? { return value; }
      r := OmitOptionalNulls(value, Ref(variant.value), shapes);
    case Object(_, _) =>
      if !value.Obj? { return value; }
      r := OmitFields(value, s, shapes);
  }

  /** The array case: each item in turn. */
  method OmitItems(value: Json, s: Shape, shapes: Shapes) returns (r: Json)
    requires SoundShapes(shapes) && SoundShape(s, shapes) && s.ArrayOf? && value.Arr?
    ensures r == Omit(value, s, shapes)
    decreases value, 0, 0
  {
    hide SoundShapes;
    var out: seq<Json> := [];
    for i := 0 to |value.items|
      invariant |out| == i
      invariant forall j :: 0 <= j < i ==> out[j] == Omit(value.items[j], s.items, shapes)
    {
      var item := OmitOptionalNulls(value.items[i], s.items, shapes);
      out := out + [item];
    }
    r := Arr(out);
  }

  /** The object case: delete, then replace key by key. */
  method OmitFields(value: Json, s: Shape, shapes: Shapes) returns (r: Json)
    requires SoundShapes(shapes) && SoundShape(s, shapes) && s.Object? && value.Obj?
    ensures r == Omit(value, s, shapes)
    decreases value, 0, 0
  {
    hide SoundShapes;
    var result := DeleteNulls(value.fields, s.optional);
    ghost var kept := result;
    var keys := s.fields.Keys;
    while keys != {}
      invariant keys <= s.fields.Keys && result.Keys == kept.Keys
      invariant forall k <- kept ::
        result[k] == if k in s.fields && k !in keys then Omit(kept[k], s.fields[k], shapes) else kept[k]
      decreases keys
    {
      var key :| key in keys;
      keys := keys - {key};
      if key in result {
        var next := OmitOptionalNulls(result[key], s.fields[key], shapes);
        result := result[key := next];
      }
    }
    r := Obj(result);
  }

  // ---------------------------------------------------------------------------
  // Positions
  // ---------------------------------------------------------------------------

  datatype Step = Key(key: string) | Index(index: nat)

  type Path = seq<Step>

  function At(value: Json, path: Path): Option<Json> {
    if path == [] then Some(value)
    else match path[0]
         case Key(k) => if value.Obj? && k in value.fields then At(value.fields[k], path[1..]) else None
         case Index(i) => if value.Arr? && i < |value.items| then At(value.items[i], path[1..]) else None
  }

  /** The object shape that governs an object's keys, if the protocol has one for it. */
  function Layout(o: map<string, Json>, s: Shape, shapes: Shapes): (r: Option<Shape>)
    requires SoundShapes(shapes) && SoundShape(s, shapes)
    ensures r.Some? ==> r.value.Object? && SoundShape(r.value, shapes)
    decreases Rank(s, shapes)
  {
    match s
    case Object(_, _) => Some(s)
    case ArrayOf(_) => None
    case Ref(name) => Layout(o, shapes[name], shapes)
    case Union(_, _) =>
      var name :- VariantOf(o, s);
      Layout(o, Ref(name), shapes)
  }

  /** The path leads along protocol structure to an optional field whose value is null. */
  predicate OptionalNull(value: Json, s: Shape, path: Path, shapes: Shapes)
    requires SoundShapes(shapes) && SoundShape(s, shapes)
    decreases |path|
  {
    if path == [] then false
    else match path[0]
         case Key(k) =>
           if !value.Obj? || k !in value.fields then false
           else
             var layout := Layout(value.fields, s, shapes);
             layout.Some?
             && var o := layout.value;
                || (|path| == 1 && k in o.optional && value.fields[k].Null?)
                || (k in o.fields && OptionalNull(value.fields[k], o.fields[k], path[1..], shapes))
         case Index(i) =>
           value.Arr? && i < |value.items| && s.ArrayOf?
           && OptionalNull(value.items[i], s.items, path[1..], shapes)
  }

  // ---------------------------------------------------------------------------
  // What the walk does at each position
  // ---------------------------------------------------------------------------

  lemma {:induction false} OmitObject(o: map<string, Json>, s: Shape, shapes: Shapes)
    requires SoundShapes(shapes) && SoundShape(s, shapes)
    ensures match Layout(o, s, shapes)
            case None => Omit(Obj(o), s, shapes) == Obj(o)
            case Some(l) =>
              var kept := WithoutNulls(o, l.optional);
              Omit(Obj(o), s, shapes) ==
                Obj(map k | k in kept :: if k in l.fields then Omit(kept[k], l.fields[k], shapes) else kept[k])
    decreases Rank(s, shapes)
  {
    match s
    case Ref(name) => OmitObject(o, shapes[name], shapes);
    case Union(_, _) =>
      var variant := VariantOf(o, s);
      if variant.Some? { OmitObject(o, Ref(variant.value), shapes); }
    case _ =>
  }

  lemma {:induction false} OmitArray(items: seq<Json>, s: Shape, shapes: Shapes)
    requires SoundShapes(shapes) && SoundShape(s, shapes)
    ensures Omit(Arr(items), s, shapes) ==
      if s.ArrayOf?
      then Arr(seq(|items|, i requires 0 <= i < |items| => Omit(items[i], s.items, shapes)))
      else Arr(items)
    decreases Rank(s, shapes)
  {
    match s
    case Ref(name) => OmitArray(items, shapes[name], shapes);
    case _ =>
  }

  lemma {:induction false} OmitLeaf(value: Json, s: Shape, shapes: Shapes)
    requires SoundShapes(shapes) && SoundShape(s, shapes) && !value.Obj? && !value.Arr?
    ensures Omit(value, s, shapes) == value
    decreases Rank(s, shapes)
  {
    match s
    case Ref(name) => OmitLeaf(value, shapes[name], shapes);
    case _ =>
  }

  /** Equal up to what lies below. */
  predicate SameHead(a: Json, b: Json) {
    match a
    case Arr(items) => b.Arr? && |b.items| == |items|
    case Obj(_) => b.Obj?
    case _ => a == b
  }

  ghost predicate PositionKept(before: Option<Json>, after: Option<Json>, dropped: bool) {
    && (after.Some? <==> before.Some? && !dropped)
    && (after.Some? ==> SameHead(before.value, after.value))
  }

  /**
    Position by position: a place survives unless it is an optional null, nothing appears
    that was not there, and what stays is the same scalar or the same kind of container.
   */
  lemma {:induction false} OmitAtEveryPosition(value: Json, s: Shape, path: Path, shapes: Shapes)
    requires SoundShapes(shapes) && SoundShape(s, shapes)
    ensures PositionKept(At(value, path), At(Omit(value, s, shapes), path), OptionalNull(value, s, path, shapes))
    decreases |path|
  {
    hide Layout, SoundShapes, SoundShape, Omit;
    match value
    case Obj(o) =>
      OmitObject(o, s, shapes);
      var layout := Layout(o, s, shapes);
      if path != [] && path[0].Key? && path[0].key in o {
        var k := path[0].key;
        if layout.None? {
          SameBelow(o[k], path[1..]);
        } else if k in WithoutNulls(o, layout.value.optional) {
          if k in layout.value.fields {
            FieldIsSound(layout.value, k, shapes);
            OmitAtEveryPosition(o[k], layout.value.fields[k], path[1..], shapes);
          } else {
            SameBelow(o[k], path[1..]);
          }
        }
      }
    case Arr(items) =>
      OmitArray(items, s, shapes);
      if path != [] && path[0].Index? && path[0].index < |items| {
        var i := path[0].index;
        if s.ArrayOf? {
          ItemIsSound(s, shapes);
          OmitAtEveryPosition(items[i], s.items, path[1..], shapes);
        } else {
          SameBelow(items[i], path[1..]);
        }
      }
    case _ => OmitLeaf(value, s, shapes);
  }

  lemma FieldIsSound(s: Shape, k: string, shapes: Shapes)
    requires SoundShape(s, shapes) && s.Object? && k in s.fields
    ensures SoundShape(s.fields[k], shapes)
  {
  }

  lemma ItemIsSound(s: Shape, shapes: Shapes)
    requires SoundShape(s, shapes) && s.ArrayOf?
    ensures SoundShape(s.items, shapes)
  {
  }

  lemma SameBelow(value: Json, path: Path)
    ensures PositionKept(At(value, path), At(value, path), false)
  {
  }

  // ---------------------------------------------------------------------------
  // Clean values
  // ---------------------------------------------------------------------------

  /** No optional null anywhere along the protocol structure. */
  ghost predicate Clean(value: Json, s: Shape, shapes: Shapes)
    requires SoundShapes(shapes) && SoundShape(s, shapes)
  {
    forall path :: !OptionalNull(value, s, path, shapes)
  }

  /** The object is still recognised as what it was: the tag is a string, which is neither dropped nor rewritten. */
  lemma {:induction false} LayoutKept(o: map<string, Json>, s: Shape, shapes: Shapes)
    requires SoundShapes(shapes) && SoundShape(s, shapes)
    ensures Omit(Obj(o), s, shapes).Obj?
    ensures Layout(Omit(Obj(o), s, shapes).fields, s, shapes) == Layout(o, s, shapes)
    decreases Rank(s, shapes)
  {
    OmitObject(o, s, shapes);
    match s
    case Ref(name) => LayoutKept(o, shapes[name], shapes);
    case Union(d, variants) =>
      var variant := VariantOf(o, s);
      if variant.Some? {
        assert IsVariant(variants[o[d].text], shapes);
        var l := shapes[variant.value];
        if d in l.fields { OmitLeaf(o[d], l.fields[d], shapes); }
        LayoutKept(o, Ref(variant.value), shapes);
      }
    case _ =>
  }

  /** The result holds no optional null. */
  lemma {:induction false} OmitLeavesNone(value: Json, s: Shape, path: Path, shapes: Shapes)
    requires SoundShapes(shapes) && SoundShape(s, shapes)
    ensures !OptionalNull(Omit(value, s, shapes), s, path, shapes)
    decreases |path|
  {
    hide Layout, SoundShapes, SoundShape, Omit;
    match value
    case Obj(o) =>
      OmitObject(o, s, shapes);
      LayoutKept(o, s, shapes);
      var r, layout := Omit(value, s, shapes), Layout(o, s, shapes);
      if path != [] && path[0].Key? && path[0].key in r.fields && layout.Some? {
        var k := path[0].key;
        if k in layout.value.fields {
          FieldIsSound(layout.value, k, shapes);
          OmitLeavesNone(o[k], layout.value.fields[k], path[1..], shapes);
          OmitNull(o[k], layout.value.fields[k], shapes);
        }
      }
    case Arr(items) =>
      OmitArray(items, s, shapes);
      if path != [] && path[0].Index? && path[0].index < |items| && s.ArrayOf? {
        ItemIsSound(s, shapes);
        OmitLeavesNone(items[path[0].index], s.items, path[1..], shapes);
      }
    case _ => OmitLeaf(value, s, shapes);
  }

  lemma OmitNull(value: Json, s: Shape, shapes: Shapes)
    requires SoundShapes(shapes) && SoundShape(s, shapes)
    ensures Omit(value, s, shapes).Null? <==> value.Null?
  {
    hide Omit, Layout, SoundShapes, SoundShape;
    match value
    case Obj(o) => OmitObject(o, s, shapes);
    case Arr(items) => OmitArray(items, s, shapes);
    case _ => OmitLeaf(value, s, shapes);
  }

  lemma ChildIsClean(o: map<string, Json>, s: Shape, k: string, shapes: Shapes)
    requires SoundShapes(shapes) && SoundShape(s, shapes) && Clean(Obj(o), s, shapes)
    requires Layout(o, s, shapes).Some? && k in o
    ensures !(k in Layout(o, s, shapes).value.optional && o[k].Null?)
    ensures k in Layout(o, s, shapes).value.fields ==>
      SoundShape(Layout(o, s, shapes).value.fields[k], shapes)
      && Clean(o[k], Layout(o, s, shapes).value.fields[k], shapes)
  {
    hide Layout, SoundShapes, SoundShape;
    var l := Layout(o, s, shapes).value;
    assert !OptionalNull(Obj(o), s, [Key(k)], shapes);
    if k in l.fields {
      FieldIsSound(l, k, shapes);
      forall path ensures !OptionalNull(o[k], l.fields[k], path, shapes) {
        var longer := [Key(k)] + path;
        assert longer[1..] == path;
        assert !OptionalNull(Obj(o), s, longer, shapes);
      }
    }
  }

  lemma ItemIsClean(items: seq<Json>, s: Shape, i: nat, shapes: Shapes)
    requires SoundShapes(shapes) && SoundShape(s, shapes) && Clean(Arr(items), s, shapes)
    requires s.ArrayOf? && i < |items|
    ensures SoundShape(s.items, shapes) && Clean(items[i], s.items, shapes)
  {
    hide Layout, SoundShapes, SoundShape;
    ItemIsSound(s, shapes);
    forall path ensures !OptionalNull(items[i], s.items, path, shapes) {
      var longer := [Index(i)] + path;
      assert longer[1..] == path;
      assert !OptionalNull(Arr(items), s, longer, shapes);
    }
  }

  /** A clean value is returned as it is. */
  lemma {:induction false} CleanIsUntouched(value: Json, s: Shape, shapes: Shapes)
    requires SoundShapes(shapes) && SoundShape(s, shapes) && Clean(value, s, shapes)
    ensures Omit(value, s, shapes) == value
    decreases value
  {
    hide Layout, SoundShapes, SoundShape, Omit, Clean;
    match value
    case Obj(o) =>
      OmitObject(o, s, shapes);
      var layout := Layout(o, s, shapes);
      if layout.Some? {
        var l := layout.value;
        forall k <- o
          ensures !(k in l.optional && o[k].Null?)
          ensures k in l.fields ==> SoundShape(l.fields[k], shapes) && Omit(o[k], l.fields[k], shapes) == o[k]
        {
          ChildIsClean(o, s, k, shapes);
          if k in l.fields { CleanIsUntouched(o[k], l.fields[k], shapes); }
        }
        assert WithoutNulls(o, l.optional) == o;
      }
    case Arr(items) =>
      OmitArray(items, s, shapes);
      if s.ArrayOf? {
        forall i | 0 <= i < |items|
          ensures SoundShape(s.items, shapes) && Omit(items[i], s.items, shapes) == items[i]
        {
          ItemIsClean(items, s, i, shapes);
          CleanIsUntouched(items[i], s.items, shapes);
        }
      }
    case _ => OmitLeaf(value, s, shapes);
  }

  /** Omitting gives a clean value, and omitting again changes nothing. */
  lemma OmitIsIdempotent(value: Json, s: Shape, shapes: Shapes)
    requires SoundShapes(shapes) && SoundShape(s, shapes)
    ensures Clean(Omit(value, s, shapes), s, shapes)
    ensures Omit(Omit(value, s, shapes), s, shapes) == Omit(value, s, shapes)
  {
    hide Omit, SoundShapes, SoundShape, OptionalNull;
    forall path ensures !OptionalNull(Omit(value, s, shapes), s, path, shapes) {
      OmitLeavesNone(value, s, path, shapes);
    }
    CleanIsUntouched(Omit(value, s, shapes), s, shapes);
  }
}

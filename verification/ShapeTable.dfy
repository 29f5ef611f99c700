/** Building the table of shapes that null omission walks, from the schema's definitions. */
module ShapeTable {
  import opened Options
  import opened OmitNulls

  /** `Plain` is a string, integer, boolean or inline enum; `Opaque` is arbitrary JSON or an open map. */
  datatype Type =
    | Plain | Opaque | Literal(value: string) | Reference(name: string) | List(items: Type) | Either(members: seq<Type>)

  datatype Field = Field(type_: Type, required: bool)

  datatype Definition =
    | Alias(target: Type) | Enum | Record(fields: map<string, Field>)
    | Choice(discriminator: Option<string>, members: seq<string>)

  type Definitions = map<string, Definition>

  /** Dependency order: where a definition stands in the model. */
  type Rank = map<string, nat>

  /** Every definition the type names stands before `bound`. */
  predicate NamesBelow(t: Type, defs: Definitions, rank: Rank, bound: nat) {
    match t
    case Reference(name) => name in defs && name in rank && rank[name] < bound
    case List(items) => NamesBelow(items, defs, rank, bound)
    case Either(members) => forall m <- members :: NamesBelow(m, defs, rank, bound)
    case _ => true
  }

  /** The model is ordered: a definition names only earlier ones. */
  ghost predicate Ordered(defs: Definitions, rank: Rank) {
    forall name <- defs ::
      && name in rank
      && match defs[name]
         case Alias(target) => NamesBelow(target, defs, rank, rank[name])
         case Enum => true
         case Record(fields) => forall k <- fields :: NamesBelow(fields[k].type_, defs, rank, rank[name])
         case Choice(_, members) => forall m <- members :: m in defs
  }

  /** No structure to walk, a shape, or the generator's error. */
  datatype Outcome = Leaf | Walked(shape: Shape) | Refused

  predicate IsScalar(t: Type, defs: Definitions, rank: Rank, bound: nat)
    requires Ordered(defs, rank) && NamesBelow(t, defs, rank, bound)
    decreases bound, t
  {
    match t
    case Reference(name) =>
      defs[name].Enum? || (defs[name].Alias? && IsScalar(defs[name].target, defs, rank, rank[name]))
    case Plain => true
    case Literal(_) => true
    case _ => false
  }

  function ShapeOfType(t: Type, defs: Definitions, rank: Rank, bound: nat): Outcome
    requires Ordered(defs, rank) && NamesBelow(t, defs, rank, bound)
    decreases bound, t
  {
    match t
    case Reference(name) =>
      (match defs[name]
       case Alias(target) => ShapeOfType(target, defs, rank, rank[name])
       case Enum => Leaf
       case _ => Walked(Ref(name)))
    case List(items) =>
      var inner := ShapeOfType(items, defs, rank, bound);
      if inner.Walked? then Walked(ArrayOf(inner.shape)) else inner
    case Either(members) =>
      OfUnion(members, seq(|members|, i requires 0 <= i < |members| => ShapeOfType(members[i], defs, rank, bound)),
              defs, rank, bound)
    case _ => Leaf
  }

  /** An inline union: at most one member to walk, a list, and only scalars beside it. */
  function OfUnion(members: seq<Type>, shapes: seq<Outcome>, defs: Definitions, rank: Rank, bound: nat): Outcome
    requires Ordered(defs, rank) && NamesBelow(Either(members), defs, rank, bound) && |shapes| == |members|
  {
    var arms := Arms(shapes);
    if Refused in shapes || |arms| > 1 then Refused
    else if arms == [] then Leaf
    else if arms[0].Ref? then Refused
    else if exists i :: 0 <= i < |members| && shapes[i].Leaf? && !IsScalar(members[i], defs, rank, bound)
    then Refused
    else Walked(arms[0])
  }

  function Arms(shapes: seq<Outcome>): (r: seq<Shape>)
    ensures forall s <- r :: Walked(s) in shapes
  {
    if shapes == [] then []
    else (if shapes[0].Walked? then [shapes[0].shape] else []) + Arms(shapes[1..])
  }

  /** Each member's tag, and the member it selects; None where a member has no literal discriminator. */
  function Variants(members: seq<string>, discriminator: string, defs: Definitions): Option<map<string, string>>
    requires forall m <- members :: m in defs
  {
    if members == [] then Some(map[])
    else
      var k := |members| - 1;
      var before :- Variants(members[..k], discriminator, defs);
      assert members[k] in members;
      match defs[members[k]]
      case Record(fields) =>
        if discriminator in fields && fields[discriminator].type_.Literal?
        then Some(before[fields[discriminator].type_.value := members[k]]) else None
      case _ => None
  }

  function ShapeOfDefinition(name: string, defs: Definitions, rank: Rank): Outcome
    requires Ordered(defs, rank) && name in defs
  {
    match defs[name]
    case Record(fields) =>
      if exists k <- fields :: ShapeOfType(fields[k].type_, defs, rank, rank[name]).Refused? then Refused
      else Walked(Object(
        set k | k in fields && !fields[k].required,
        map k | k in fields && ShapeOfType(fields[k].type_, defs, rank, rank[name]).Walked? ::
          ShapeOfType(fields[k].type_, defs, rank, rank[name]).shape))
    case Choice(discriminator, members) =>
      if discriminator.None? then Refused
      else
        var variants := Variants(members, discriminator.value, defs);
        if variants.None? then Refused else Walked(Union(discriminator.value, variants.value))
    case _ => Leaf
  }

  /** The table; None where the generator throws. */
  function BuildShapes(defs: Definitions, rank: Rank): Option<Shapes>
    requires Ordered(defs, rank)
  {
    if exists name <- defs :: ShapeOfDefinition(name, defs, rank).Refused? then None
    else Some(map name | name in defs && ShapeOfDefinition(name, defs, rank).Walked? ::
                ShapeOfDefinition(name, defs, rank).shape)
  }

  // ---------------------------------------------------------------------------
  // The table is sound
  // ---------------------------------------------------------------------------

  /** The table has every record and every choice. */
  lemma TableHolds(defs: Definitions, rank: Rank, name: string)
    requires Ordered(defs, rank) && BuildShapes(defs, rank).Some? && name in defs
    ensures var shapes := BuildShapes(defs, rank).value;
      && (defs[name].Record? || defs[name].Choice? ==> name in shapes)
      && (defs[name].Record? ==> shapes[name].Object?)
  {
    hide ShapeOfType, Variants;
    assert !ShapeOfDefinition(name, defs, rank).Refused?;
  }

  lemma {:induction false} TypeIsSound(t: Type, defs: Definitions, rank: Rank, bound: nat)
    requires Ordered(defs, rank) && BuildShapes(defs, rank).Some? && NamesBelow(t, defs, rank, bound)
    requires ShapeOfType(t, defs, rank, bound).Walked?
    ensures SoundShape(ShapeOfType(t, defs, rank, bound).shape, BuildShapes(defs, rank).value)
    decreases bound, t
  {
    hide BuildShapes;
    match t
    case Reference(name) =>
      if defs[name].Alias? { TypeIsSound(defs[name].target, defs, rank, rank[name]); }
      else { TableHolds(defs, rank, name); }
    case List(items) => TypeIsSound(items, defs, rank, bound);
    case Either(members) =>
      var shapes := seq(|members|, i requires 0 <= i < |members| => ShapeOfType(members[i], defs, rank, bound));
      var arms := Arms(shapes);
      assert arms[0] in arms;
      var i :| 0 <= i < |members| && shapes[i] == Walked(arms[0]);
      TypeIsSound(members[i], defs, rank, bound);
    case _ =>
  }

  lemma {:induction false} VariantsAreSound(members: seq<string>, discriminator: string, defs: Definitions, rank: Rank)
    requires Ordered(defs, rank) && BuildShapes(defs, rank).Some? && forall m <- members :: m in defs
    requires Variants(members, discriminator, defs).Some?
    ensures var variants := Variants(members, discriminator, defs).value;
      forall tag <- variants :: IsVariant(variants[tag], BuildShapes(defs, rank).value)
  {
    hide BuildShapes, Ordered;
    if members != [] {
      var k := |members| - 1;
      assert members[k] in members;
      VariantsAreSound(members[..k], discriminator, defs, rank);
      TableHolds(defs, rank, members[k]);
    }
  }

  /** Whatever table the generator builds is one that omission is proved on. */
  lemma BuiltShapesAreSound(defs: Definitions, rank: Rank)
    requires Ordered(defs, rank) && BuildShapes(defs, rank).Some?
    ensures SoundShapes(BuildShapes(defs, rank).value)
  {
    var shapes := BuildShapes(defs, rank).value;
    forall name <- shapes
      ensures (shapes[name].Object? || shapes[name].Union?) && SoundShape(shapes[name], shapes)
    {
      assert shapes[name] == ShapeOfDefinition(name, defs, rank).shape;
      DefinitionIsSound(name, defs, rank);
    }
  }

  lemma DefinitionIsSound(name: string, defs: Definitions, rank: Rank)
    requires Ordered(defs, rank) && BuildShapes(defs, rank).Some? && name in defs
    requires ShapeOfDefinition(name, defs, rank).Walked?
    ensures var s := ShapeOfDefinition(name, defs, rank).shape;
      (s.Object? || s.Union?) && SoundShape(s, BuildShapes(defs, rank).value)
  {
    hide BuildShapes, ShapeOfType, Variants;
    match defs[name]
    case Record(fields) =>
      forall k <- fields | ShapeOfType(fields[k].type_, defs, rank, rank[name]).Walked?
        ensures SoundShape(ShapeOfType(fields[k].type_, defs, rank, rank[name]).shape, BuildShapes(defs, rank).value)
      {
        TypeIsSound(fields[k].type_, defs, rank, rank[name]);
      }
    case Choice(discriminator, members) => VariantsAreSound(members, discriminator.value, defs, rank);
    case _ =>
  }
}

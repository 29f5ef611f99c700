/** Null omission judged by the schema: which nulls go, without speaking of the table that is built in between. */
module SchemaOmission {
  import opened Options
  import opened OmitNulls
  import opened ShapeTable

  // ---------------------------------------------------------------------------
  // What the schema says of a position
  // ---------------------------------------------------------------------------

  /** The member is the last one whose discriminator is the object's tag. */
  ghost predicate Selected(o: map<string, Json>, d: string, members: seq<string>, m: string, defs: Definitions) {
    && d in o && o[d].Str?
    && exists i :: 0 <= i < |members| && members[i] == m && Tagged(m, d, o[d].text, defs)
                   && forall j :: i < j < |members| ==> !Tagged(members[j], d, o[d].text, defs)
  }

  /** The definition is a record whose field `d` is the literal `tag`. */
  predicate Tagged(m: string, d: string, tag: string, defs: Definitions) {
    m in defs && defs[m].Record? && d in defs[m].fields && defs[m].fields[d].type_ == Literal(tag)
  }

  /** A value of a record type: the path goes to a field that is not required and is null, or on through a field. */
  ghost predicate DroppedInRecord(value: Json, name: string, path: Path, defs: Definitions, rank: ShapeTable.Rank)
    requires Ordered(defs, rank) && name in defs && defs[name].Record?
    decreases |path|, 0
  {
    && path != [] && path[0].Key? && value.Obj? && path[0].key in value.fields && path[0].key in defs[name].fields
    && var field, child := defs[name].fields[path[0].key], value.fields[path[0].key];
       || (|path| == 1 && !field.required && child.Null?)
       || DroppedAt(child, field.type_, path[1..], defs, rank, rank[name])
  }

  /**
    The schema reaches the position, from a value of type `t`, as a field that is not required; and a null
    is there.
   */
  ghost predicate DroppedAt(
    value: Json, t: Type, path: Path, defs: Definitions, rank: ShapeTable.Rank, bound: nat)
    requires Ordered(defs, rank) && NamesBelow(t, defs, rank, bound)
    decreases |path|, 1, bound, t
  {
    match t
    case Reference(name) =>
      (match defs[name]
       case Alias(target) => DroppedAt(value, target, path, defs, rank, rank[name])
       case Enum => false
       case Record(_) => DroppedInRecord(value, name, path, defs, rank)
       case Choice(d, members) =>
         d.Some? && value.Obj?
         && exists m <- members :: Selected(value.fields, d.value, members, m, defs)
                                   && DroppedInRecord(value, m, path, defs, rank))
    case List(items) =>
      path != [] && path[0].Index? && value.Arr? && path[0].index < |value.items|
      && DroppedAt(value.items[path[0].index], items, path[1..], defs, rank, bound)
    case Either(members) => exists m <- members :: DroppedAt(value, m, path, defs, rank, bound)
    case _ => false
  }

  // ---------------------------------------------------------------------------
  // Which schemas are refused
  // ---------------------------------------------------------------------------

  /** The type behind a chain of aliases. */
  function Resolved(t: Type, defs: Definitions, rank: ShapeTable.Rank, bound: nat): (r: Type)
    requires Ordered(defs, rank) && NamesBelow(t, defs, rank, bound)
    ensures r.Reference? ==> r.name in defs && !defs[r.name].Alias?
    decreases bound
  {
    if t.Reference? && defs[t.name].Alias? then Resolved(defs[t.name].target, defs, rank, rank[t.name]) else t
  }

  /** A string, number, boolean, literal or enumeration. */
  predicate Flat(t: Type, defs: Definitions, rank: ShapeTable.Rank, bound: nat)
    requires Ordered(defs, rank) && NamesBelow(t, defs, rank, bound)
  {
    var u := Resolved(t, defs, rank, bound);
    u.Plain? || u.Literal? || (u.Reference? && defs[u.name].Enum?)
  }

  /** Values of the type can hold fields of the protocol. */
  ghost predicate Structured(t: Type, defs: Definitions, rank: ShapeTable.Rank, bound: nat)
    requires Ordered(defs, rank) && NamesBelow(t, defs, rank, bound)
    decreases bound, t
  {
    match t
    case Reference(name) =>
      if defs[name].Alias? then Structured(defs[name].target, defs, rank, rank[name]) else !defs[name].Enum?
    case List(items) => Structured(items, defs, rank, bound)
    case Either(members) => exists m <- members :: Structured(m, defs, rank, bound)
    case _ => false
  }

  /** Of a structured type: its structure is that of a list, not of one object. */
  ghost predicate ListLike(t: Type, defs: Definitions, rank: ShapeTable.Rank, bound: nat)
    requires Ordered(defs, rank) && NamesBelow(t, defs, rank, bound)
    decreases bound, t
  {
    match t
    case Reference(name) => defs[name].Alias? && ListLike(defs[name].target, defs, rank, rank[name])
    case List(_) => true
    case Either(members) => exists m <- members :: Structured(m, defs, rank, bound) && ListLike(m, defs, rank, bound)
    case _ => false
  }

  /** An inline union that would need a discriminator: two structured members, an object, or one beside opaque data. */
  ghost predicate Ambiguous(members: seq<Type>, defs: Definitions, rank: ShapeTable.Rank, bound: nat)
    requires Ordered(defs, rank) && NamesBelow(Either(members), defs, rank, bound)
  {
    exists i :: 0 <= i < |members| && Structured(members[i], defs, rank, bound) &&
      (|| !ListLike(members[i], defs, rank, bound)
       || exists j :: 0 <= j < |members| && j != i && !Flat(members[j], defs, rank, bound))
  }

  ghost predicate HasAmbiguous(t: Type, defs: Definitions, rank: ShapeTable.Rank, bound: nat)
    requires Ordered(defs, rank) && NamesBelow(t, defs, rank, bound)
    decreases bound, t
  {
    match t
    case Reference(name) => defs[name].Alias? && HasAmbiguous(defs[name].target, defs, rank, rank[name])
    case List(items) => HasAmbiguous(items, defs, rank, bound)
    case Either(members) =>
      Ambiguous(members, defs, rank, bound) || exists m <- members :: HasAmbiguous(m, defs, rank, bound)
    case _ => false
  }

  // ---------------------------------------------------------------------------
  // The table builder agrees
  // ---------------------------------------------------------------------------

  lemma {:induction false} FlatIsScalar(t: Type, defs: Definitions, rank: ShapeTable.Rank, bound: nat)
    requires Ordered(defs, rank) && NamesBelow(t, defs, rank, bound)
    ensures IsScalar(t, defs, rank, bound) <==> Flat(t, defs, rank, bound)
    ensures Flat(t, defs, rank, bound) ==> !Structured(t, defs, rank, bound)
    decreases bound
  {
    if t.Reference? && defs[t.name].Alias? {
      FlatIsScalar(defs[t.name].target, defs, rank, rank[t.name]);
    }
  }

  ghost predicate Agrees(o: Outcome, t: Type, defs: Definitions, rank: ShapeTable.Rank, bound: nat)
    requires Ordered(defs, rank) && NamesBelow(t, defs, rank, bound)
  {
    && (o.Refused? <==> HasAmbiguous(t, defs, rank, bound))
    && (o.Walked? <==> !o.Refused? && Structured(t, defs, rank, bound))
    && (o.Walked? ==> (o.shape.Ref? || o.shape.ArrayOf?) && (o.shape.ArrayOf? <==> ListLike(t, defs, rank, bound)))
  }

  lemma ArmsAre(shapes: seq<Outcome>)
    ensures Arms(shapes) == [] <==> forall i :: 0 <= i < |shapes| ==> !shapes[i].Walked?
    ensures |Arms(shapes)| == 1 ==>
      exists i :: 0 <= i < |shapes| && shapes[i] == Walked(Arms(shapes)[0])
                  && forall j :: 0 <= j < |shapes| && j != i ==> !shapes[j].Walked?
    ensures |Arms(shapes)| > 1 ==>
      exists i, j :: 0 <= i < j < |shapes| && shapes[i].Walked? && shapes[j].Walked?
  {
    if shapes != [] {
      var rest := shapes[1..];
      ArmsAre(rest);
      assert forall i :: 1 <= i < |shapes| ==> shapes[i] == rest[i - 1];
      if shapes[0].Walked? && Arms(rest) != [] {
        var i :| 0 <= i < |rest| && rest[i].Walked?;
        assert shapes[0].Walked? && shapes[i + 1].Walked?;
      } else if !shapes[0].Walked? && |Arms(rest)| > 1 {
        var i, j :| 0 <= i < j < |rest| && rest[i].Walked? && rest[j].Walked?;
        assert shapes[i + 1].Walked? && shapes[j + 1].Walked?;
      } else if !shapes[0].Walked? && |Arms(rest)| == 1 {
        var i :| 0 <= i < |rest| && rest[i] == Walked(Arms(rest)[0])
                 && forall j :: 0 <= j < |rest| && j != i ==> !rest[j].Walked?;
        assert shapes[i + 1] == Walked(Arms(shapes)[0]);
      }
    }
  }

  /** A type is refused, walked or a leaf exactly as the schema has it. */
  lemma {:induction false} TypeAgrees(t: Type, defs: Definitions, rank: ShapeTable.Rank, bound: nat)
    requires Ordered(defs, rank) && NamesBelow(t, defs, rank, bound)
    ensures Agrees(ShapeOfType(t, defs, rank, bound), t, defs, rank, bound)
    decreases bound, t
  {
    match t
    case Reference(name) =>
      if defs[name].Alias? { TypeAgrees(defs[name].target, defs, rank, rank[name]); }
    case List(items) => TypeAgrees(items, defs, rank, bound);
    case Either(members) =>
      forall m <- members ensures Agrees(ShapeOfType(m, defs, rank, bound), m, defs, rank, bound) {
        TypeAgrees(m, defs, rank, bound);
      }
      UnionAgrees(members, defs, rank, bound);
    case _ =>
  }

  /** What is known of each member. */
  ghost predicate MembersAgree(
    members: seq<Type>, shapes: seq<Outcome>, defs: Definitions, rank: ShapeTable.Rank, bound: nat)
    requires Ordered(defs, rank) && NamesBelow(Either(members), defs, rank, bound) && |shapes| == |members|
  {
    forall i :: 0 <= i < |members| ==>
      && Agrees(shapes[i], members[i], defs, rank, bound)
      && (IsScalar(members[i], defs, rank, bound) <==> Flat(members[i], defs, rank, bound))
      && (Flat(members[i], defs, rank, bound) ==> !Structured(members[i], defs, rank, bound))
  }

  lemma UnionAgrees(members: seq<Type>, defs: Definitions, rank: ShapeTable.Rank, bound: nat)
    requires Ordered(defs, rank) && NamesBelow(Either(members), defs, rank, bound)
    requires forall m <- members :: Agrees(ShapeOfType(m, defs, rank, bound), m, defs, rank, bound)
    ensures Agrees(ShapeOfType(Either(members), defs, rank, bound), Either(members), defs, rank, bound)
  {
    hide Agrees, OfUnion, Structured, IsScalar, Flat;
    var shapes := seq(|members|, i requires 0 <= i < |members| => ShapeOfType(members[i], defs, rank, bound));
    forall i | 0 <= i < |members|
      ensures Agrees(shapes[i], members[i], defs, rank, bound)
      ensures IsScalar(members[i], defs, rank, bound) <==> Flat(members[i], defs, rank, bound)
      ensures Flat(members[i], defs, rank, bound) ==> !Structured(members[i], defs, rank, bound)
    {
      assert members[i] in members;
      FlatIsScalar(members[i], defs, rank, bound);
    }
    assert MembersAgree(members, shapes, defs, rank, bound);
    OutcomeAgrees(members, shapes, defs, rank, bound);
  }

  lemma EitherIs(members: seq<Type>, defs: Definitions, rank: ShapeTable.Rank, bound: nat)
    requires Ordered(defs, rank) && NamesBelow(Either(members), defs, rank, bound)
    ensures Structured(Either(members), defs, rank, bound) <==>
      exists i :: 0 <= i < |members| && Structured(members[i], defs, rank, bound)
    ensures ListLike(Either(members), defs, rank, bound) <==>
      exists i :: 0 <= i < |members| && Structured(members[i], defs, rank, bound)
                  && ListLike(members[i], defs, rank, bound)
    ensures HasAmbiguous(Either(members), defs, rank, bound) <==>
      Ambiguous(members, defs, rank, bound)
      || exists i :: 0 <= i < |members| && HasAmbiguous(members[i], defs, rank, bound)
  {
    hide Ambiguous;
    assert forall i :: 0 <= i < |members| ==> members[i] in members;
  }

  lemma OutcomeAgrees(
    members: seq<Type>, shapes: seq<Outcome>, defs: Definitions, rank: ShapeTable.Rank, bound: nat)
    requires Ordered(defs, rank) && NamesBelow(Either(members), defs, rank, bound) && |shapes| == |members|
    requires MembersAgree(members, shapes, defs, rank, bound)
    ensures Agrees(OfUnion(members, shapes, defs, rank, bound), Either(members), defs, rank, bound)
  {
    hide Structured, ListLike, HasAmbiguous, Flat, IsScalar, Arms, Ordered, Ambiguous;
    ArmsAre(shapes);
    var arms := Arms(shapes);
    if Refused in shapes || |arms| > 1 {
      RefusalAgrees(members, shapes, defs, rank, bound);
    } else {
      EitherIs(members, defs, rank, bound);
      if arms == [] {
        NoArmAgrees(members, shapes, defs, rank, bound);
      } else {
        var i :| 0 <= i < |shapes| && shapes[i] == Walked(arms[0])
                 && forall j :: 0 <= j < |shapes| && j != i ==> !shapes[j].Walked?;
        OneArmAgrees(members, shapes, i, defs, rank, bound);
      }
    }
  }

  lemma RefusalAgrees(
    members: seq<Type>, shapes: seq<Outcome>, defs: Definitions, rank: ShapeTable.Rank, bound: nat)
    requires Ordered(defs, rank) && NamesBelow(Either(members), defs, rank, bound) && |shapes| == |members|
    requires MembersAgree(members, shapes, defs, rank, bound) && (Refused in shapes || |Arms(shapes)| > 1)
    ensures HasAmbiguous(Either(members), defs, rank, bound)
  {
    hide Structured, ListLike, HasAmbiguous, Flat, IsScalar, Arms, Ordered;
    EitherIs(members, defs, rank, bound);
    ArmsAre(shapes);
    if Refused in shapes {
      var i :| 0 <= i < |shapes| && shapes[i] == Refused;
      assert HasAmbiguous(members[i], defs, rank, bound);
    } else {
      var i, j :| 0 <= i < j < |shapes| && shapes[i].Walked? && shapes[j].Walked?;
      assert Structured(members[i], defs, rank, bound) && !Flat(members[j], defs, rank, bound);
    }
  }

  lemma NoArmAgrees(
    members: seq<Type>, shapes: seq<Outcome>, defs: Definitions, rank: ShapeTable.Rank, bound: nat)
    requires Ordered(defs, rank) && NamesBelow(Either(members), defs, rank, bound) && |shapes| == |members|
    requires MembersAgree(members, shapes, defs, rank, bound) && Refused !in shapes
    requires forall i :: 0 <= i < |shapes| ==> !shapes[i].Walked?
    ensures forall i :: 0 <= i < |members| ==>
      !Structured(members[i], defs, rank, bound) && !HasAmbiguous(members[i], defs, rank, bound)
    ensures !Ambiguous(members, defs, rank, bound)
  {
    hide Structured, ListLike, HasAmbiguous, Flat, IsScalar, Arms, Ordered;
    forall i | 0 <= i < |members|
      ensures !Structured(members[i], defs, rank, bound) && !HasAmbiguous(members[i], defs, rank, bound)
    {
      assert shapes[i] in shapes;
    }
  }

  lemma OneArmAgrees(
    members: seq<Type>, shapes: seq<Outcome>, i: nat, defs: Definitions, rank: ShapeTable.Rank, bound: nat)
    requires Ordered(defs, rank) && NamesBelow(Either(members), defs, rank, bound) && |shapes| == |members|
    requires MembersAgree(members, shapes, defs, rank, bound) && Refused !in shapes
    requires i < |shapes| && shapes[i].Walked? && forall j :: 0 <= j < |shapes| && j != i ==> !shapes[j].Walked?
    ensures Ambiguous(members, defs, rank, bound) <==>
      || shapes[i].shape.Ref?
      || exists j :: 0 <= j < |members| && shapes[j].Leaf? && !IsScalar(members[j], defs, rank, bound)
    ensures forall j :: 0 <= j < |members| ==> (Structured(members[j], defs, rank, bound) <==> j == i)
    ensures ListLike(members[i], defs, rank, bound) <==> shapes[i].shape.ArrayOf?
    ensures forall j :: 0 <= j < |members| ==> !HasAmbiguous(members[j], defs, rank, bound)
  {
    hide Structured, ListLike, HasAmbiguous, Flat, IsScalar, Ordered;
    forall j | 0 <= j < |members|
      ensures Structured(members[j], defs, rank, bound) <==> j == i
      ensures !HasAmbiguous(members[j], defs, rank, bound)
      ensures shapes[j].Leaf? <==> j != i
    {
      assert shapes[j] in shapes;
    }
  }

  /** A choice whose objects can be told apart: a discriminator, and every member a record with a literal for it. */
  ghost predicate ToldApart(discriminator: Option<string>, members: seq<string>, defs: Definitions) {
    discriminator.Some? && forall m <- members :: exists tag :: Tagged(m, discriminator.value, tag, defs)
  }

  /** The generator throws exactly on a choice it cannot tell apart or a field with an ambiguous inline union. */
  lemma RefusedExactly(defs: Definitions, rank: ShapeTable.Rank)
    requires Ordered(defs, rank)
    ensures BuildShapes(defs, rank).None? <==>
      exists name <- defs ::
        || (defs[name].Choice? && !ToldApart(defs[name].discriminator, defs[name].members, defs))
        || (defs[name].Record? && exists k <- defs[name].fields ::
              HasAmbiguous(defs[name].fields[k].type_, defs, rank, rank[name]))
  {
    hide ShapeOfType, HasAmbiguous, ToldApart, Variants;
    forall name <- defs
      ensures ShapeOfDefinition(name, defs, rank).Refused? <==>
        || (defs[name].Choice? && !ToldApart(defs[name].discriminator, defs[name].members, defs))
        || (defs[name].Record? && exists k <- defs[name].fields ::
              HasAmbiguous(defs[name].fields[k].type_, defs, rank, rank[name]))
    {
      DefinitionAgrees(name, defs, rank);
    }
  }

  lemma DefinitionAgrees(name: string, defs: Definitions, rank: ShapeTable.Rank)
    requires Ordered(defs, rank) && name in defs
    ensures ShapeOfDefinition(name, defs, rank).Refused? <==>
      || (defs[name].Choice? && !ToldApart(defs[name].discriminator, defs[name].members, defs))
      || (defs[name].Record? && exists k <- defs[name].fields ::
            HasAmbiguous(defs[name].fields[k].type_, defs, rank, rank[name]))
  {
    hide ShapeOfType, HasAmbiguous, Structured, ListLike, Variants;
    match defs[name]
    case Record(fields) =>
      forall k <- fields
        ensures ShapeOfType(fields[k].type_, defs, rank, rank[name]).Refused? <==>
                HasAmbiguous(fields[k].type_, defs, rank, rank[name])
      {
        TypeAgrees(fields[k].type_, defs, rank, rank[name]);
      }
    case Choice(discriminator, members) =>
      if discriminator.Some? { VariantsAre(members, discriminator.value, defs); }
    case _ =>
  }

  /** The variants exist exactly if each member is tagged, and a tag selects the last member that has it. */
  lemma {:induction false} VariantsAre(members: seq<string>, d: string, defs: Definitions)
    requires forall m <- members :: m in defs
    ensures Variants(members, d, defs).Some? <==> forall m <- members :: exists tag :: Tagged(m, d, tag, defs)
    ensures Variants(members, d, defs).Some? ==>
      forall tag :: tag in Variants(members, d, defs).value <==> exists m <- members :: Tagged(m, d, tag, defs)
    ensures Variants(members, d, defs).Some? ==>
      forall tag <- Variants(members, d, defs).value ::
        LastTagged(Variants(members, d, defs).value[tag], members, d, tag, defs)
  {
    if members != [] {
      var k := |members| - 1;
      var m, before := members[k], members[..k];
      assert members == before + [m] && m in members;
      VariantsAre(before, d, defs);
      if Variants(members, d, defs).Some? {
        VariantsStep(members, d, defs);
      } else if Variants(before, d, defs).None? {
        var x :| x in before && forall tag :: !Tagged(x, d, tag, defs);
        assert x in members;
      } else {
        assert forall tag :: !Tagged(m, d, tag, defs);
      }
    }
  }

  ghost predicate LastTagged(m: string, members: seq<string>, d: string, tag: string, defs: Definitions) {
    exists i :: 0 <= i < |members| && members[i] == m && Tagged(m, d, tag, defs)
                && forall j :: i < j < |members| ==> !Tagged(members[j], d, tag, defs)
  }

  lemma VariantsStep(members: seq<string>, d: string, defs: Definitions)
    requires (forall m <- members :: m in defs) && members != [] && Variants(members, d, defs).Some?
    requires var before := members[..|members| - 1];
      && Variants(before, d, defs).Some?
      && (forall m <- before :: exists tag :: Tagged(m, d, tag, defs))
      && (forall tag :: tag in Variants(before, d, defs).value <==> exists m <- before :: Tagged(m, d, tag, defs))
      && (forall tag <- Variants(before, d, defs).value ::
            LastTagged(Variants(before, d, defs).value[tag], before, d, tag, defs))
    ensures forall m <- members :: exists tag :: Tagged(m, d, tag, defs)
    ensures forall tag :: tag in Variants(members, d, defs).value <==> exists m <- members :: Tagged(m, d, tag, defs)
    ensures forall tag <- Variants(members, d, defs).value ::
      LastTagged(Variants(members, d, defs).value[tag], members, d, tag, defs)
  {
    var k := |members| - 1;
    var m, before := members[k], members[..k];
    var old_, new_ := Variants(before, d, defs).value, Variants(members, d, defs).value;
    assert members == before + [m] && m in members;
    var own := defs[m].fields[d].type_.value;
    assert Tagged(m, d, own, defs) && new_ == old_[own := m];
    assert forall tag :: Tagged(m, d, tag, defs) ==> tag == own;
    hide Tagged, Variants;
    forall tag <- new_ ensures LastTagged(new_[tag], members, d, tag, defs) {
      if tag == own {
        assert members[k] == m;
      } else {
        LastBefore(members, old_[tag], d, tag, defs);
      }
    }
    hide LastTagged;
  }

  lemma LastBefore(members: seq<string>, m: string, d: string, tag: string, defs: Definitions)
    requires members != [] && LastTagged(m, members[..|members| - 1], d, tag, defs)
    requires !Tagged(members[|members| - 1], d, tag, defs)
    ensures LastTagged(m, members, d, tag, defs)
  {
    hide Tagged;
    var before := members[..|members| - 1];
    var i :| 0 <= i < |before| && before[i] == m && Tagged(m, d, tag, defs)
             && forall j :: i < j < |before| ==> !Tagged(before[j], d, tag, defs);
    assert members[i] == m;
    assert forall j :: i < j < |before| ==> members[j] == before[j];
  }

  // ---------------------------------------------------------------------------
  // The table's positions are the schema's
  // ---------------------------------------------------------------------------

  lemma RecordEntry(name: string, defs: Definitions, rank: ShapeTable.Rank, shapes: Shapes)
    requires Ordered(defs, rank) && BuildShapes(defs, rank) == Some(shapes) && name in defs && defs[name].Record?
    ensures var fields := defs[name].fields;
      && name in shapes && shapes[name].Object?
      && (forall k :: k in shapes[name].optional <==> k in fields && !fields[k].required)
      && (forall k <- fields :: !ShapeOfType(fields[k].type_, defs, rank, rank[name]).Refused?)
      && (forall k :: k in shapes[name].fields <==>
            k in fields && ShapeOfType(fields[k].type_, defs, rank, rank[name]).Walked?)
      && (forall k <- shapes[name].fields ::
            ShapeOfType(fields[k].type_, defs, rank, rank[name]) == Walked(shapes[name].fields[k]))
  {
    hide ShapeOfType, Variants;
    assert !ShapeOfDefinition(name, defs, rank).Refused?;
  }

  lemma ChoiceEntry(name: string, defs: Definitions, rank: ShapeTable.Rank, shapes: Shapes)
    requires Ordered(defs, rank) && BuildShapes(defs, rank) == Some(shapes) && name in defs && defs[name].Choice?
    ensures var d, members := defs[name].discriminator, defs[name].members;
      && d.Some? && Variants(members, d.value, defs).Some?
      && name in shapes && shapes[name] == Union(d.value, Variants(members, d.value, defs).value)
  {
    hide ShapeOfType, Variants;
    assert !ShapeOfDefinition(name, defs, rank).Refused?;
  }

  /** The variant an object's tag picks is the member it selects. */
  lemma VariantIsSelected(o: map<string, Json>, d: string, members: seq<string>, defs: Definitions, m: string)
    requires (forall m <- members :: m in defs) && Variants(members, d, defs).Some?
    ensures VariantOf(o, Union(d, Variants(members, d, defs).value)) == Some(m) <==>
            m in members && Selected(o, d, members, m, defs)
  {
    VariantsAre(members, d, defs);
    hide Variants, Tagged;
    var variants := Variants(members, d, defs).value;
    if d in o && o[d].Str? {
      var tag := o[d].text;
      if Selected(o, d, members, m, defs) {
        var i :| 0 <= i < |members| && members[i] == m && Tagged(m, d, tag, defs)
                 && forall j :: i < j < |members| ==> !Tagged(members[j], d, tag, defs);
        assert m in members && tag in variants;
        SameLast(variants[tag], m, members, d, tag, defs);
      }
    }
  }

  lemma SameLast(m: string, m': string, members: seq<string>, d: string, tag: string, defs: Definitions)
    requires LastTagged(m, members, d, tag, defs) && LastTagged(m', members, d, tag, defs)
    ensures m == m'
  {
  }

  lemma LayoutOfRecord(o: map<string, Json>, name: string, shapes: Shapes)
    requires SoundShapes(shapes) && name in shapes && shapes[name].Object?
    ensures SoundShape(Ref(name), shapes) && Layout(o, Ref(name), shapes) == Some(shapes[name])
  {
    hide SoundShapes;
  }

  lemma LayoutOfChoice(o: map<string, Json>, name: string, shapes: Shapes)
    requires SoundShapes(shapes) && name in shapes && shapes[name].Union?
    ensures SoundShape(Ref(name), shapes)
    ensures Layout(o, Ref(name), shapes) ==
      match VariantOf(o, shapes[name])
      case None => None
      case Some(m) => if m in shapes && shapes[m].Object? then Some(shapes[m]) else None
  {
    assert SoundShape(shapes[name], shapes);
    var v := VariantOf(o, shapes[name]);
    if v.Some? {
      assert IsVariant(v.value, shapes);
      assert Layout(o, Ref(v.value), shapes) == Some(shapes[v.value]);
    }
  }

  /** Below a key of an object laid out as the record `name`. */
  lemma {:induction false} RecordPositions(
    value: Json, name: string, path: Path, defs: Definitions, rank: ShapeTable.Rank, shapes: Shapes)
    requires Ordered(defs, rank) && BuildShapes(defs, rank) == Some(shapes) && SoundShapes(shapes)
    requires name in defs && defs[name].Record?
    ensures name in shapes && shapes[name].Object? && SoundShape(shapes[name], shapes)
    ensures DroppedInRecord(value, name, path, defs, rank) <==> OptionalNull(value, shapes[name], path, shapes)
    decreases |path|, 0, 0
  {
    hide ShapeOfType, BuildShapes, DroppedAt, OptionalNull, Ordered;
    RecordEntry(name, defs, rank, shapes);
    assert SoundShape(shapes[name], shapes);
    KeyPosition(value, shapes[name], path, shapes);
    if path != [] && path[0].Key? && value.Obj? && path[0].key in value.fields && path[0].key in defs[name].fields {
      var k := path[0].key;
      FieldType(name, k, defs, rank);
      hide NamesBelow;
      TypePositions(value.fields[k], defs[name].fields[k].type_, path[1..], defs, rank, rank[name], shapes);
    }
  }

  lemma FieldType(name: string, k: string, defs: Definitions, rank: ShapeTable.Rank)
    requires Ordered(defs, rank) && name in defs && defs[name].Record? && k in defs[name].fields
    ensures name in rank && NamesBelow(defs[name].fields[k].type_, defs, rank, rank[name])
  {
  }

  lemma KeyPosition(value: Json, l: Shape, path: Path, shapes: Shapes)
    requires SoundShapes(shapes) && l.Object? && SoundShape(l, shapes)
    ensures OptionalNull(value, l, path, shapes) <==>
      && path != [] && path[0].Key? && value.Obj? && path[0].key in value.fields
      && (|| (|path| == 1 && path[0].key in l.optional && value.fields[path[0].key].Null?)
          || (&& path[0].key in l.fields
              && OptionalNull(value.fields[path[0].key], l.fields[path[0].key], path[1..], shapes)))
  {
    hide SoundShapes;
  }

  /** A position under a reference is one under the shape it stands for. */
  lemma ThroughLayout(value: Json, name: string, path: Path, shapes: Shapes, l: Option<Shape>)
    requires SoundShapes(shapes) && name in shapes
    requires value.Obj? ==> Layout(value.fields, Ref(name), shapes) == l
    requires l.Some? ==> l.value.Object? && SoundShape(l.value, shapes)
    ensures OptionalNull(value, Ref(name), path, shapes) <==>
      value.Obj? && l.Some? && OptionalNull(value, l.value, path, shapes)
  {
    hide SoundShapes;
  }

  /** Of every value and path: what the table calls an optional null is what the schema calls one. */
  lemma {:induction false} TypePositions(
    value: Json, t: Type, path: Path, defs: Definitions, rank: ShapeTable.Rank, bound: nat, shapes: Shapes)
    requires Ordered(defs, rank) && BuildShapes(defs, rank) == Some(shapes) && SoundShapes(shapes)
    requires NamesBelow(t, defs, rank, bound) && !ShapeOfType(t, defs, rank, bound).Refused?
    ensures ShapeOfType(t, defs, rank, bound).Leaf? ==> !DroppedAt(value, t, path, defs, rank, bound)
    ensures ShapeOfType(t, defs, rank, bound).Walked? ==>
      var s := ShapeOfType(t, defs, rank, bound).shape;
      SoundShape(s, shapes) && (DroppedAt(value, t, path, defs, rank, bound) <==> OptionalNull(value, s, path, shapes))
    decreases |path|, 1, bound, t
  {
    hide BuildShapes, OptionalNull, OfUnion, DroppedInRecord, Selected, SoundShapes;
    var o := ShapeOfType(t, defs, rank, bound);
    if o.Walked? { TypeIsSound(t, defs, rank, bound); }
    match t
    case Reference(name) =>
      if defs[name].Alias? {
        TypePositions(value, defs[name].target, path, defs, rank, rank[name], shapes);
      } else if defs[name].Record? {
        RecordPositions(value, name, path, defs, rank, shapes);
        if value.Obj? {
          LayoutOfRecord(value.fields, name, shapes);
        } else {
          NotAnObject(value, shapes[name], path, shapes);
        }
        ThroughLayout(value, name, path, shapes, Some(shapes[name]));
      } else if defs[name].Choice? {
        ChoicePositions(value, name, path, defs, rank, shapes);
      }
    case List(items) => ListPositions(value, items, path, defs, rank, bound, shapes);
    case Either(members) => UnionPositions(value, members, path, defs, rank, bound, shapes);
    case _ =>
  }

  lemma NotAnObject(value: Json, l: Shape, path: Path, shapes: Shapes)
    requires SoundShapes(shapes) && l.Object? && SoundShape(l, shapes) && !value.Obj?
    ensures !OptionalNull(value, l, path, shapes)
  {
    hide SoundShapes;
  }

  lemma {:induction false} ChoicePositions(
    value: Json, name: string, path: Path, defs: Definitions, rank: ShapeTable.Rank, shapes: Shapes)
    requires Ordered(defs, rank) && BuildShapes(defs, rank) == Some(shapes) && SoundShapes(shapes)
    requires name in defs && defs[name].Choice?
    ensures name in shapes
    ensures OptionalNull(value, Ref(name), path, shapes) <==>
      var d, members := defs[name].discriminator, defs[name].members;
      d.Some? && value.Obj?
      && exists m <- members :: Selected(value.fields, d.value, members, m, defs)
                                && DroppedInRecord(value, m, path, defs, rank)
    decreases |path|, 0, 1
  {
    hide BuildShapes, OptionalNull, DroppedInRecord, Variants, SoundShapes, Layout;
    ChoiceEntry(name, defs, rank, shapes);
    var d, members := defs[name].discriminator.value, defs[name].members;
    if value.Obj? {
      LayoutOfChoice(value.fields, name, shapes);
      forall m ensures VariantOf(value.fields, shapes[name]) == Some(m) <==>
                       m in members && Selected(value.fields, d, members, m, defs)
      {
        VariantIsSelected(value.fields, d, members, defs, m);
      }
      var v := VariantOf(value.fields, shapes[name]);
      if v.Some? {
        SelectedIsRecord(value.fields, d, members, v.value, defs);
        RecordPositions(value, v.value, path, defs, rank, shapes);
        ThroughLayout(value, name, path, shapes, Some(shapes[v.value]));
      } else {
        ThroughLayout(value, name, path, shapes, None);
      }
    } else {
      ThroughLayout(value, name, path, shapes, None);
    }
  }

  lemma SelectedIsRecord(o: map<string, Json>, d: string, members: seq<string>, m: string, defs: Definitions)
    requires Selected(o, d, members, m, defs)
    ensures m in defs && defs[m].Record?
  {
  }

  lemma {:induction false} ListPositions(
    value: Json, items: Type, path: Path, defs: Definitions, rank: ShapeTable.Rank, bound: nat, shapes: Shapes)
    requires Ordered(defs, rank) && BuildShapes(defs, rank) == Some(shapes) && SoundShapes(shapes)
    requires NamesBelow(List(items), defs, rank, bound) && !ShapeOfType(List(items), defs, rank, bound).Refused?
    ensures ShapeOfType(List(items), defs, rank, bound).Leaf? ==>
      !DroppedAt(value, List(items), path, defs, rank, bound)
    ensures ShapeOfType(List(items), defs, rank, bound).Walked? ==>
      var s := ShapeOfType(List(items), defs, rank, bound).shape;
      && SoundShape(s, shapes)
      && (DroppedAt(value, List(items), path, defs, rank, bound) <==> OptionalNull(value, s, path, shapes))
    decreases |path|, 1, bound, List(items), 0
  {
    hide BuildShapes, SoundShapes;
    var o := ShapeOfType(List(items), defs, rank, bound);
    if o.Walked? { TypeIsSound(List(items), defs, rank, bound); }
    if path != [] && path[0].Index? && value.Arr? && path[0].index < |value.items| {
      TypePositions(value.items[path[0].index], items, path[1..], defs, rank, bound, shapes);
    }
  }

  lemma {:induction false} UnionPositions(
    value: Json, members: seq<Type>, path: Path, defs: Definitions, rank: ShapeTable.Rank, bound: nat, shapes: Shapes)
    requires Ordered(defs, rank) && BuildShapes(defs, rank) == Some(shapes) && SoundShapes(shapes)
    requires NamesBelow(Either(members), defs, rank, bound)
    requires !ShapeOfType(Either(members), defs, rank, bound).Refused?
    ensures ShapeOfType(Either(members), defs, rank, bound).Leaf? ==>
      forall m <- members :: !DroppedAt(value, m, path, defs, rank, bound)
    ensures ShapeOfType(Either(members), defs, rank, bound).Walked? ==>
      var s := ShapeOfType(Either(members), defs, rank, bound).shape;
      && SoundShape(s, shapes)
      && ((exists m <- members :: DroppedAt(value, m, path, defs, rank, bound)) <==>
        OptionalNull(value, s, path, shapes))
    decreases |path|, 1, bound, Either(members), 0
  {
    hide BuildShapes, SoundShapes, OptionalNull, DroppedAt, OfUnion;
    var all := seq(|members|, i requires 0 <= i < |members| => ShapeOfType(members[i], defs, rank, bound));
    var o := ShapeOfType(Either(members), defs, rank, bound);
    assert o == OfUnion(members, all, defs, rank, bound);
    if o.Walked? { TypeIsSound(Either(members), defs, rank, bound); }
    hide ShapeOfType, Ordered, SoundShape;
    var arm := ArmOfUnion(members, all, defs, rank, bound);
    forall i | 0 <= i < |members|
      ensures all[i].Leaf? ==> !DroppedAt(value, members[i], path, defs, rank, bound)
      ensures i == arm ==>
        (DroppedAt(value, members[i], path, defs, rank, bound) <==> OptionalNull(value, o.shape, path, shapes))
    {
      assert members[i] in members;
      assert o.Leaf? || o.Walked?;
      assert all[i] == ShapeOfType(members[i], defs, rank, bound) && !all[i].Refused?;
      TypePositions(value, members[i], path, defs, rank, bound, shapes);
    }
    forall m <- members ensures exists i :: 0 <= i < |members| && members[i] == m {}
    if o.Walked? { assert members[arm] in members; }
  }

  /** No member is to be walked, or exactly one is, and it gives the union's shape. */
  lemma ArmOfUnion(members: seq<Type>, all: seq<Outcome>, defs: Definitions, rank: ShapeTable.Rank, bound: nat)
    returns (arm: int)
    requires Ordered(defs, rank) && NamesBelow(Either(members), defs, rank, bound) && |all| == |members|
    requires !OfUnion(members, all, defs, rank, bound).Refused?
    ensures forall i :: 0 <= i < |all| && i != arm ==> all[i].Leaf?
    ensures OfUnion(members, all, defs, rank, bound).Leaf? ==> arm == -1
    ensures OfUnion(members, all, defs, rank, bound).Walked? ==>
      0 <= arm < |all| && all[arm] == OfUnion(members, all, defs, rank, bound)
  {
    hide Arms, IsScalar, Ordered;
    ArmsAre(all);
    assert forall i :: 0 <= i < |all| ==> all[i] in all;
    arm := -1;
    if Arms(all) != [] {
      arm :| 0 <= arm < |all| && all[arm] == Walked(Arms(all)[0])
             && forall j :: 0 <= j < |all| && j != arm ==> !all[j].Walked?;
    }
  }

  /**
    Omission with the table the generator builds: a position of a value of the root type is gone
    exactly if the schema reaches it as a field that is not required, and it held null; everything
    else is there as it was.
   */
  lemma NullsGoExactly(value: Json, root: string, path: Path, defs: Definitions, rank: ShapeTable.Rank)
    requires Ordered(defs, rank) && BuildShapes(defs, rank).Some?
    requires root in defs && (defs[root].Record? || defs[root].Choice?)
    ensures var shapes := BuildShapes(defs, rank).value;
      && SoundShapes(shapes) && SoundShape(Ref(root), shapes)
      && PositionKept(OmitNulls.At(value, path), OmitNulls.At(Omit(value, Ref(root), shapes), path),
                      DroppedAt(value, Reference(root), path, defs, rank, rank[root] + 1))
  {
    hide BuildShapes, SoundShapes, OptionalNull, DroppedAt, PositionKept, Omit;
    var shapes := BuildShapes(defs, rank).value;
    BuiltShapesAreSound(defs, rank);
    TableHolds(defs, rank, root);
    TypePositions(value, Reference(root), path, defs, rank, rank[root] + 1, shapes);
    OmitAtEveryPosition(value, Ref(root), path, shapes);
  }
}

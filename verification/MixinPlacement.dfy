/** Placing mixin classes among ordered definitions in a file that is read top to bottom. */
module MixinPlacement {
  import opened Options
  import Ordering

  /** `mixins` are the mixins a definition inherits; none unless it is an object. */
  datatype Definition = Definition(name: string, mixins: set<string>)

  /** What a mixin's fields name: definitions, other mixins, or neither. */
  datatype Mixin = Mixin(name: string, refs: seq<string>)

  /** One class of the emitted file. */
  datatype Item = Def(name: string) | Mix(name: string)

  // ---------------------------------------------------------------------------
  // What the file must satisfy
  // ---------------------------------------------------------------------------

  ghost predicate DistinctItems(out: seq<Item>) {
    forall i, j :: 0 <= i < j < |out| ==> out[i] != out[j]
  }

  /** `x` is declared above `y`. */
  predicate Above(out: seq<Item>, x: Item, y: Item) {
    x in out && y in out && Ordering.IndexOf(out, x) < Ordering.IndexOf(out, y)
  }

  ghost predicate DistinctNames(defs: seq<Definition>) {
    forall i, j :: 0 <= i < j < |defs| ==> defs[i].name != defs[j].name
  }

  ghost predicate IsDef(defs: seq<Definition>, name: string) {
    exists d <- defs :: d.name == name
  }

  ghost predicate IsMixin(mixins: seq<Mixin>, name: string) {
    exists m <- mixins :: m.name == name
  }

  /** Every class once, definitions in their given order, mixins below what they name and above their heirs. */
  ghost predicate GoodFile(out: seq<Item>, mixins: seq<Mixin>, defs: seq<Definition>) {
    && DistinctItems(out)
    && (forall x :: x in out <==> if x.Def? then IsDef(defs, x.name) else IsMixin(mixins, x.name))
    && (forall i, j :: 0 <= i < j < |defs| ==> Above(out, Def(defs[i].name), Def(defs[j].name)))
    && (forall m <- mixins :: forall ref <- m.refs ::
          && (IsDef(defs, ref) ==> Above(out, Def(ref), Mix(m.name)))
          && (IsMixin(mixins, ref) ==> Above(out, Mix(ref), Mix(m.name))))
    && (forall m <- mixins :: forall d <- defs :: m.name in d.mixins ==> Above(out, Mix(m.name), Def(d.name)))
  }

  // ---------------------------------------------------------------------------
  // Placing
  // ---------------------------------------------------------------------------

  /** The index of a definition, or -1. */
  function DefIndex(defs: seq<Definition>, name: string): (i: int)
    ensures -1 <= i < |defs| && (i >= 0 ==> defs[i].name == name)
    ensures i == -1 ==> forall d <- defs :: d.name != name
  {
    if defs == [] then -1
    else if defs[|defs| - 1].name == name then |defs| - 1
    else
      assert defs == defs[..|defs| - 1] + [defs[|defs| - 1]];
      DefIndex(defs[..|defs| - 1], name)
  }

  /** The first definition that inherits `name`; the number of definitions if none does. */
  function FirstHeir(defs: seq<Definition>, name: string): (i: nat)
    ensures i <= |defs| && (i < |defs| ==> name in defs[i].mixins)
    ensures forall j :: 0 <= j < i ==> name !in defs[j].mixins
  {
    if defs == [] || name in defs[0].mixins then 0 else 1 + FirstHeir(defs[1..], name)
  }

  /** The first definition that inherits anything; the number of definitions if none does. */
  function Floor(defs: seq<Definition>): (i: nat)
    ensures i <= |defs| && (i < |defs| ==> defs[i].mixins != {})
    ensures forall j :: 0 <= j < i ==> defs[j].mixins == {}
  {
    if defs == [] || defs[0].mixins != {} then 0 else 1 + Floor(defs[1..])
  }

  datatype Placed = Placed(mixin: Mixin, at: nat)

  /** Highest index of a definition among `refs`, or -1. */
  function AfterDefs(refs: seq<string>, defs: seq<Definition>): (a: int)
    ensures -1 <= a < |defs|
    ensures forall ref <- refs :: DefIndex(defs, ref) <= a
    ensures a >= 0 ==> exists ref <- refs :: DefIndex(defs, ref) == a
  {
    if refs == [] then -1
    else
      var k := |refs| - 1;
      var a, b := AfterDefs(refs[..k], defs), DefIndex(defs, refs[k]);
      assert refs == refs[..k] + [refs[k]];
      if a > b then a else b
  }

  /** Highest placement of a mixin among `refs`, or -1. */
  function AfterMixins(refs: seq<string>, placedAt: map<string, nat>): (a: int)
    ensures -1 <= a
    ensures forall ref <- refs :: ref in placedAt ==> placedAt[ref] <= a
    ensures a >= 0 ==> exists ref <- refs :: ref in placedAt && placedAt[ref] == a
  {
    if refs == [] then -1
    else
      var k := |refs| - 1;
      var a := AfterMixins(refs[..k], placedAt);
      var b: int := if refs[k] in placedAt then placedAt[refs[k]] else -1;
      assert refs == refs[..k] + [refs[k]];
      if a > b then a else b
  }

  function Max(a: int, b: int): int { if a > b then a else b }

  /** Why mixin `i` stands where it does: below its definitions, not above its mixins, above its heirs. */
  ghost predicate WellPlaced(placed: seq<Placed>, i: nat, defs: seq<Definition>)
    requires i < |placed|
  {
    var p := placed[i];
    && p.at <= |defs|
    && (forall ref <- p.mixin.refs :: DefIndex(defs, ref) < p.at)
    && (forall j :: 0 <= j < |placed| && placed[j].mixin.name in p.mixin.refs ==> j < i && placed[j].at <= p.at)
    && (forall d :: 0 <= d < |defs| && p.mixin.name in defs[d].mixins ==> p.at <= d)
  }

  /** Why it could not stand higher: its slot is the floor, or something it names ends right above. */
  ghost predicate Forced(placed: seq<Placed>, i: nat, defs: seq<Definition>, floor: nat)
    requires i < |placed|
  {
    var p := placed[i];
    || p.at <= floor
    || (exists ref <- p.mixin.refs :: DefIndex(defs, ref) == p.at - 1)
    || (exists j :: 0 <= j < i && placed[j].mixin.name in p.mixin.refs && placed[j].at == p.at)
  }

  /** No file can have a mixin whose references reach past its first heir. */
  ghost predicate Blocked(placed: seq<Placed>, m: Mixin, at: nat, defs: seq<Definition>, floor: nat) {
    && (exists d :: 0 <= d < |defs| && m.name in defs[d].mixins && d < at)
    && at > floor
    && (|| (exists ref <- m.refs :: DefIndex(defs, ref) == at - 1)
        || (exists j :: 0 <= j < |placed| && placed[j].mixin.name in m.refs && placed[j].at == at))
  }

  /** `placedAt` is exactly the table of `placed`. */
  ghost predicate Indexed(placedAt: map<string, nat>, placed: seq<Placed>) {
    && (forall p <- placed :: p.mixin.name in placedAt && placedAt[p.mixin.name] == p.at)
    && (forall n <- placedAt :: exists k :: 0 <= k < |placed| && placed[k].mixin.name == n)
  }

  lemma IndexedNext(placedAt: map<string, nat>, placed: seq<Placed>, shape: Mixin, at: nat)
    requires Indexed(placedAt, placed) && forall p <- placed :: p.mixin.name != shape.name
    ensures Indexed(placedAt[shape.name := at], placed + [Placed(shape, at)])
  {
    var longer := placed + [Placed(shape, at)];
    assert forall j :: 0 <= j < |placed| ==> longer[j] == placed[j];
    var next := placedAt[shape.name := at];
    forall n <- next ensures exists k :: 0 <= k < |longer| && longer[k].mixin.name == n {
      if n != shape.name {
        var k :| 0 <= k < |placed| && placed[k].mixin.name == n;
        assert longer[k].mixin.name == n;
      } else {
        assert longer[|placed|].mixin.name == n;
      }
    }
  }

  /** Shapes whose references come first, none inherited above the floor. */
  ghost predicate Lined(shapes: seq<Mixin>, defs: seq<Definition>, floor: nat) {
    && floor <= |defs| && (forall i :: 0 <= i < floor ==> forall s <- shapes :: s.name !in defs[i].mixins)
    && (forall i, j :: 0 <= i < j < |shapes| ==> shapes[i].name != shapes[j].name)
    && (forall i, j :: 0 <= i < |shapes| && 0 <= j < |shapes| && shapes[j].name in shapes[i].refs ==> j < i)
  }

  /** The first `i` shapes are placed, and indexed. */
  ghost predicate Progress(
    placed: seq<Placed>, placedAt: map<string, nat>, shapes: seq<Mixin>, i: nat, defs: seq<Definition>, floor: nat)
  {
    && |placed| == i <= |shapes| && (forall k :: 0 <= k < i ==> placed[k].mixin == shapes[k])
    && (forall k :: 0 <= k < i ==> WellPlaced(placed, k, defs) && Forced(placed, k, defs, floor))
    && Indexed(placedAt, placed)
  }

  /** As early as the floor, the definitions and the mixins it names allow. */
  function Earliest(shape: Mixin, defs: seq<Definition>, placedAt: map<string, nat>, floor: nat): (at: nat)
    ensures at >= floor
  {
    Max(floor, Max(AfterDefs(shape.refs, defs) + 1, AfterMixins(shape.refs, placedAt)))
  }

  method PlaceAll(shapes: seq<Mixin>, defs: seq<Definition>, floor: nat)
    returns (placed: seq<Placed>, blocked: Option<(Mixin, nat)>)
    requires Lined(shapes, defs, floor)
    ensures |placed| <= |shapes| && forall i :: 0 <= i < |placed| ==> placed[i].mixin == shapes[i]
    ensures forall i :: 0 <= i < |placed| ==> WellPlaced(placed, i, defs) && Forced(placed, i, defs, floor)
    ensures forall i :: 0 <= i < |placed| ==> floor <= placed[i].at
    ensures blocked.None? ==> |placed| == |shapes|
    ensures blocked.Some? ==> |placed| < |shapes| && blocked.value.0 == shapes[|placed|]
                              && Blocked(placed, blocked.value.0, blocked.value.1, defs, floor)
  {
    placed := [];
    var placedAt: map<string, nat> := map[];
    assert Progress(placed, placedAt, shapes, 0, defs, floor);
    hide Progress, Lined, WellPlaced, Forced, Blocked, Earliest, FirstHeir;
    for i := 0 to |shapes|
      invariant Progress(placed, placedAt, shapes, i, defs, floor)
      invariant forall k :: 0 <= k < |placed| ==> floor <= placed[k].at
    {
      var heir := FirstHeir(defs, shapes[i].name);
      var at := Earliest(shapes[i], defs, placedAt, floor);
      ProgressMeans(placed, placedAt, shapes, i, defs, floor);
      if heir < |defs| && at > heir {
        StopsBlocked(placed, placedAt, shapes, i, defs, floor);
        blocked := Some((shapes[i], at));
        return;
      }
      Progresses(placed, placedAt, shapes, i, defs, floor);
      placed, placedAt := placed + [Placed(shapes[i], at)], placedAt[shapes[i].name := at];
    }
    ProgressMeans(placed, placedAt, shapes, |shapes|, defs, floor);
    blocked := None;
  }

  lemma ProgressMeans(
    placed: seq<Placed>, placedAt: map<string, nat>, shapes: seq<Mixin>, i: nat, defs: seq<Definition>, floor: nat)
    requires Progress(placed, placedAt, shapes, i, defs, floor)
    ensures |placed| == i <= |shapes| && forall k :: 0 <= k < i ==> placed[k].mixin == shapes[k]
    ensures forall k :: 0 <= k < i ==> WellPlaced(placed, k, defs) && Forced(placed, k, defs, floor)
  {
  }

  lemma StopsBlocked(
    placed: seq<Placed>, placedAt: map<string, nat>, shapes: seq<Mixin>, i: nat, defs: seq<Definition>, floor: nat)
    requires Lined(shapes, defs, floor) && i < |shapes| && Progress(placed, placedAt, shapes, i, defs, floor)
    requires FirstHeir(defs, shapes[i].name) < |defs|
    requires FirstHeir(defs, shapes[i].name) < Earliest(shapes[i], defs, placedAt, floor)
    ensures Blocked(placed, shapes[i], Earliest(shapes[i], defs, placedAt, floor), defs, floor)
  {
    hide WellPlaced, Forced, Blocked, Indexed, AfterDefs, AfterMixins, FirstHeir;
    var after, afterMixin := AfterDefs(shapes[i].refs, defs), AfterMixins(shapes[i].refs, placedAt);
    MixinBound(shapes, placed, placedAt, i, afterMixin);
    NewIsBlocked(shapes, placed, i, Earliest(shapes[i], defs, placedAt, floor), after, afterMixin,
                 FirstHeir(defs, shapes[i].name), defs, floor);
  }

  lemma Progresses(
    placed: seq<Placed>, placedAt: map<string, nat>, shapes: seq<Mixin>, i: nat, defs: seq<Definition>, floor: nat)
    requires Lined(shapes, defs, floor) && i < |shapes| && Progress(placed, placedAt, shapes, i, defs, floor)
    requires var heir := FirstHeir(defs, shapes[i].name);
             heir < |defs| ==> Earliest(shapes[i], defs, placedAt, floor) <= heir
    ensures var at := Earliest(shapes[i], defs, placedAt, floor);
      Progress(placed + [Placed(shapes[i], at)], placedAt[shapes[i].name := at], shapes, i + 1, defs, floor)
  {
    hide WellPlaced, Forced, Indexed, AfterDefs, AfterMixins, FirstHeir;
    var after, afterMixin := AfterDefs(shapes[i].refs, defs), AfterMixins(shapes[i].refs, placedAt);
    var at := Earliest(shapes[i], defs, placedAt, floor);
    MixinBound(shapes, placed, placedAt, i, afterMixin);
    PlacedFits(placed, defs);
    NewIsPlaced(shapes, placed, i, at, after, afterMixin, FirstHeir(defs, shapes[i].name), defs, floor);
    OldStaysPlaced(shapes, placed, Placed(shapes[i], at), defs, floor);
    IndexedNext(placedAt, placed, shapes[i], at);
  }

  lemma MixinBound(shapes: seq<Mixin>, placed: seq<Placed>, placedAt: map<string, nat>, i: nat, afterMixin: int)
    requires i < |shapes| && |placed| == i && forall k :: 0 <= k < i ==> placed[k].mixin == shapes[k]
    requires Indexed(placedAt, placed)
    requires afterMixin == AfterMixins(shapes[i].refs, placedAt)
    ensures forall j :: 0 <= j < i && placed[j].mixin.name in shapes[i].refs ==> placed[j].at <= afterMixin
    ensures afterMixin >= 0 ==>
      exists j :: 0 <= j < i && placed[j].mixin.name in shapes[i].refs && placed[j].at == afterMixin
  {
    hide AfterMixins;
    assert forall j :: 0 <= j < i ==> placed[j] in placed;
    if afterMixin >= 0 {
      var ref :| ref in shapes[i].refs && ref in placedAt && placedAt[ref] == afterMixin;
      var k :| 0 <= k < i && placed[k].mixin.name == ref;
      assert placed[k].mixin.name in shapes[i].refs && placed[k].at == afterMixin;
    }
  }

  lemma NewIsBlocked(
    shapes: seq<Mixin>, placed: seq<Placed>, i: nat, at: nat, after: int, afterMixin: int, heir: nat,
    defs: seq<Definition>, floor: nat)
    requires i < |shapes| && |placed| == i
    requires forall k :: 0 <= k < floor <= |defs| ==> forall s <- shapes :: s.name !in defs[k].mixins
    requires after == AfterDefs(shapes[i].refs, defs) && heir == FirstHeir(defs, shapes[i].name)
    requires afterMixin >= 0 ==>
      exists j :: 0 <= j < i && placed[j].mixin.name in shapes[i].refs && placed[j].at == afterMixin
    requires floor <= |defs| && at == Max(floor, Max(after + 1, afterMixin)) && heir < |defs| && heir < at
    ensures Blocked(placed, shapes[i], at, defs, floor)
  {
    assert shapes[i] in shapes && heir >= floor;
  }

  lemma NewIsPlaced(
    shapes: seq<Mixin>, placed: seq<Placed>, i: nat, at: nat, after: int, afterMixin: int, heir: nat,
    defs: seq<Definition>, floor: nat)
    requires i < |shapes| && |placed| == i && forall k :: 0 <= k < i ==> placed[k].mixin == shapes[k]
    requires forall a, b :: 0 <= a < |shapes| && 0 <= b < |shapes| && shapes[b].name in shapes[a].refs ==> b < a
    requires floor <= |defs| && after == AfterDefs(shapes[i].refs, defs) && heir == FirstHeir(defs, shapes[i].name)
    requires forall j :: 0 <= j < i && placed[j].mixin.name in shapes[i].refs ==> placed[j].at <= afterMixin
    requires afterMixin >= 0 ==>
      exists j :: 0 <= j < i && placed[j].mixin.name in shapes[i].refs && placed[j].at == afterMixin
    requires forall j :: 0 <= j < i ==> placed[j].at <= |defs|
    requires at == Max(floor, Max(after + 1, afterMixin)) && (heir < |defs| ==> at <= heir)
    ensures WellPlaced(placed + [Placed(shapes[i], at)], i, defs)
    ensures Forced(placed + [Placed(shapes[i], at)], i, defs, floor)
  {
    var longer := placed + [Placed(shapes[i], at)];
    assert forall j :: 0 <= j < i ==> longer[j] == placed[j];
    assert longer[i] == Placed(shapes[i], at);
    if afterMixin >= 0 {
      var j :| 0 <= j < i && placed[j].mixin.name in shapes[i].refs && placed[j].at == afterMixin;
      assert longer[j].mixin.name in longer[i].mixin.refs;
    }
  }

  lemma OldStaysPlaced(shapes: seq<Mixin>, placed: seq<Placed>, p: Placed, defs: seq<Definition>, floor: nat)
    requires |placed| < |shapes| && p.mixin == shapes[|placed|]
    requires forall j :: 0 <= j < |placed| ==> placed[j].mixin == shapes[j]
    requires forall i, j :: 0 <= i < |shapes| && 0 <= j < |shapes| && shapes[j].name in shapes[i].refs ==> j < i
    requires forall k :: 0 <= k < |placed| ==> WellPlaced(placed, k, defs) && Forced(placed, k, defs, floor)
    ensures forall k :: 0 <= k < |placed| ==> WellPlaced(placed + [p], k, defs) && Forced(placed + [p], k, defs, floor)
  {
    var longer := placed + [p];
    assert forall j :: 0 <= j < |placed| ==> longer[j] == placed[j];
    forall k | 0 <= k < |placed| ensures WellPlaced(longer, k, defs) && Forced(longer, k, defs, floor) {
      assert WellPlaced(placed, k, defs) && Forced(placed, k, defs, floor);
    }
  }

  // ---------------------------------------------------------------------------
  // Writing the file
  // ---------------------------------------------------------------------------

  /** Where a class stands: a slot, then its turn in it. The definition takes the slot's last turn. */
  type Key = (int, int)

  predicate Before(a: Key, b: Key) { a.0 < b.0 || (a.0 == b.0 && a.1 < b.1) }

  /** The class with key `k`. */
  ghost predicate Stands(x: Item, k: Key, placed: seq<Placed>, defs: seq<Definition>) {
    || (0 <= k.0 < |defs| && k.1 == |placed| && x == Def(defs[k.0].name))
    || (0 <= k.1 < |placed| && k.0 == placed[k.1].at && x == Mix(placed[k.1].mixin.name))
  }

  /** `out` lists classes by strictly rising key. */
  ghost predicate Keyed(out: seq<Item>, keys: seq<Key>, placed: seq<Placed>, defs: seq<Definition>) {
    && |keys| == |out|
    && (forall i, j :: 0 <= i < j < |keys| ==> Before(keys[i], keys[j]))
    && (forall i :: 0 <= i < |out| ==> Stands(out[i], keys[i], placed, defs))
  }

  /** Every class whose key is below `(slot, turn)` has been written, and no other. */
  ghost predicate WrittenTo(keys: seq<Key>, placed: seq<Placed>, defs: seq<Definition>, slot: int, turn: int) {
    && (forall k <- keys :: Before(k, (slot, turn)))
    && (forall d :: 0 <= d < |defs| && Before((d, |placed|), (slot, turn)) ==> (d, |placed|) in keys)
    && (forall m :: 0 <= m < |placed| && Before((placed[m].at, m), (slot, turn)) ==> (placed[m].at, m) in keys)
  }

  /** By slot, and in a slot by turn: the whole of both lists, each class once. */
  method Emit(placed: seq<Placed>, defs: seq<Definition>) returns (out: seq<Item>)
    ensures exists keys :: Keyed(out, keys, placed, defs) && WrittenTo(keys, placed, defs, |defs| + 1, 0)
  {
    out := [];
    ghost var keys := [];
    assert Keyed(out, keys, placed, defs) && WrittenTo(keys, placed, defs, 0, 0);
    hide Keyed, WrittenTo;
    for index := 0 to |defs| + 1
      invariant Keyed(out, keys, placed, defs) && WrittenTo(keys, placed, defs, index, 0)
    {
      for turn := 0 to |placed|
        invariant Keyed(out, keys, placed, defs) && WrittenTo(keys, placed, defs, index, turn)
      {
        KeyedSnoc(out, keys, placed, defs, index, turn);
        if placed[turn].at == index {
          out, keys := out + [Mix(placed[turn].mixin.name)], keys + [(index, turn)];
        }
      }
      KeyedSlot(out, keys, placed, defs, index);
      if index < |defs| {
        out, keys := out + [Def(defs[index].name)], keys + [(index, |placed|)];
      }
    }
  }

  /** Writing one mixin, or passing it by. */
  lemma KeyedSnoc(out: seq<Item>, keys: seq<Key>, placed: seq<Placed>, defs: seq<Definition>, index: int, turn: nat)
    requires Keyed(out, keys, placed, defs) && WrittenTo(keys, placed, defs, index, turn) && turn < |placed|
    ensures placed[turn].at != index ==> WrittenTo(keys, placed, defs, index, turn + 1)
    ensures placed[turn].at == index ==>
      && Keyed(out + [Mix(placed[turn].mixin.name)], keys + [(index, turn)], placed, defs)
      && WrittenTo(keys + [(index, turn)], placed, defs, index, turn + 1)
  {
  }

  /** Writing a slot's definition, or leaving the last slot. */
  lemma KeyedSlot(out: seq<Item>, keys: seq<Key>, placed: seq<Placed>, defs: seq<Definition>, index: nat)
    requires Keyed(out, keys, placed, defs) && WrittenTo(keys, placed, defs, index, |placed|) && index <= |defs|
    ensures index == |defs| ==> WrittenTo(keys, placed, defs, index + 1, 0)
    ensures index < |defs| ==>
      && Keyed(out + [Def(defs[index].name)], keys + [(index, |placed|)], placed, defs)
      && WrittenTo(keys + [(index, |placed|)], placed, defs, index + 1, 0)
  {
  }

  /** A smaller key is a higher place in the file. */
  lemma KeyedIsAbove(
    out: seq<Item>, keys: seq<Key>, placed: seq<Placed>, defs: seq<Definition>, x: Item, a: Key, y: Item, b: Key)
    requires Keyed(out, keys, placed, defs) && DistinctItems(out)
    requires a in keys && b in keys && Before(a, b)
    requires Stands(x, a, placed, defs) && Stands(y, b, placed, defs)
    ensures Above(out, x, y)
  {
    var i :| 0 <= i < |keys| && keys[i] == a;
    var j :| 0 <= j < |keys| && keys[j] == b;
    assert Stands(out[i], a, placed, defs) && Stands(out[j], b, placed, defs);
    assert out[i] == x && out[j] == y;
    assert i < j;
    hide Keyed, Stands, Before;
    assert Ordering.IndexOf(out, x) == i && Ordering.IndexOf(out, y) == j;
  }

  /** `placed` holds exactly the given mixins, each well placed. */
  ghost predicate AllPlaced(placed: seq<Placed>, mixins: seq<Mixin>, defs: seq<Definition>) {
    && (forall i :: 0 <= i < |placed| ==> WellPlaced(placed, i, defs))
    && (forall m :: m in mixins <==> exists i :: 0 <= i < |placed| && placed[i].mixin == m)
  }

  /** Every class has been written under its key. */
  ghost predicate AllWritten(keys: seq<Key>, placed: seq<Placed>, defs: seq<Definition>) {
    && (forall d :: 0 <= d < |defs| ==> (d, |placed|) in keys)
    && (forall m :: 0 <= m < |placed| ==> (placed[m].at, m) in keys)
  }

  /** The whole file, given placements that are well placed. */
  lemma FileIsGood(
    out: seq<Item>, keys: seq<Key>, placed: seq<Placed>, mixins: seq<Mixin>, defs: seq<Definition>)
    requires Keyed(out, keys, placed, defs) && WrittenTo(keys, placed, defs, |defs| + 1, 0)
    requires DistinctNames(defs) && AllPlaced(placed, mixins, defs)
    requires forall i, j :: 0 <= i < j < |placed| ==> placed[i].mixin.name != placed[j].mixin.name
    ensures GoodFile(out, mixins, defs)
  {
    KeyedIsDistinct(out, keys, placed, defs);
    EveryClassStands(out, keys, placed, mixins, defs);
    hide Keyed, DistinctItems, WrittenTo, DistinctNames, Above, IsDef, IsMixin, AllPlaced, AllWritten;
    forall i, j | 0 <= i < j < |defs| ensures Above(out, Def(defs[i].name), Def(defs[j].name)) {
      DefsInOrder(out, keys, placed, defs, i, j);
    }
    forall m <- mixins, ref <- m.refs
      ensures IsDef(defs, ref) ==> Above(out, Def(ref), Mix(m.name))
      ensures IsMixin(mixins, ref) ==> Above(out, Mix(ref), Mix(m.name))
    {
      ReferencesAreAbove(out, keys, placed, mixins, defs, m, ref);
    }
    forall m <- mixins, d <- defs | m.name in d.mixins ensures Above(out, Mix(m.name), Def(d.name)) {
      HeirIsBelow(out, keys, placed, mixins, defs, m, d);
    }
  }

  lemma DefsInOrder(out: seq<Item>, keys: seq<Key>, placed: seq<Placed>, defs: seq<Definition>, i: nat, j: nat)
    requires Keyed(out, keys, placed, defs) && DistinctItems(out) && AllWritten(keys, placed, defs) && i < j < |defs|
    ensures Above(out, Def(defs[i].name), Def(defs[j].name))
  {
    hide Keyed, DistinctItems, Above;
    KeyedIsAbove(out, keys, placed, defs, Def(defs[i].name), (i, |placed|), Def(defs[j].name), (j, |placed|));
  }

  lemma HeirIsBelow(
    out: seq<Item>, keys: seq<Key>, placed: seq<Placed>, mixins: seq<Mixin>, defs: seq<Definition>,
    m: Mixin, d: Definition)
    requires Keyed(out, keys, placed, defs) && DistinctItems(out) && AllWritten(keys, placed, defs)
    requires AllPlaced(placed, mixins, defs) && m in mixins && d in defs && m.name in d.mixins
    ensures Above(out, Mix(m.name), Def(d.name))
  {
    hide Keyed, DistinctItems, Above;
    var i :| 0 <= i < |placed| && placed[i].mixin == m;
    var k :| 0 <= k < |defs| && defs[k] == d;
    assert WellPlaced(placed, i, defs);
    KeyedIsAbove(out, keys, placed, defs, Mix(m.name), (placed[i].at, i), Def(d.name), (k, |placed|));
  }

  lemma KeyedIsDistinct(out: seq<Item>, keys: seq<Key>, placed: seq<Placed>, defs: seq<Definition>)
    requires Keyed(out, keys, placed, defs) && DistinctNames(defs)
    requires forall i, j :: 0 <= i < j < |placed| ==> placed[i].mixin.name != placed[j].mixin.name
    ensures DistinctItems(out)
  {
    forall i, j | 0 <= i < j < |out| ensures out[i] != out[j] {
      assert Before(keys[i], keys[j]) && Stands(out[i], keys[i], placed, defs) && Stands(out[j], keys[j], placed, defs);
    }
  }

  lemma EveryClassStands(
    out: seq<Item>, keys: seq<Key>, placed: seq<Placed>, mixins: seq<Mixin>, defs: seq<Definition>)
    requires Keyed(out, keys, placed, defs) && WrittenTo(keys, placed, defs, |defs| + 1, 0)
    requires AllPlaced(placed, mixins, defs)
    ensures AllWritten(keys, placed, defs)
    ensures forall x :: x in out <==> if x.Def? then IsDef(defs, x.name) else IsMixin(mixins, x.name)
  {
    forall d | 0 <= d < |defs| ensures (d, |placed|) in keys {
      assert Before((d, |placed|), (|defs| + 1, 0));
    }
    forall m | 0 <= m < |placed| ensures (placed[m].at, m) in keys {
      assert WellPlaced(placed, m, defs) && Before((placed[m].at, m), (|defs| + 1, 0));
    }
    hide WrittenTo, WellPlaced;
    forall x ensures x in out <==> if x.Def? then IsDef(defs, x.name) else IsMixin(mixins, x.name) {
      if x in out {
        var i :| 0 <= i < |out| && out[i] == x;
        assert Stands(out[i], keys[i], placed, defs);
      }
      if x.Def? && IsDef(defs, x.name) {
        var d :| 0 <= d < |defs| && defs[d].name == x.name;
        var i :| 0 <= i < |keys| && keys[i] == (d, |placed|);
        assert Stands(out[i], keys[i], placed, defs);
      }
      if x.Mix? && IsMixin(mixins, x.name) {
        var m :| m in mixins && m.name == x.name;
        var t :| 0 <= t < |placed| && placed[t].mixin == m;
        var i :| 0 <= i < |keys| && keys[i] == (placed[t].at, t);
        assert Stands(out[i], keys[i], placed, defs);
      }
    }
  }

  lemma ReferencesAreAbove(
    out: seq<Item>, keys: seq<Key>, placed: seq<Placed>, mixins: seq<Mixin>, defs: seq<Definition>,
    shape: Mixin, ref: string)
    requires Keyed(out, keys, placed, defs) && DistinctItems(out) && AllWritten(keys, placed, defs)
    requires AllPlaced(placed, mixins, defs) && shape in mixins && ref in shape.refs
    ensures IsDef(defs, ref) ==> Above(out, Def(ref), Mix(shape.name))
    ensures IsMixin(mixins, ref) ==> Above(out, Mix(ref), Mix(shape.name))
  {
    hide Keyed, DistinctItems, Above;
    var i :| 0 <= i < |placed| && placed[i].mixin == shape;
    assert WellPlaced(placed, i, defs);
    var x := Mix(shape.name);
    if IsDef(defs, ref) {
      var d := DefIndex(defs, ref);
      KeyedIsAbove(out, keys, placed, defs, Def(ref), (d, |placed|), x, (placed[i].at, i));
    }
    if IsMixin(mixins, ref) {
      var m :| m in mixins && m.name == ref;
      var j :| 0 <= j < |placed| && placed[j].mixin == m;
      KeyedIsAbove(out, keys, placed, defs, Mix(ref), (placed[j].at, j), x, (placed[i].at, i));
    }
  }

  // ---------------------------------------------------------------------------
  // Refusals
  // ---------------------------------------------------------------------------

  /** In every good file, whatever forces a mixin below the floor stands above it. */
  lemma {:induction false} ForcedBelow(
    out: seq<Item>, placed: seq<Placed>, i: nat, mixins: seq<Mixin>, defs: seq<Definition>, floor: nat)
    requires GoodFile(out, mixins, defs) && i < |placed|
    requires forall k :: 0 <= k < |placed| ==> placed[k].mixin in mixins && Forced(placed, k, defs, floor)
    requires floor < placed[i].at <= |defs|
    ensures Above(out, Def(defs[placed[i].at - 1].name), Mix(placed[i].mixin.name))
    decreases i
  {
    hide Above, GoodFile, DefIndex;
    var m := placed[i].mixin;
    assert Forced(placed, i, defs, floor) && m in mixins;
    if ref :| ref in m.refs && DefIndex(defs, ref) == placed[i].at - 1 {
      assert IsDef(defs, ref);
      NamedIsAbove(out, mixins, defs, m, ref);
    } else {
      var j :| 0 <= j < i && placed[j].mixin.name in m.refs && placed[j].at == placed[i].at;
      ForcedBelow(out, placed, j, mixins, defs, floor);
      assert placed[j].mixin in mixins && IsMixin(mixins, placed[j].mixin.name);
      NamedIsAbove(out, mixins, defs, m, placed[j].mixin.name);
      AboveIsTransitive(out, Def(defs[placed[i].at - 1].name), Mix(placed[j].mixin.name), Mix(m.name));
    }
  }

  lemma NamedIsAbove(out: seq<Item>, mixins: seq<Mixin>, defs: seq<Definition>, m: Mixin, ref: string)
    requires GoodFile(out, mixins, defs) && m in mixins && ref in m.refs
    ensures IsDef(defs, ref) ==> Above(out, Def(ref), Mix(m.name))
    ensures IsMixin(mixins, ref) ==> Above(out, Mix(ref), Mix(m.name))
  {
  }

  lemma AboveIsTransitive(out: seq<Item>, x: Item, y: Item, z: Item)
    requires Above(out, x, y) && Above(out, y, z)
    ensures Above(out, x, z)
  {
  }

  /** The placement error is raised only where no file is good. */
  lemma BlockedHasNoFile(
    out: seq<Item>, placed: seq<Placed>, m: Mixin, at: nat, mixins: seq<Mixin>, defs: seq<Definition>, floor: nat)
    requires Blocked(placed, m, at, defs, floor) && m in mixins
    requires forall k :: 0 <= k < |placed| ==> placed[k].mixin in mixins && Forced(placed, k, defs, floor)
    requires forall k :: 0 <= k < |placed| ==> placed[k].at <= |defs|
    ensures !GoodFile(out, mixins, defs)
  {
    hide GoodFile, Forced, Blocked, Above;
    var longer := placed + [Placed(m, at)];
    var d := BlockedHeir(placed, m, at, defs, floor);
    NewIsForced(placed, m, at, mixins, defs, floor);
    assert longer[|placed|] == Placed(m, at);
    if GoodFile(out, mixins, defs) {
      HeirIsAboveAll(out, mixins, defs, m, d, at - 1);
      NotBothAbove(out, Mix(m.name), Def(defs[at - 1].name));
      ForcedBelow(out, longer, |placed|, mixins, defs, floor);
    }
  }

  lemma BlockedHeir(placed: seq<Placed>, m: Mixin, at: nat, defs: seq<Definition>, floor: nat) returns (d: nat)
    requires Blocked(placed, m, at, defs, floor)
    ensures d < |defs| && m.name in defs[d].mixins && d < at
  {
    d :| 0 <= d < |defs| && m.name in defs[d].mixins && d < at;
  }

  /** A mixin above an heir is above every definition below that. */
  lemma HeirIsAboveAll(out: seq<Item>, mixins: seq<Mixin>, defs: seq<Definition>, m: Mixin, d: nat, e: nat)
    requires GoodFile(out, mixins, defs) && m in mixins && d <= e < |defs| && m.name in defs[d].mixins
    ensures Above(out, Mix(m.name), Def(defs[e].name))
  {
    hide GoodFile, Above;
    HeirIsAbove(out, mixins, defs, m, d);
    if d < e {
      DefsAreAbove(out, mixins, defs, d, e);
      AboveIsTransitive(out, Mix(m.name), Def(defs[d].name), Def(defs[e].name));
    }
  }

  lemma NotBothAbove(out: seq<Item>, x: Item, y: Item)
    ensures !(Above(out, x, y) && Above(out, y, x))
  {
  }

  lemma HeirIsAbove(out: seq<Item>, mixins: seq<Mixin>, defs: seq<Definition>, m: Mixin, d: nat)
    requires GoodFile(out, mixins, defs) && m in mixins && d < |defs| && m.name in defs[d].mixins
    ensures Above(out, Mix(m.name), Def(defs[d].name))
  {
    hide Above;
    assert defs[d] in defs;
  }

  lemma DefsAreAbove(out: seq<Item>, mixins: seq<Mixin>, defs: seq<Definition>, i: nat, j: nat)
    requires GoodFile(out, mixins, defs) && i < j < |defs|
    ensures Above(out, Def(defs[i].name), Def(defs[j].name))
  {
    hide Above;
  }

  /** The refused mixin is forced as a placed one would be. */
  lemma NewIsForced(placed: seq<Placed>, m: Mixin, at: nat, mixins: seq<Mixin>, defs: seq<Definition>, floor: nat)
    requires Blocked(placed, m, at, defs, floor) && m in mixins
    requires forall k :: 0 <= k < |placed| ==> placed[k].mixin in mixins && Forced(placed, k, defs, floor)
    requires forall k :: 0 <= k < |placed| ==> placed[k].at <= |defs|
    ensures forall k :: 0 <= k <= |placed| ==>
      (placed + [Placed(m, at)])[k].mixin in mixins && Forced(placed + [Placed(m, at)], k, defs, floor)
    ensures floor < at <= |defs|
  {
    var longer := placed + [Placed(m, at)];
    assert forall k :: 0 <= k < |placed| ==> longer[k] == placed[k];
    forall k | 0 <= k < |longer| ensures longer[k].mixin in mixins && Forced(longer, k, defs, floor) {
      if k < |placed| { assert Forced(placed, k, defs, floor); }
    }
  }

  /** Mixins that name each other in a ring have no file. */
  lemma {:induction false} MixinChainRises(
    out: seq<Item>, mixins: seq<Mixin>, defs: seq<Definition>, graph: Ordering.Graph, chain: seq<string>, i: nat)
    requires GoodFile(out, mixins, defs) && IsMixinGraph(graph, mixins) && Ordering.IsChain(chain, graph) && i < |chain|
    ensures Mix(chain[i]) in out && Mix(chain[0]) in out
    ensures Ordering.IndexOf(out, Mix(chain[i])) + i <= Ordering.IndexOf(out, Mix(chain[0]))
  {
    if i == 0 {
      assert chain[0] in chain && IsMixin(mixins, chain[0]);
    } else {
      MixinChainRises(out, mixins, defs, graph, chain, i - 1);
      MixinReferenceRises(out, mixins, defs, graph, chain[i - 1], chain[i]);
    }
  }

  lemma MixinReferenceRises(
    out: seq<Item>, mixins: seq<Mixin>, defs: seq<Definition>, graph: Ordering.Graph, name: string, ref: string)
    requires GoodFile(out, mixins, defs) && IsMixinGraph(graph, mixins) && name in graph && ref in graph[name]
    ensures Above(out, Mix(ref), Mix(name))
  {
    var m :| m in mixins && m.name == name;
    assert IsMixin(mixins, ref) && ref in m.refs;
  }

  lemma RingHasNoFile(
    out: seq<Item>, mixins: seq<Mixin>, defs: seq<Definition>, graph: Ordering.Graph, chain: seq<string>)
    requires IsMixinGraph(graph, mixins) && Ordering.IsCycle(chain, graph)
    ensures !GoodFile(out, mixins, defs)
  {
    hide GoodFile, IsMixinGraph;
    if GoodFile(out, mixins, defs) {
      var last := |chain| - 1;
      assert chain[last] in chain;
      MixinChainRises(out, mixins, defs, graph, chain, last);
      MixinReferenceRises(out, mixins, defs, graph, chain[last], chain[0]);
    }
  }

  // ---------------------------------------------------------------------------
  // The whole step
  // ---------------------------------------------------------------------------

  /** Each mixin with the mixins its fields name. */
  ghost predicate IsMixinGraph(graph: Ordering.Graph, mixins: seq<Mixin>) {
    && (forall name :: name in graph <==> IsMixin(mixins, name))
    && (forall m <- mixins :: forall ref :: ref in graph[m.name] <==> ref in m.refs && ref in graph)
  }

  function MixinRefs(refs: seq<string>, names: set<string>): (r: seq<string>)
    ensures forall ref :: ref in r <==> ref in refs && ref in names
  {
    if refs == [] then []
    else
      var k := |refs| - 1;
      assert refs == refs[..k] + [refs[k]];
      if refs[k] in names then MixinRefs(refs[..k], names) + [refs[k]] else MixinRefs(refs[..k], names)
  }

  /** No definition so far has a mixin. */
  ghost predicate Leading(defs: seq<Definition>, d: nat)
    requires d < |defs|
  {
    forall j :: 0 <= j <= d ==> defs[j].mixins == {}
  }

  /** In every good file the definition stands above the mixin. */
  ghost predicate Must(mixins: seq<Mixin>, defs: seq<Definition>, d: nat, m: Mixin)
    requires d < |defs|
  {
    forall out :: GoodFile(out, mixins, defs) ==> Above(out, Def(defs[d].name), Mix(m.name))
  }

  /** Only what leads, or must, stands above a mixin. */
  ghost predicate AsEarlyAsCanBe(out: seq<Item>, mixins: seq<Mixin>, defs: seq<Definition>) {
    forall m <- mixins, d :: 0 <= d < |defs| ==>
      (Above(out, Def(defs[d].name), Mix(m.name)) <==> Leading(defs, d) || Must(mixins, defs, d, m))
  }

  lemma SlotDecides(
    out: seq<Item>, keys: seq<Key>, placed: seq<Placed>, defs: seq<Definition>, d: nat, t: nat)
    requires Keyed(out, keys, placed, defs) && DistinctItems(out) && AllWritten(keys, placed, defs)
    requires d < |defs| && t < |placed|
    ensures Above(out, Def(defs[d].name), Mix(placed[t].mixin.name)) <==> d < placed[t].at
  {
    hide Keyed, DistinctItems, Above;
    var x, y := Def(defs[d].name), Mix(placed[t].mixin.name);
    if d < placed[t].at {
      KeyedIsAbove(out, keys, placed, defs, x, (d, |placed|), y, (placed[t].at, t));
    } else {
      KeyedIsAbove(out, keys, placed, defs, y, (placed[t].at, t), x, (d, |placed|));
      NotBothAbove(out, x, y);
    }
  }

  lemma ForcedMust(placed: seq<Placed>, t: nat, mixins: seq<Mixin>, defs: seq<Definition>, floor: nat, d: nat)
    requires t < |placed| && floor <= d < placed[t].at <= |defs|
    requires forall k :: 0 <= k < |placed| ==> placed[k].mixin in mixins && Forced(placed, k, defs, floor)
    ensures Must(mixins, defs, d, placed[t].mixin)
  {
    hide GoodFile, Above, Forced;
    var e, m := placed[t].at - 1, placed[t].mixin;
    forall out | GoodFile(out, mixins, defs) ensures Above(out, Def(defs[d].name), Mix(m.name)) {
      ForcedBelow(out, placed, t, mixins, defs, floor);
      if d < e {
        DefsAreAbove(out, mixins, defs, d, e);
        AboveIsTransitive(out, Def(defs[d].name), Def(defs[e].name), Mix(m.name));
      }
    }
  }

  lemma FileIsEarly(out: seq<Item>, keys: seq<Key>, placed: seq<Placed>, mixins: seq<Mixin>, defs: seq<Definition>)
    requires Keyed(out, keys, placed, defs) && WrittenTo(keys, placed, defs, |defs| + 1, 0)
    requires AllPlaced(placed, mixins, defs) && GoodFile(out, mixins, defs)
    requires forall k :: 0 <= k < |placed| ==> placed[k].mixin in mixins && Forced(placed, k, defs, Floor(defs))
    requires forall k :: 0 <= k < |placed| ==> Floor(defs) <= placed[k].at
    ensures AsEarlyAsCanBe(out, mixins, defs)
  {
    hide *;
    EveryClassStands(out, keys, placed, mixins, defs);
    GoodIsDistinct(out, mixins, defs);
    forall m <- mixins, d | 0 <= d < |defs|
      ensures Above(out, Def(defs[d].name), Mix(m.name)) <==> Leading(defs, d) || Must(mixins, defs, d, m)
    {
      var t := PlaceOf(placed, mixins, defs, m);
      SlotDecides(out, keys, placed, defs, d, t);
      LeadsExactly(defs, d);
      if Floor(defs) <= d < placed[t].at {
        ForcedMust(placed, t, mixins, defs, Floor(defs), d);
      }
      if Must(mixins, defs, d, m) { MustHolds(out, mixins, defs, d, m); }
    }
    EarlyIs(out, mixins, defs);
  }

  lemma EarlyIs(out: seq<Item>, mixins: seq<Mixin>, defs: seq<Definition>)
    requires forall m <- mixins, d :: 0 <= d < |defs| ==>
      (Above(out, Def(defs[d].name), Mix(m.name)) <==> Leading(defs, d) || Must(mixins, defs, d, m))
    ensures AsEarlyAsCanBe(out, mixins, defs)
  {
    hide Above, Leading, Must;
  }

  lemma GoodIsDistinct(out: seq<Item>, mixins: seq<Mixin>, defs: seq<Definition>)
    requires GoodFile(out, mixins, defs)
    ensures DistinctItems(out)
  {
  }

  lemma PlaceOf(placed: seq<Placed>, mixins: seq<Mixin>, defs: seq<Definition>, m: Mixin) returns (t: nat)
    requires AllPlaced(placed, mixins, defs) && m in mixins
    ensures t < |placed| && placed[t].mixin == m && placed[t].at <= |defs|
  {
    hide WellPlaced;
    PlacedFits(placed, defs);
    t :| 0 <= t < |placed| && placed[t].mixin == m;
  }

  lemma LeadsExactly(defs: seq<Definition>, d: nat)
    requires d < |defs|
    ensures Leading(defs, d) <==> d < Floor(defs)
  {
  }

  lemma MustHolds(out: seq<Item>, mixins: seq<Mixin>, defs: seq<Definition>, d: nat, m: Mixin)
    requires GoodFile(out, mixins, defs) && d < |defs| && Must(mixins, defs, d, m)
    ensures Above(out, Def(defs[d].name), Mix(m.name))
  {
    hide GoodFile, Above;
  }

  /**
    A good file, or None; None exactly when there is no good file. In it, a definition stands above a
    mixin only if no definition so far has mixins, or if it does so in every good file.
   */
  method PlaceMixins(mixins: seq<Mixin>, defs: seq<Definition>) returns (r: Option<seq<Item>>)
    requires DistinctNames(defs) && forall i, j :: 0 <= i < j < |mixins| ==> mixins[i].name != mixins[j].name
    ensures r.Some? ==> GoodFile(r.value, mixins, defs)
    ensures r.Some? ==> AsEarlyAsCanBe(r.value, mixins, defs)
    ensures r.None? ==> forall out :: !GoodFile(out, mixins, defs)
  {
    hide GoodFile, WellPlaced, Forced, Blocked, Keyed, WrittenTo, Ordering.IsOrder, AsEarlyAsCanBe;
    var names, byName, graph := MixinTables(mixins);
    var order := Ordering.BuildOrder(names, graph);
    if order.None? {
      forall out ensures !GoodFile(out, mixins, defs) {
        var chain :| Ordering.IsCycle(chain, graph);
        RingHasNoFile(out, mixins, defs, graph, chain);
      }
      return None;
    }
    var shapes := ShapesInOrder(order.value, byName, graph, mixins);
    var floor := Floor(defs);
    assert Lined(shapes, defs, floor);
    hide Lined;
    var placed, blocked := PlaceAll(shapes, defs, floor);
    if blocked.Some? {
      forall out ensures !GoodFile(out, mixins, defs) {
        PlacedFits(placed, defs);
        BlockedHasNoFile(out, placed, blocked.value.0, blocked.value.1, mixins, defs, floor);
      }
      return None;
    }
    var out := Emit(placed, defs);
    ghost var keys :| Keyed(out, keys, placed, defs) && WrittenTo(keys, placed, defs, |defs| + 1, 0);
    assert AllPlaced(placed, mixins, defs) by {
      assert forall m :: m in shapes <==> exists i :: 0 <= i < |placed| && placed[i].mixin == m;
    }
    FileIsGood(out, keys, placed, mixins, defs);
    FileIsEarly(out, keys, placed, mixins, defs);
    return Some(out);
  }

  lemma PlacedFits(placed: seq<Placed>, defs: seq<Definition>)
    requires forall k :: 0 <= k < |placed| ==> WellPlaced(placed, k, defs)
    ensures forall k :: 0 <= k < |placed| ==> placed[k].at <= |defs|
  {
    forall k | 0 <= k < |placed| ensures placed[k].at <= |defs| {
      assert WellPlaced(placed, k, defs);
    }
  }

  /** The mixin names, the mixins by name, and what each names among them. */
  method MixinTables(mixins: seq<Mixin>)
    returns (names: seq<string>, byName: map<string, Mixin>, graph: Ordering.Graph)
    requires forall i, j :: 0 <= i < j < |mixins| ==> mixins[i].name != mixins[j].name
    ensures IsMixinGraph(graph, mixins) && !Ordering.HasMissing(graph)
    ensures forall name :: name in names <==> name in graph
    ensures byName.Keys == graph.Keys && forall m :: m in mixins <==> m.name in byName && byName[m.name] == m
  {
    hide IsMixinGraph, Ordering.HasMissing, MixinRefs, NamesOf;
    NamesAreUnique(mixins);
    var nameSet := set m <- mixins :: m.name;
    names := NamesOf(mixins);
    byName := map m <- mixins :: m.name := m;
    graph := map name <- byName :: name := MixinRefs(byName[name].refs, nameSet);
    TablesAreRight(mixins, byName, graph, nameSet);
  }

  lemma TablesAreRight(
    mixins: seq<Mixin>, byName: map<string, Mixin>, graph: Ordering.Graph, nameSet: set<string>)
    requires nameSet == set m <- mixins :: m.name
    requires byName.Keys == nameSet == graph.Keys && forall m <- mixins :: byName[m.name] == m
    requires forall name <- graph :: graph[name] == MixinRefs(byName[name].refs, nameSet)
    ensures IsMixinGraph(graph, mixins) && !Ordering.HasMissing(graph)
  {
    assert forall name <- graph :: forall ref :: ref in graph[name] <==> ref in byName[name].refs && ref in nameSet;
  }

  function NamesOf(mixins: seq<Mixin>): (r: seq<string>)
    ensures forall name :: name in r <==> IsMixin(mixins, name)
  {
    if mixins == [] then []
    else
      var k := |mixins| - 1;
      assert mixins == mixins[..k] + [mixins[k]];
      NamesOf(mixins[..k]) + [mixins[k].name]
  }

  lemma NamesAreUnique(mixins: seq<Mixin>)
    requires forall i, j :: 0 <= i < j < |mixins| ==> mixins[i].name != mixins[j].name
    ensures forall m, w :: m in mixins && w in mixins && m.name == w.name ==> m == w
  {
  }

  lemma NamedByKey(byName: map<string, Mixin>, mixins: seq<Mixin>, graph: Ordering.Graph)
    requires IsMixinGraph(graph, mixins) && byName.Keys == graph.Keys
    requires forall m :: m in mixins <==> m.name in byName && byName[m.name] == m
    ensures forall name <- byName :: byName[name].name == name && byName[name] in mixins
  {
    forall name <- byName ensures byName[name].name == name && byName[name] in mixins {
      assert name in graph;
      var m :| m in mixins && m.name == name;
    }
  }

  ghost predicate Named(shapes: seq<Mixin>, order: seq<string>, mixins: seq<Mixin>) {
    |shapes| == |order| && forall i :: 0 <= i < |shapes| ==> shapes[i].name == order[i] && shapes[i] in mixins
  }

  method ShapesInOrder(
    order: seq<string>, byName: map<string, Mixin>, ghost graph: Ordering.Graph, ghost mixins: seq<Mixin>)
    returns (shapes: seq<Mixin>)
    requires Ordering.IsOrder(order, graph) && IsMixinGraph(graph, mixins) && byName.Keys == graph.Keys
    requires forall m :: m in mixins <==> m.name in byName && byName[m.name] == m
    ensures forall m :: m in shapes <==> m in mixins
    ensures forall i, j :: 0 <= i < j < |shapes| ==> shapes[i].name != shapes[j].name
    ensures forall i, j :: 0 <= i < |shapes| && 0 <= j < |shapes| && shapes[j].name in shapes[i].refs ==> j < i
  {
    assert forall i :: 0 <= i < |order| ==> order[i] in graph by {
      assert forall i :: 0 <= i < |order| ==> order[i] in order;
    }
    NamedByKey(byName, mixins, graph);
    hide Ordering.IsOrder, IsMixinGraph;
    shapes := seq(|order|, i requires 0 <= i < |order| => byName[order[i]]);
    assert Named(shapes, order, mixins);
    OrderedShapes(shapes, order, graph, mixins);
    forall m <- mixins ensures m in shapes {
      OrderHas(order, graph, mixins, m);
      var i :| 0 <= i < |order| && order[i] == m.name;
      assert shapes[i] == m;
    }
  }

  lemma OrderHas(order: seq<string>, graph: Ordering.Graph, mixins: seq<Mixin>, m: Mixin)
    requires Ordering.IsOrder(order, graph) && IsMixinGraph(graph, mixins) && m in mixins
    ensures m.name in order
  {
  }

  lemma OrderedShapes(shapes: seq<Mixin>, order: seq<string>, graph: Ordering.Graph, mixins: seq<Mixin>)
    requires Ordering.IsOrder(order, graph) && IsMixinGraph(graph, mixins) && Named(shapes, order, mixins)
    ensures forall i, j :: 0 <= i < j < |shapes| ==> shapes[i].name != shapes[j].name
    ensures forall i, j :: 0 <= i < |shapes| && 0 <= j < |shapes| && shapes[j].name in shapes[i].refs ==> j < i
  {
    forall i, j | 0 <= i < |shapes| && 0 <= j < |shapes| && shapes[j].name in shapes[i].refs ensures j < i {
      assert order[j] in order && order[j] in graph[shapes[i].name];
      assert order[j] in order[..i];
    }
  }
}

/** Dropping the messages whose subtree checks nothing, and what that does to the guard and the merger. */
module ScanPrune {
  import opened Options
  import opened Varint
  import opened Tokens
  import opened ScanTable
  import opened Guard

  /** The level itself has something to check or merge. */
  predicate Checks(spec: ScanSpec) { spec.singular != {} || spec.arms != {} }

  predicate ChildIn(spec: ScanSpec, names: set<string>) {
    exists n <- spec.descend :: spec.descend[n] in names
  }

  /** A chain of descents from its first name to a level that checks something. */
  ghost predicate LeadsToCheck(specs: Table, path: seq<string>) {
    && path != []
    && (forall i :: 0 <= i < |path| ==> path[i] in specs)
    && (forall i :: 0 <= i < |path| - 1 ==> path[i + 1] in specs[path[i]].descend.Values)
    && Checks(specs[path[|path| - 1]])
  }

  ghost predicate Worthwhile(specs: Table, name: string) {
    exists path :: LeadsToCheck(specs, path) && path[0] == name
  }

  lemma WorthwhileByChild(specs: Table, name: string, child: string)
    requires name in specs && child in specs[name].descend.Values && Worthwhile(specs, child)
    ensures Worthwhile(specs, name)
  {
    var path :| LeadsToCheck(specs, path) && path[0] == child;
    var longer := [name] + path;
    forall i | 0 <= i < |longer| - 1 ensures longer[i + 1] in specs[longer[i]].descend.Values {
      if i > 0 { assert longer[i] == path[i - 1] && longer[i + 1] == path[i - 1 + 1]; }
    }
    assert longer[|longer| - 1] == path[|path| - 1];
    assert LeadsToCheck(specs, longer);
  }

  /** A set closed under "checks, or has a child in it" holds every worthwhile name. */
  lemma FixpointHolds(specs: Table, found: set<string>, name: string)
    requires forall k <- specs :: Checks(specs[k]) || ChildIn(specs[k], found) ==> k in found
    requires Worthwhile(specs, name)
    ensures name in found
  {
    var path :| LeadsToCheck(specs, path) && path[0] == name;
    var i := |path| - 1;
    while i > 0
      invariant 0 <= i < |path| && path[i] in found
    {
      i := i - 1;
      var spec := specs[path[i]];
      var n :| n in spec.descend && spec.descend[n] == path[i + 1];
      assert ChildIn(spec, found);
    }
  }

  /** Sweeps until nothing is added. The result is exactly the worthwhile names, cycles or not. */
  method FindWorthwhile(specs: Table) returns (found: set<string>)
    ensures forall name :: name in found <==> Worthwhile(specs, name)
  {
    hide LeadsToCheck;
    found := {};
    var changed := true;
    while changed
      invariant found <= specs.Keys
      invariant forall name <- found :: Worthwhile(specs, name)
      invariant !changed ==> forall k <- specs :: Checks(specs[k]) || ChildIn(specs[k], found) ==> k in found
      decreases specs.Keys - found, changed
    {
      changed := false;
      ghost var before := found;
      var todo := specs.Keys;
      while todo != {}
        invariant todo <= specs.Keys && before <= found <= specs.Keys
        invariant forall name <- found :: Worthwhile(specs, name)
        invariant !changed ==> found == before
        invariant changed ==> before < found
        invariant !changed ==>
          forall k <- specs.Keys - todo :: Checks(specs[k]) || ChildIn(specs[k], found) ==> k in found
        decreases todo
      {
        var name :| name in todo;
        todo := todo - {name};
        if name in found { continue; }
        if Checks(specs[name]) || ChildIn(specs[name], found) {
          if Checks(specs[name]) {
            ChecksIsWorthwhile(specs, name);
          } else {
            ghost var n :| n in specs[name].descend && specs[name].descend[n] in found;
            WorthwhileByChild(specs, name, specs[name].descend[n]);
          }
          found := found + {name};
          changed := true;
        }
      }
    }
    forall name | Worthwhile(specs, name) ensures name in found {
      FixpointHolds(specs, found, name);
    }
  }

  lemma ChecksIsWorthwhile(specs: Table, name: string)
    requires name in specs && Checks(specs[name])
    ensures Worthwhile(specs, name)
  {
    assert LeadsToCheck(specs, [name]);
  }

  function PruneSpec(spec: ScanSpec, keep: set<string>): ScanSpec {
    spec.(descend := map n | n in spec.descend && spec.descend[n] in keep :: spec.descend[n])
  }

  /** The table the runtimes ship: worthwhile specs only, descending into worthwhile children only. */
  function Prune(specs: Table, keep: set<string>): Table {
    map name | name in specs && name in keep :: PruneSpec(specs[name], keep)
  }

  /** `keep` is the outcome of the fixpoint. */
  ghost predicate KeepsWorthwhile(specs: Table, keep: set<string>) {
    forall name :: name in keep <==> Worthwhile(specs, name)
  }

  lemma DroppedChecksNothing(specs: Table, keep: set<string>, name: string)
    requires KeepsWorthwhile(specs, keep) && name in specs && name !in keep
    ensures specs[name].singular == {} && specs[name].arms == {}
    ensures forall n <- specs[name].descend :: specs[name].descend[n] !in keep
  {
    hide LeadsToCheck;
    if Checks(specs[name]) { ChecksIsWorthwhile(specs, name); }
    forall n <- specs[name].descend ensures specs[name].descend[n] !in keep {
      if specs[name].descend[n] in keep {
        assert specs[name].descend[n] in specs[name].descend.Values;
        WorthwhileByChild(specs, name, specs[name].descend[n]);
      }
    }
  }

  // ---------------------------------------------------------------------------
  // The guard
  // ---------------------------------------------------------------------------

  /** Below a dropped message the guard only checks well-formedness. */
  lemma {:induction false} DroppedIsStructural(
    s: bytes, d: nat, arm: nat, specs: Table, keep: set<string>, name: string)
    requires KeepsWorthwhile(specs, keep) && name in specs && name !in keep
    ensures ScanFrom(s, d, arm, specs[name], specs) <==>
            ScanFrom(s, d, 0, NoArms(specs[name]), Structural(specs))
    decreases |s|
  {
    hide TakeToken, Worthwhile, ScanFrom;
    if s == [] {
      ScanDone(s, d, arm, specs[name], specs);
      ScanDone(s, d, 0, NoArms(specs[name]), Structural(specs));
    } else {
      ScanUnfold(s, d, arm, specs[name], specs);
      ScanUnfold(s, d, 0, NoArms(specs[name]), Structural(specs));
      DroppedChecksNothing(specs, keep, name);
      if TakeToken(Loose, s).Some? {
        var t := TakeToken(Loose, s).value;
        var rest := s[t.size..];
        if t.wireType == START_GROUP {
          DroppedIsStructural(rest, d + 1, arm, specs, keep, name);
        } else if t.wireType == END_GROUP {
          if d > 0 { DroppedIsStructural(rest, d - 1, arm, specs, keep, name); }
        } else {
          DroppedIsStructural(rest, d, arm, specs, keep, name);
          if GuardChild(specs[name], specs, t.field).Some? {
            DroppedIsStructural(t.payload, 0, 0, specs, keep, specs[name].descend[t.field]);
          }
        }
      }
    }
  }

  /** One token's payload: full check = pruned check + well-formedness. */
  ghost predicate ChildSplits(t: Token, specs: Table, keep: set<string>, name: string)
    requires name in specs
  {
    ScanChild(t, specs[name], specs) <==>
      && ScanChild(t, PruneSpec(specs[name], keep), Prune(specs, keep))
      && ScanChild(t, NoArms(specs[name]), Structural(specs))
  }

  lemma {:induction false} ChildSplit(t: Token, specs: Table, keep: set<string>, name: string)
    requires KeepsWorthwhile(specs, keep) && name in specs
    ensures ChildSplits(t, specs, keep, name)
    decreases |t.payload|, 1
  {
    hide ScanFrom, Worthwhile;
    if GuardChild(specs[name], specs, t.field).Some? {
      var child := specs[name].descend[t.field];
      if child in keep {
        PruningKeepsVerdict(t.payload, 0, 0, specs, keep, child);
      } else {
        DroppedIsStructural(t.payload, 0, 0, specs, keep, child);
      }
    }
  }

  /**
    For every kept message: the full graph's guard accepts exactly when the pruned graph's
    guard accepts and every nested payload is well formed.
   */
  lemma {:induction false} PruningKeepsVerdict(
    s: bytes, d: nat, arm: nat, specs: Table, keep: set<string>, name: string)
    requires KeepsWorthwhile(specs, keep) && name in specs
    ensures ScanFrom(s, d, arm, specs[name], specs) <==>
            && ScanFrom(s, d, arm, PruneSpec(specs[name], keep), Prune(specs, keep))
            && ScanFrom(s, d, 0, NoArms(specs[name]), Structural(specs))
    decreases |s|, 0
  {
    hide TakeToken, KeepsWorthwhile, ScanFrom, ScanChild;
    var full, pruned, plain := specs[name], PruneSpec(specs[name], keep), NoArms(specs[name]);
    if s == [] {
      ScanDone(s, d, arm, full, specs);
      ScanDone(s, d, arm, pruned, Prune(specs, keep));
      ScanDone(s, d, 0, plain, Structural(specs));
    } else {
      ScanUnfold(s, d, arm, full, specs);
      ScanUnfold(s, d, arm, pruned, Prune(specs, keep));
      ScanUnfold(s, d, 0, plain, Structural(specs));
      if TakeToken(Loose, s).Some? {
        var t := TakeToken(Loose, s).value;
        var rest := s[t.size..];
        if t.wireType == START_GROUP {
          PruningKeepsVerdict(rest, d + 1, arm, specs, keep, name);
        } else if t.wireType == END_GROUP {
          if d > 0 { PruningKeepsVerdict(rest, d - 1, arm, specs, keep, name); }
        } else {
          var arm' := if t.wireType == LEN && d == 0 && t.field in full.arms then t.field else arm;
          PruningKeepsVerdict(rest, d, arm', specs, keep, name);
          ChildSplit(t, specs, keep, name);
        }
      }
    }
  }
}

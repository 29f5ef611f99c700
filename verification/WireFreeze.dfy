/** The append-only allocator of wire numbers, and its safety over any number of generator runs. */
module WireFreeze {
  import opened Options
  import opened Text
  import opened FreezeText

  // ---------------------------------------------------------------------------
  // Allocation groups
  // ---------------------------------------------------------------------------

  predicate StartsLower(s: string) { s != [] && 'a' <= s[0] <= 'z' }

  /** Oneof segments at the end are dropped, but never the last segment left. */
  function DropOneofs(segments: seq<string>): seq<string> {
    if |segments| > 1 && StartsLower(segments[|segments| - 1])
    then DropOneofs(segments[..|segments| - 1])
    else segments
  }

  /** The message or enum whose number space a slot draws from. */
  function GroupOf(key: string): string {
    var segments := Split(key, '.');
    Join(DropOneofs(segments[..|segments| - 1]), '.')
  }

  /** A oneof shares its message's number space: its segment makes no difference to the group. */
  lemma OneofSharesGroup(scope: string, oneof: string, leaf: string)
    requires StartsLower(oneof) && '.' !in oneof && '.' !in leaf
    ensures GroupOf(scope + "." + oneof + "." + leaf) == GroupOf(scope + "." + leaf)
  {
    hide Split;
    var s := Split(scope, '.');
    SplitConcat(scope, leaf, '.');
    SplitConcat(scope + "." + oneof, leaf, '.');
    SplitConcat(scope, oneof, '.');
    assert (s + [leaf])[..|s|] == s;
    assert (s + [oneof] + [leaf])[..|s| + 1] == s + [oneof];
    assert (s + [oneof])[..|s|] == s;
  }

  /** A nested message, whose name does not start in lower case, has a number space of its own. */
  lemma MessageOwnsGroup(scope: string, message: string, leaf: string)
    requires !StartsLower(message) && '.' !in message && '.' !in leaf
    ensures GroupOf(scope + "." + message + "." + leaf) == scope + "." + message
  {
    hide Split, Join;
    var name := scope + "." + message;
    SplitConcat(name, leaf, '.');
    SplitConcat(scope, message, '.');
    var s := Split(name, '.');
    assert s[|s| - 1] == message;
    assert (s + [leaf])[..|s|] == s;
    JoinSplit(name, '.');
  }

  // ---------------------------------------------------------------------------
  // What one allocation does to the ledger
  // ---------------------------------------------------------------------------

  /** `n` is the first number from `start` on that is above every number of the group. */
  ghost predicate NextFree(ledger: Ledger, group: string, start: nat, n: nat) {
    && n >= start
    && (forall k <- ledger :: GroupOf(k) == group ==> ledger[k] < n)
    && (n == start || exists k <- ledger :: GroupOf(k) == group && ledger[k] == n - 1)
  }

  /** Enum values are numbered from 0, fields from 1. */
  datatype Call = Call(key: string, isEnum: bool)

  function First(call: Call): nat { if call.isEnum then 0 else 1 }

  ghost predicate Allocates(before: Ledger, call: Call, after: Ledger) {
    if call.key in before then after == before
    else
      && call.key in after
      && NextFree(before, GroupOf(call.key), First(call), after[call.key])
      && after == before[call.key := after[call.key]]
  }

  /** No two slots of a group share a number. */
  ghost predicate Distinct(ledger: Ledger) {
    forall j, k :: j in ledger && k in ledger && j != k && GroupOf(j) == GroupOf(k) ==> ledger[j] != ledger[k]
  }

  ghost predicate Extends(before: Ledger, after: Ledger) {
    forall k <- before :: k in after && after[k] == before[k]
  }

  lemma AllocationIsSafe(before: Ledger, call: Call, after: Ledger)
    requires Distinct(before) && Allocates(before, call, after)
    ensures Distinct(after) && Extends(before, after) && after.Keys == before.Keys + {call.key}
  {
    hide GroupOf;
  }

  // ---------------------------------------------------------------------------
  // The allocator object
  // ---------------------------------------------------------------------------

  class WireFreeze {
    var numbers: Ledger
    var groups: map<string, set<string>>
    var live: set<string>

    /** `groups` indexes exactly the keys of `numbers`. */
    ghost predicate Valid()
      reads this
    {
      && (forall k <- numbers :: GroupOf(k) in groups && k in groups[GroupOf(k)])
      && (forall g <- groups :: forall k <- groups[g] :: k in numbers && GroupOf(k) == g)
      && live <= numbers.Keys
    }

    constructor ()
      ensures Valid() && numbers == map[] && live == {}
    {
      numbers, groups, live := map[], map[], {};
    }

    method Record(key: string, number: nat)
      requires Valid()
      modifies this`numbers, this`groups
      ensures Valid() && numbers == old(numbers)[key := number]
    {
      hide GroupOf;
      var name := GroupOf(key);
      var group := if name in groups then groups[name] else {};
      numbers := numbers[key := number];
      groups := groups[name := group + {key}];
    }

    /** Reads a ledger text into a new object; false where the source throws. */
    method Load(text: string) returns (ok: bool)
      requires Valid() && numbers == map[] && live == {}
      modifies this`numbers, this`groups
      ensures Valid()
      ensures ok <==> ReadLedger(text).Some?
      ensures ok ==> numbers == ReadLedger(text).value
    {
      hide ReadLine;
      var lines := Split(text, '\n');
      for i := 0 to |lines|
        invariant Valid() && live == {}
        invariant ReadLines(lines[..i]) == Some(numbers)
      {
        assert lines[..i + 1] == lines[..i] + [lines[i]];
        ReadSnoc(lines[..i], lines[i]);
        var line := Trim(lines[i], JsSpace);
        if Ignored(line) { continue; }
        var entry := ReadLine(line);
        if entry.None? {
          PrefixUnreadable(lines, i + 1);
          return false;
        }
        Record(entry.value.0, entry.value.1);
      }
      assert lines[..|lines|] == lines;
      ok := true;
    }

    /** The frozen number of a slot, or the next free one of its group, recorded. */
    method NumberFor(call: Call) returns (n: nat)
      requires Valid()
      modifies this
      ensures Valid()
      ensures Allocates(old(numbers), call, numbers)
      ensures call.key in numbers && n == numbers[call.key]
      ensures live == old(live) + {call.key}
    {
      hide GroupOf;
      var key := call.key;
      if key in numbers {
        live := live + {key};
        return numbers[key];
      }
      var name := GroupOf(key);
      var members := if name in groups then groups[name] else {};
      var next := First(call);
      var todo := members;
      while todo != {}
        invariant todo <= members
        invariant next >= First(call)
        invariant forall k <- members - todo :: numbers[k] < next
        invariant next == First(call) || exists k <- members :: numbers[k] == next - 1
        decreases todo
      {
        var member :| member in todo;
        todo := todo - {member};
        if numbers[member] >= next { next := numbers[member] + 1; }
      }
      assert NextFree(numbers, name, First(call), next);
      Record(key, next);
      live := live + {key};
      n := next;
    }

    /** The numbers of a group's slots that this generation did not use, ascending. */
    method ReservedIn(groupName: string) returns (r: seq<nat>)
      requires Valid()
      ensures Reserves(r, numbers, live, groupName)
    {
      hide GroupOf;
      r := [];
      ghost var order: seq<string> := [];
      var members := {};
      if groupName in groups { members := set k | k in groups[groupName] && k !in live; }
      ghost var all := members;
      while members != {}
        invariant members <= all && Climbing(r) && Listed(order, r, numbers, all - members)
        decreases members
      {
        var k :| k in members;
        members := members - {k};
        var at := PlaceOf(r, numbers[k]);
        InsertListed(order, r, numbers, all - members - {k}, k, at);
        r := r[..at] + [numbers[k]] + r[at..];
        order := order[..at] + [k] + order[at..];
        assert all - members - {k} + {k} == all - members;
      }
      assert all - members == all;
      assert Draws(order, r, numbers, live, groupName);
    }

    /** Writes the ledger back, its lines ascending by slot. */
    method Emit(banner: string) returns (text: string)
      requires Valid()
      ensures exists order ::
        Ascending(order) && Enumerates(order, numbers) && text == WriteLedger(banner, order, numbers)
    {
      hide Less, InsertKey, WriteLedger;
      var keys := numbers.Keys;
      var listed: seq<string> := [];
      while keys != {}
        invariant keys <= numbers.Keys
        invariant Ascending(listed) && forall key :: key in listed <==> key in numbers.Keys - keys
        decreases keys
      {
        var key :| key in keys;
        keys := keys - {key};
        listed := InsertKey(listed, key);
      }
      AscendingEnumerates(listed, numbers);
      return WriteLedger(banner, listed, numbers);
    }
  }

  lemma PrefixUnreadable(lines: seq<string>, i: nat)
    requires i <= |lines| && ReadLines(lines[..i]).None?
    ensures ReadLines(lines).None?
    decreases |lines| - i
  {
    hide ReadLines, ReadLine;
    if i == |lines| {
      assert lines[..i] == lines;
    } else {
      assert lines[..i + 1] == lines[..i] + [lines[i]];
      ReadSnoc(lines[..i], lines[i]);
      PrefixUnreadable(lines, i + 1);
    }
  }

  ghost predicate Climbing(s: seq<nat>) { forall i, j :: 0 <= i < j < |s| ==> s[i] <= s[j] }

  ghost predicate Rising(s: seq<nat>) { forall i, j :: 0 <= i < j < |s| ==> s[i] < s[j] }

  /** `r` holds the number of each slot of `keys`, in the order of the slots listed. */
  ghost predicate Listed(order: seq<string>, r: seq<nat>, ledger: Ledger, keys: set<string>) {
    && |order| == |r| && keys <= ledger.Keys
    && (forall k :: k in order <==> k in keys)
    && (forall i, j :: 0 <= i < j < |order| ==> order[i] != order[j])
    && (forall i :: 0 <= i < |r| ==> order[i] in ledger && r[i] == ledger[order[i]])
  }

  ghost predicate Draws(order: seq<string>, r: seq<nat>, ledger: Ledger, live: set<string>, group: string) {
    Listed(order, r, ledger, set k | k in ledger && GroupOf(k) == group && k !in live)
  }

  /** Ascending, one number for each slot of the group that is not live. */
  ghost predicate Reserves(r: seq<nat>, ledger: Ledger, live: set<string>, group: string) {
    Climbing(r) && exists order :: Draws(order, r, ledger, live, group)
  }

  /** Behind everything smaller. */
  function PlaceOf(s: seq<nat>, v: nat): (i: nat)
    requires Climbing(s)
    ensures i <= |s| && (forall j :: 0 <= j < i ==> s[j] < v) && (forall j :: i <= j < |s| ==> v <= s[j])
  {
    if s == [] || v <= s[0] then 0 else 1 + PlaceOf(s[1..], v)
  }

  lemma Inserted<T>(s: seq<T>, x: T, at: nat)
    requires at <= |s|
    ensures var t := s[..at] + [x] + s[at..];
      && (forall i :: 0 <= i < at ==> t[i] == s[i]) && t[at] == x && (forall i :: at < i < |t| ==> t[i] == s[i - 1])
      && (forall y :: y in t <==> y == x || y in s)
  {
    assert s == s[..at] + s[at..];
  }

  lemma InsertListed(order: seq<string>, r: seq<nat>, ledger: Ledger, keys: set<string>, k: string, at: nat)
    requires Listed(order, r, ledger, keys) && Climbing(r) && k in ledger && k !in keys
    requires at <= |r|
    requires (forall j :: 0 <= j < at ==> r[j] < ledger[k]) && (forall j :: at <= j < |r| ==> ledger[k] <= r[j])
    ensures Listed(order[..at] + [k] + order[at..], r[..at] + [ledger[k]] + r[at..], ledger, keys + {k})
    ensures Climbing(r[..at] + [ledger[k]] + r[at..])
  {
    Inserted(order, k, at);
    Inserted(r, ledger[k], at);
    var longer, numbers := order[..at] + [k] + order[at..], r[..at] + [ledger[k]] + r[at..];
    assert |longer| == |numbers| == |r| + 1;
    forall i, j | 0 <= i < j < |longer| ensures longer[i] != longer[j] && numbers[i] <= numbers[j] {
      assert i < at || i == at || longer[i] == order[i - 1];
      assert j < at || j == at || longer[j] == order[j - 1];
    }
  }

  // ---------------------------------------------------------------------------
  // Runs and generations
  // ---------------------------------------------------------------------------

  /** One generator run: the ledger after each call, the order its lines are written in, and its banner. */
  datatype Run = Run(calls: seq<Call>, ledgers: seq<Ledger>, order: seq<string>, banner: string)

  /** The run starts from `before` and allocates call by call. */
  ghost predicate RunFrom(run: Run, before: Ledger) {
    && |run.ledgers| == |run.calls| + 1 && run.ledgers[0] == before
    && (forall i :: 0 <= i < |run.calls| ==> Allocates(run.ledgers[i], run.calls[i], run.ledgers[i + 1]))
    && (forall i :: 0 <= i < |run.calls| ==> IsKey(run.calls[i].key))
    && Enumerates(run.order, Final(run)) && IsBanner(run.banner)
  }

  function Final(run: Run): Ledger {
    if run.ledgers == [] then map[] else run.ledgers[|run.ledgers| - 1]
  }

  /** Each run reads the text the one before it wrote. `texts[0]` is the text the first run reads. */
  ghost predicate Generations(texts: seq<string>, runs: seq<Run>) {
    && |texts| == |runs| + 1
    && forall i :: 0 <= i < |runs| ==> Generation(texts[i], runs[i], texts[i + 1])
  }

  ghost predicate Generation(before: string, run: Run, after: string) {
    && ReadLedger(before).Some? && RunFrom(run, ReadLedger(before).value)
    && after == WriteLedger(run.banner, run.order, Final(run))
  }

  lemma {:induction false} RunIsSafe(run: Run, before: Ledger, i: nat)
    requires RunFrom(run, before) && Distinct(before) && LegalKeys(before)
    requires i <= |run.calls|
    ensures Distinct(run.ledgers[i]) && LegalKeys(run.ledgers[i]) && Extends(before, run.ledgers[i])
  {
    hide Distinct, Allocates, IsKey;
    if i > 0 {
      RunIsSafe(run, before, i - 1);
      AllocationIsSafe(run.ledgers[i - 1], run.calls[i - 1], run.ledgers[i]);
    }
  }

  /** One generation leaves a ledger the next can start from, and changes no number. */
  lemma GenerationIsSafe(before: string, run: Run, after: string)
    requires Generation(before, run, after) && Distinct(ReadLedger(before).value)
    ensures ReadLedger(after) == Some(Final(run))
    ensures Distinct(Final(run)) && Extends(ReadLedger(before).value, Final(run))
  {
    hide Distinct, LegalKeys, Extends, ReadLedger, WriteLedger, Allocates, IsBanner;
    ReadKeysAreLegal(before);
    RunIsSafe(run, ReadLedger(before).value, |run.calls|);
    LedgerRoundTrip(run.banner, run.order, Final(run));
  }

  /**
    Over any number of generations from a text whose numbers are distinct, each run with its
    own banner: every text in between reads back, no two slots of a group ever share a
    number, and a slot that has a number keeps it for good.
   */
  lemma {:induction false} NumbersAreForever(texts: seq<string>, runs: seq<Run>, i: nat, j: nat)
    requires Generations(texts, runs)
    requires ReadLedger(texts[0]).Some? && Distinct(ReadLedger(texts[0]).value)
    requires i <= j <= |runs|
    ensures ReadLedger(texts[i]).Some? && ReadLedger(texts[j]).Some?
    ensures Distinct(ReadLedger(texts[j]).value)
    ensures Extends(ReadLedger(texts[i]).value, ReadLedger(texts[j]).value)
  {
    hide Distinct, ReadLedger, Generation;
    if i < j {
      NumbersAreForever(texts, runs, i, j - 1);
      NextText(texts, runs, j - 1);
    } else if j > 0 {
      NumbersAreForever(texts, runs, 0, j - 1);
      NextText(texts, runs, j - 1);
    }
  }

  lemma NextText(texts: seq<string>, runs: seq<Run>, k: nat)
    requires Generations(texts, runs) && k < |runs|
    requires ReadLedger(texts[k]).Some? && Distinct(ReadLedger(texts[k]).value)
    ensures ReadLedger(texts[k + 1]).Some? && Distinct(ReadLedger(texts[k + 1]).value)
    ensures Extends(ReadLedger(texts[k]).value, ReadLedger(texts[k + 1]).value)
  {
    hide Distinct, ReadLedger, Extends, RunFrom;
    GenerationIsSafe(texts[k], runs[k], texts[k + 1]);
  }

  /** The slots a run asked for. */
  function LiveKeys(run: Run): (r: set<string>) { set call <- run.calls :: call.key }

  /** The numbers its calls got in a group. */
  function UsedIn(run: Run, ledger: Ledger, group: string): set<nat> {
    set call | call in run.calls && call.key in ledger && GroupOf(call.key) == group :: ledger[call.key]
  }

  lemma {:induction false} CalledIsThere(run: Run, before: Ledger, i: nat, j: nat)
    requires RunFrom(run, before) && j < i <= |run.calls|
    ensures run.calls[j].key in run.ledgers[i]
  {
    hide NextFree;
    assert Allocates(run.ledgers[i - 1], run.calls[i - 1], run.ledgers[i]);
    if j < i - 1 { CalledIsThere(run, before, i - 1, j); }
  }

  /**
    In every generation: the numbers its calls return for a group and the reserved list it
    gets for the group split the group's numbers, and the reserved list has no repetition.
   */
  lemma LiveAndReservedPartition(texts: seq<string>, runs: seq<Run>, k: nat, group: string, reserved: seq<nat>)
    requires Generations(texts, runs) && k < |runs|
    requires ReadLedger(texts[0]).Some? && Distinct(ReadLedger(texts[0]).value)
    requires Reserves(reserved, Final(runs[k]), LiveKeys(runs[k]), group)
    ensures var ledger := Final(runs[k]);
      var used := UsedIn(runs[k], ledger, group);
      var all := set key | key in ledger && GroupOf(key) == group :: ledger[key];
      && (forall call <- runs[k].calls :: call.key in ledger)
      && (forall v :: v in all <==> v in used || v in reserved)
      && (forall v <- used :: v !in reserved)
      && Rising(reserved)
  {
    NumbersAreForever(texts, runs, 0, k);
    GenerationIsSafe(texts[k], runs[k], texts[k + 1]) by { assert Generation(texts[k], runs[k], texts[k + 1]); }
    var run, ledger := runs[k], Final(runs[k]);
    forall call <- run.calls ensures call.key in ledger {
      var j :| 0 <= j < |run.calls| && run.calls[j] == call;
      CalledIsThere(run, ReadLedger(texts[k]).value, |run.calls|, j);
    }
    hide GroupOf, Generations, ReadLedger, RunFrom;
    ReservedSplits(run, ledger, group, reserved);
  }

  lemma ReservedSplits(run: Run, ledger: Ledger, group: string, reserved: seq<nat>)
    requires Distinct(ledger) && Reserves(reserved, ledger, LiveKeys(run), group)
    requires forall call <- run.calls :: call.key in ledger
    ensures var used := UsedIn(run, ledger, group);
      && (forall key <- ledger :: GroupOf(key) == group ==> ledger[key] in used || ledger[key] in reserved)
      && (forall v :: v in used || v in reserved ==> exists key <- ledger :: GroupOf(key) == group && ledger[key] == v)
      && (forall v <- used :: v !in reserved)
      && Rising(reserved)
  {
    hide GroupOf;
    var live := LiveKeys(run);
    var order :| Draws(order, reserved, ledger, live, group);
    forall i | 0 <= i < |reserved|
      ensures order[i] in ledger && order[i] !in live && GroupOf(order[i]) == group && reserved[i] == ledger[order[i]]
    {
      assert order[i] in order;
    }
    forall key <- ledger | GroupOf(key) == group && key !in live ensures ledger[key] in reserved {
      assert key in order;
      var i :| 0 <= i < |order| && order[i] == key;
      assert reserved[i] == ledger[key];
    }
  }
}

/** Dependency order of schema definitions: a depth-first walk that refuses exactly what has no order. */
module Ordering {
  import opened Options

  /** What each definition references, in the order the walk follows. */
  type Graph = map<string, seq<string>>

  datatype Status = Visiting | Done

  /** Each definition once, and every reference strictly earlier. */
  ghost predicate IsOrder(order: seq<string>, graph: Graph) {
    && (forall i, j :: 0 <= i < j < |order| ==> order[i] != order[j])
    && (forall name :: name in order <==> name in graph)
    && forall i :: 0 <= i < |order| ==> forall ref <- graph[order[i]] :: ref in order[..i]
  }

  /** A chain of references, each name a definition. */
  ghost predicate IsChain(chain: seq<string>, graph: Graph) {
    && (forall name <- chain :: name in graph)
    && forall i :: 0 <= i < |chain| - 1 ==> chain[i + 1] in graph[chain[i]]
  }

  ghost predicate IsCycle(chain: seq<string>, graph: Graph) {
    chain != [] && IsChain(chain, graph) && chain[0] in graph[chain[|chain| - 1]]
  }

  ghost predicate HasCycle(graph: Graph) { exists chain :: IsCycle(chain, graph) }

  ghost predicate HasMissing(graph: Graph) {
    exists name <- graph :: exists ref <- graph[name] :: ref !in graph
  }

  // ---------------------------------------------------------------------------
  // Neither can be ordered
  // ---------------------------------------------------------------------------

  function IndexOf<T(==)>(s: seq<T>, x: T): (i: nat)
    requires x in s
    ensures i < |s| && s[i] == x
  {
    if s[0] == x then 0 else 1 + IndexOf(s[1..], x)
  }

  lemma ReferenceIsEarlier(order: seq<string>, graph: Graph, name: string, ref: string)
    requires IsOrder(order, graph) && name in graph && ref in graph[name]
    ensures ref in graph && IndexOf(order, ref) < IndexOf(order, name)
  {
    var i := IndexOf(order, name);
    assert ref in order[..i];
    var j :| 0 <= j < i && order[j] == ref;
    assert IndexOf(order, ref) == j;
  }

  lemma {:induction false} ChainDescends(order: seq<string>, graph: Graph, chain: seq<string>, i: nat)
    requires IsOrder(order, graph) && IsChain(chain, graph) && i < |chain|
    ensures IndexOf(order, chain[i]) + i <= IndexOf(order, chain[0])
  {
    hide IsOrder;
    assert forall name <- chain :: name in order by { OrderHolds(order, graph); }
    if i > 0 {
      ChainDescends(order, graph, chain, i - 1);
      ReferenceIsEarlier(order, graph, chain[i - 1], chain[i]);
    }
  }

  lemma OrderHolds(order: seq<string>, graph: Graph)
    requires IsOrder(order, graph)
    ensures forall name <- graph :: name in order
  {
  }

  lemma CycleHasNoOrder(graph: Graph, chain: seq<string>, order: seq<string>)
    requires IsCycle(chain, graph)
    ensures !IsOrder(order, graph)
  {
    hide IsOrder;
    if IsOrder(order, graph) {
      OrderHolds(order, graph);
      ChainDescends(order, graph, chain, |chain| - 1);
      ReferenceIsEarlier(order, graph, chain[|chain| - 1], chain[0]);
    }
  }

  lemma MissingHasNoOrder(graph: Graph, order: seq<string>)
    requires HasMissing(graph)
    ensures !IsOrder(order, graph)
  {
    var name :| name in graph && exists ref <- graph[name] :: ref !in graph;
    var ref :| ref in graph[name] && ref !in graph;
    if IsOrder(order, graph) {
      ReferenceIsEarlier(order, graph, name, ref);
    }
  }

  // ---------------------------------------------------------------------------
  // The walk
  // ---------------------------------------------------------------------------

  class Walk {
    const graph: Graph
    var state: map<string, Status>
    var ordered: seq<string>
    /** The definitions being visited, outermost first. */
    ghost var stack: seq<string>

    ghost predicate Valid()
      reads this
    {
      && (forall i, j :: 0 <= i < j < |ordered| ==> ordered[i] != ordered[j])
      && (forall name <- ordered :: name in graph)
      && (forall i :: 0 <= i < |ordered| ==> forall ref <- graph[ordered[i]] :: ref in ordered[..i])
      && (forall name :: name in state && state[name] == Done <==> name in ordered)
      && (forall name :: name in state && state[name] == Visiting <==> name in stack)
      && IsChain(stack, graph)
      && state.Keys <= graph.Keys
    }

    constructor (graph: Graph)
      ensures this.graph == graph && Valid() && state == map[] && ordered == [] && stack == []
    {
      this.graph, state, ordered, stack := graph, map[], [], [];
    }

    /** What the state says about a name. */
    lemma Facts(name: string)
      requires Valid()
      ensures name in state && state[name] == Done ==> name in ordered
      ensures name in state && state[name] == Visiting ==> name in stack
      ensures name in ordered || name in stack ==> name in state
      ensures IsChain(stack, graph) && state.Keys <= graph.Keys
    {
    }

    /** False where the source throws, which happens only on a missing name or a cycle. */
    method Visit(name: string) returns (ok: bool)
      requires Valid()
      requires if stack == [] then name in graph else name in graph[stack[|stack| - 1]]
      modifies this
      ensures ok ==> Valid() && stack == old(stack) && name in ordered && old(ordered) <= ordered
      ensures old(state.Keys) <= state.Keys <= graph.Keys
      ensures !ok ==> HasCycle(graph) || HasMissing(graph)
      decreases graph.Keys - state.Keys
    {
      hide IsChain, HasCycle, HasMissing, Valid;
      Facts(name);
      if name in state && state[name] == Done { return true; }
      if name in state && state[name] == Visiting {
        CycleOnStack(stack, name, graph);
        return false;
      }
      if name !in graph {
        MissingOnStack(stack, name, graph);
        return false;
      }
      ghost var outer := stack;
      Enter(name);
      var refs := graph[name];
      for i := 0 to |refs|
        invariant Valid() && stack == outer + [name]
        invariant old(ordered) <= ordered
        invariant old(state.Keys) + {name} <= state.Keys
        invariant forall ref <- refs[..i] :: ref in ordered
      {
        var done := Visit(refs[i]);
        if !done { return false; }
        assert refs[..i + 1] == refs[..i] + [refs[i]];
      }
      assert refs[..|refs|] == refs;
      Finish(name, outer);
      return true;
    }

    /** The definition is now being visited. */
    method Enter(name: string)
      requires Valid() && name !in state && name in graph
      requires stack == [] || name in graph[stack[|stack| - 1]]
      modifies this`state, this`stack
      ensures Valid() && stack == old(stack) + [name] && name !in old(stack)
      ensures state.Keys == old(state.Keys) + {name}
    {
      ChainSnoc(stack, name, graph);
      state := state[name := Visiting];
      stack := stack + [name];
    }

    /** All references are placed: the definition joins the order. */
    method Finish(name: string, ghost outer: seq<string>)
      requires Valid() && stack == outer + [name] && name !in outer && name in graph
      requires forall ref <- graph[name] :: ref in ordered
      modifies this
      ensures Valid() && stack == outer && ordered == old(ordered) + [name]
      ensures state.Keys == old(state.Keys)
    {
      assert name in stack;
      assert name !in ordered;
      ghost var before := ordered;
      state := state[name := Done];
      ordered := ordered + [name];
      stack := outer;
      assert IsChain(outer, graph) by { ChainPrefix(outer, name, graph); }
      forall i | 0 <= i < |ordered| ensures forall ref <- graph[ordered[i]] :: ref in ordered[..i] {
        if i < |before| { assert ordered[..i] == before[..i]; } else { assert ordered[..i] == before; }
      }
    }
  }

  lemma ChainSnoc(chain: seq<string>, name: string, graph: Graph)
    requires IsChain(chain, graph) && name in graph
    requires chain == [] || name in graph[chain[|chain| - 1]]
    ensures IsChain(chain + [name], graph)
  {
  }

  lemma ChainPrefix(chain: seq<string>, name: string, graph: Graph)
    requires IsChain(chain + [name], graph)
    ensures IsChain(chain, graph)
  {
    var longer := chain + [name];
    assert forall i :: 0 <= i < |chain| ==> longer[i] == chain[i];
    forall n <- chain ensures n in graph { assert n in longer; }
  }

  lemma CycleOnStack(stack: seq<string>, name: string, graph: Graph)
    requires IsChain(stack, graph) && name in stack && name in graph[stack[|stack| - 1]]
    ensures HasCycle(graph)
  {
    var k := IndexOf(stack, name);
    var chain := stack[k..];
    forall n <- chain ensures n in graph { assert n in stack; }
    forall i | 0 <= i < |chain| - 1 ensures chain[i + 1] in graph[chain[i]] {
      assert chain[i] == stack[k + i] && chain[i + 1] == stack[k + i + 1];
    }
    assert chain[0] == name && chain[|chain| - 1] == stack[|stack| - 1];
    hide IsChain;
    assert IsCycle(chain, graph);
  }

  lemma MissingOnStack(stack: seq<string>, name: string, graph: Graph)
    requires IsChain(stack, graph) && name !in graph
    requires stack != [] && name in graph[stack[|stack| - 1]]
    ensures HasMissing(graph)
  {
    var last := stack[|stack| - 1];
    assert last in stack && last in graph;
  }

  /** The order, or None. None is returned exactly when no order exists: on a cycle or a missing name. */
  method BuildOrder(names: seq<string>, graph: Graph) returns (r: Option<seq<string>>)
    requires forall name :: name in names <==> name in graph
    ensures r.Some? ==> IsOrder(r.value, graph)
    ensures r.None? ==> HasCycle(graph) || HasMissing(graph)
    ensures r.None? ==> forall order :: !IsOrder(order, graph)
  {
    var walk := new Walk(graph);
    for i := 0 to |names|
      invariant walk.Valid() && walk.stack == [] && walk.graph == graph
      invariant forall name <- names[..i] :: name in walk.ordered
    {
      var ok := walk.Visit(names[i]);
      if !ok {
        forall order ensures !IsOrder(order, graph) {
          if HasMissing(graph) {
            MissingHasNoOrder(graph, order);
          } else {
            var chain :| IsCycle(chain, graph);
            CycleHasNoOrder(graph, chain, order);
          }
        }
        return None;
      }
      assert names[..i + 1] == names[..i] + [names[i]];
    }
    assert names[..|names|] == names;
    return Some(walk.ordered);
  }
}

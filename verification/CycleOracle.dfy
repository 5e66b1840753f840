/**
 The proof pilot's cycle oracle and its exhaustive comparison with a rule core
 (src/verification/formal_proof_pilot.rs). The rule core is a parameter.
 */
module CycleOracle {
  import opened Digraph

  type Edges = seq<(nat, nat)>

  datatype VisitState = Unvisited | Visiting | Visited

  /** Some closed walk runs along the listed edges. */
  ghost predicate HasCycle(edges: set<(nat, nat)>)
  {
    exists w: seq<nat> ::
      |w| >= 2 && w[0] == w[|w| - 1] && forall i :: 0 <= i < |w| - 1 ==> (w[i], w[i + 1]) in edges
  }

  ghost function EdgeSet(edges: Edges): set<(nat, nat)>
  {
    set e | e in edges
  }

  ghost function AsGraph(adjacency: seq<seq<nat>>): Adjacency<nat>
  {
    map n: nat | 0 <= n < |adjacency| :: adjacency[n]
  }

  ghost predicate InRange(adjacency: seq<seq<nat>>)
  {
    forall n, m :: 0 <= n < |adjacency| && m in adjacency[n] ==> m < |adjacency|
  }

  /** Colours of a search that has found no cycle: the stack is grey, the finish order black. */
  ghost predicate Coloured(adjacency: seq<seq<nat>>, state: seq<VisitState>, stack: seq<nat>, finished: seq<nat>)
  {
    && |state| == |adjacency| && InRange(adjacency)
    && (forall n: nat :: n in finished <==> n < |state| && state[n] == Visited)
    && (forall n: nat :: n in stack <==> n < |state| && state[n] == Visiting)
    && DependencyFirst(AsGraph(adjacency), finished)
  }

  /**
   One recursive search. States are shared between calls and stay `Visiting` once a
   cycle is found; `stack` and `finished` record what the colours mean until then.
   */
  method DfsHasCycle(node: nat, adjacency: seq<seq<nat>>, state: array<VisitState>, ghost stack: seq<nat>,
                     ghost finished: seq<nat>) returns (hasCycle: bool, ghost finished': seq<nat>)
    requires node < |adjacency|
    requires Coloured(adjacency, state[..], stack, finished)
    requires Walk(AsGraph(adjacency), stack + [node])
    modifies state
    ensures hasCycle ==> Cyclic(AsGraph(adjacency))
    ensures !hasCycle ==> Coloured(adjacency, state[..], stack, finished') && node in finished'
    ensures !hasCycle ==> forall n :: n in finished ==> n in finished'
    decreases set n | 0 <= n < state.Length && state[n] == Unvisited
  {
    ghost var g := AsGraph(adjacency);
    finished' := finished;
    match state[node] {
      case Visiting =>
        assert state[..][node] == Visiting;
        StackClosesCycle(g, stack, node);
        return true, finished';
      case Visited =>
        assert state[..][node] == Visited;
        return false, finished';
      case Unvisited =>
    }
    assert state[..][node] == Unvisited;
    ghost var unvisited := set n | 0 <= n < state.Length && state[n] == Unvisited;
    assert node in unvisited;
    state[node] := Visiting;
    ghost var grey := stack + [node];
    hasCycle := false;
    var i := 0;
    while i < |adjacency[node]|
      invariant 0 <= i <= |adjacency[node]|
      invariant Coloured(adjacency, state[..], grey, finished')
      invariant forall k :: 0 <= k < i ==> adjacency[node][k] in finished'
      invariant forall n :: n in finished ==> n in finished'
      invariant forall n :: 0 <= n < state.Length && state[n] == Unvisited ==> n in unvisited && n != node
    {
      var next := adjacency[node][i];
      assert Edge(g, node, next);
      ExtendWalk(g, grey, next);
      assert (set n | 0 <= n < state.Length && state[n] == Unvisited) < unvisited;
      ghost var before, blackBefore := state[..], finished';
      hasCycle, finished' := DfsHasCycle(next, adjacency, state, grey, finished');
      if hasCycle {
        return;
      }
      OnlyDarkens(adjacency, before, state[..], grey, blackBefore, finished');
      i := i + 1;
    }
    assert state[..][node] == Visiting;
    FinishNode(adjacency, state[..], stack, finished', node);
    state[node] := Visited;
    finished' := finished' + [node];
  }

  /** Between two colourings with the same stack and growing black nodes, no node turns white. */
  lemma OnlyDarkens(adjacency: seq<seq<nat>>, before: seq<VisitState>, after: seq<VisitState>, stack: seq<nat>,
                    blackBefore: seq<nat>, blackAfter: seq<nat>)
    requires Coloured(adjacency, before, stack, blackBefore) && Coloured(adjacency, after, stack, blackAfter)
    requires forall n :: n in blackBefore ==> n in blackAfter
    ensures forall n :: 0 <= n < |after| && after[n] == Unvisited ==> before[n] == Unvisited
  {
    forall n | 0 <= n < |after| && after[n] == Unvisited ensures before[n] == Unvisited {
      assert n !in stack && n !in blackAfter;
    }
  }

  lemma FinishNode(adjacency: seq<seq<nat>>, state: seq<VisitState>, stack: seq<nat>, finished: seq<nat>, node: nat)
    requires Coloured(adjacency, state, stack + [node], finished) && node !in stack
    requires node < |adjacency| && forall m :: m in adjacency[node] ==> m in finished
    ensures Coloured(adjacency, state[node := Visited], stack, finished + [node])
  {
    var g := AsGraph(adjacency);
    assert node in stack + [node];
    AppendKeepsDependencyFirst(g, finished, node);
    forall n: nat ensures n in stack <==> n < |state| && state[node := Visited][n] == Visiting {
      assert n in stack + [node] <==> n in stack || n == node;
    }
  }

  method BuildAdjacency(nodeCount: nat, edges: Edges) returns (adjacency: seq<seq<nat>>)
    requires forall e :: e in edges ==> e.0 < nodeCount && e.1 < nodeCount
    ensures |adjacency| == nodeCount
    ensures forall n, m :: 0 <= n < nodeCount ==> (m in adjacency[n] <==> (n, m) in edges)
  {
    var lists := new seq<nat>[nodeCount](_ => []);
    for i := 0 to |edges|
      invariant forall n, m :: 0 <= n < nodeCount ==> (m in lists[n] <==> (n, m) in edges[..i])
    {
      var (source, target) := edges[i];
      assert edges[i] in edges;
      lists[source] := lists[source] + [target];
      assert edges[..i + 1] == edges[..i] + [(source, target)];
    }
    assert edges[..|edges|] == edges;
    adjacency := lists[..];
  }

  /** The oracle agrees with the definition for every node count and edge list. */
  method GraphHasDirectedCycle(nodeCount: nat, edges: Edges) returns (hasCycle: bool)
    requires forall e :: e in edges ==> e.0 < nodeCount && e.1 < nodeCount
    ensures hasCycle <==> HasCycle(EdgeSet(edges))
  {
    var adjacency := BuildAdjacency(nodeCount, edges);
    CyclesMatch(edges, adjacency);
    hasCycle := AnyNodeHasCycle(adjacency);
  }

  method AnyNodeHasCycle(adjacency: seq<seq<nat>>) returns (hasCycle: bool)
    requires InRange(adjacency)
    ensures hasCycle <==> Cyclic(AsGraph(adjacency))
  {
    var state := new VisitState[|adjacency|](_ => Unvisited);
    ghost var finished: seq<nat> := [];
    for node := 0 to |adjacency|
      invariant Coloured(adjacency, state[..], [], finished)
      invariant forall k :: 0 <= k < node ==> k in finished
    {
      assert Walk(AsGraph(adjacency), [] + [node]);
      hasCycle, finished := DfsHasCycle(node, adjacency, state, [], finished);
      if hasCycle {
        return;
      }
    }
    OrderedIsAcyclic(AsGraph(adjacency), finished);
    return false;
  }

  lemma CyclesMatch(edges: Edges, adjacency: seq<seq<nat>>)
    requires forall e :: e in edges ==> e.0 < |adjacency| && e.1 < |adjacency|
    requires forall n, m :: 0 <= n < |adjacency| ==> (m in adjacency[n] <==> (n, m) in edges)
    ensures InRange(adjacency)
    ensures HasCycle(EdgeSet(edges)) <==> Cyclic(AsGraph(adjacency))
  {
    var g := AsGraph(adjacency);
    forall a: nat, b: nat ensures Edge(g, a, b) <==> (a, b) in EdgeSet(edges) {
    }
    if HasCycle(EdgeSet(edges)) {
      var w: seq<nat> :| |w| >= 2 && w[0] == w[|w| - 1] &&
        forall i :: 0 <= i < |w| - 1 ==> (w[i], w[i + 1]) in EdgeSet(edges);
      assert ClosedWalk(g, w);
    }
    if Cyclic(g) {
      var w :| ClosedWalk(g, w);
      assert forall i :: 0 <= i < |w| - 1 ==> (w[i], w[i + 1]) in EdgeSet(edges);
    }
  }

  // ----- exhaustive enumeration

  /** The targets of one source below `limit`, in order, without the self-edge. */
  function Row(source: nat, limit: nat): Edges
  {
    if limit == 0 then []
    else Row(source, limit - 1) + if source == limit - 1 then [] else [(source, limit - 1)]
  }

  function Rows(nodeCount: nat, sources: nat): Edges
  {
    if sources == 0 then [] else Rows(nodeCount, sources - 1) + Row(sources - 1, nodeCount)
  }

  method PossibleDirectedEdges(nodeCount: nat) returns (edges: Edges)
    ensures edges == Rows(nodeCount, nodeCount)
  {
    edges := [];
    for source := 0 to nodeCount
      invariant edges == Rows(nodeCount, source)
    {
      for target := 0 to nodeCount
        invariant edges == Rows(nodeCount, source) + Row(source, target)
      {
        if source != target {
          edges := edges + [(source, target)];
        }
      }
    }
  }

  ghost predicate Distinct(edges: Edges)
  {
    forall i, j :: 0 <= i < j < |edges| ==> edges[i] != edges[j]
  }

  lemma {:induction false} RowLength(source: nat, limit: nat)
    ensures |Row(source, limit)| == if source < limit then limit - 1 else limit
  {
    if limit > 0 { RowLength(source, limit - 1); }
  }

  /** Targets of a row stay below its limit, skip the source, and rise. */
  lemma {:induction false} RowAt(source: nat, limit: nat, i: nat)
    requires i < |Row(source, limit)|
    ensures var e := Row(source, limit)[i]; e.0 == source && e.1 < limit && e.1 != source
    ensures forall j :: 0 <= j < i ==> Row(source, limit)[j].1 < Row(source, limit)[i].1
  {
    var shorter := Row(source, limit - 1);
    if i < |shorter| {
      RowAt(source, limit - 1, i);
    } else {
      forall j | 0 <= j < i ensures Row(source, limit)[j].1 < limit - 1 {
        RowAt(source, limit - 1, j);
      }
    }
  }

  lemma {:induction false} RowFinds(source: nat, limit: nat, target: nat) returns (i: nat)
    requires target < limit && target != source
    ensures i < |Row(source, limit)| && Row(source, limit)[i] == (source, target)
  {
    if target == limit - 1 {
      i := |Row(source, limit - 1)|;
    } else {
      i := RowFinds(source, limit - 1, target);
    }
  }

  lemma {:induction false} RowsLength(nodeCount: nat, sources: nat)
    requires sources <= nodeCount
    ensures |Rows(nodeCount, sources)| == sources * (nodeCount - 1)
  {
    if sources > 0 {
      RowsLength(nodeCount, sources - 1);
      RowLength(sources - 1, nodeCount);
      assert sources * (nodeCount - 1) == (sources - 1) * (nodeCount - 1) + (nodeCount - 1);
    }
  }

  lemma {:induction false} RowsAt(nodeCount: nat, sources: nat, i: nat)
    requires i < |Rows(nodeCount, sources)|
    ensures var e := Rows(nodeCount, sources)[i]; e.0 < sources && e.1 < nodeCount && e.0 != e.1
  {
    var shorter := Rows(nodeCount, sources - 1);
    if i < |shorter| {
      RowsAt(nodeCount, sources - 1, i);
    } else {
      RowAt(sources - 1, nodeCount, i - |shorter|);
    }
  }

  lemma {:induction false} RowsDiffer(nodeCount: nat, sources: nat, i: nat, j: nat)
    requires i < j < |Rows(nodeCount, sources)|
    ensures Rows(nodeCount, sources)[i] != Rows(nodeCount, sources)[j]
  {
    var shorter := Rows(nodeCount, sources - 1);
    if j < |shorter| {
      RowsDiffer(nodeCount, sources - 1, i, j);
    } else {
      RowAt(sources - 1, nodeCount, j - |shorter|);
      if i < |shorter| { RowsAt(nodeCount, sources - 1, i); }
    }
  }

  lemma {:induction false} RowsFinds(nodeCount: nat, sources: nat, e: (nat, nat)) returns (i: nat)
    requires e.0 < sources && e.1 < nodeCount && e.0 != e.1
    ensures i < |Rows(nodeCount, sources)| && Rows(nodeCount, sources)[i] == e
  {
    if e.0 == sources - 1 {
      i := RowFinds(e.0, nodeCount, e.1);
      i := |Rows(nodeCount, sources - 1)| + i;
    } else {
      i := RowsFinds(nodeCount, sources - 1, e);
    }
  }

  /** The possible edges of a node count: each loop-free pair once, n(n-1) in all. */
  lemma RowsFacts(nodeCount: nat)
    ensures Distinct(Rows(nodeCount, nodeCount))
    ensures forall e :: e in Rows(nodeCount, nodeCount) <==> e.0 < nodeCount && e.1 < nodeCount && e.0 != e.1
    ensures |Rows(nodeCount, nodeCount)| == nodeCount * (nodeCount - 1)
  {
    var rows := Rows(nodeCount, nodeCount);
    RowsLength(nodeCount, nodeCount);
    forall i, j | 0 <= i < j < |rows| ensures rows[i] != rows[j] {
      RowsDiffer(nodeCount, nodeCount, i, j);
    }
    forall e | e in rows ensures e.0 < nodeCount && e.1 < nodeCount && e.0 != e.1 {
      var i :| 0 <= i < |rows| && rows[i] == e;
      RowsAt(nodeCount, nodeCount, i);
    }
    forall a: nat, b: nat | a < nodeCount && b < nodeCount && a != b ensures (a, b) in rows {
      var i := RowsFinds(nodeCount, nodeCount, (a, b));
    }
  }

  function Pow2(n: nat): (r: nat)
    ensures r >= 1
  {
    if n == 0 then 1 else 2 * Pow2(n - 1)
  }

  /** Binary digit `bit` of `mask`: the test `mask & (1 << bit) != 0`. */
  predicate TestBit(mask: nat, bit: nat)
  {
    if bit == 0 then mask % 2 == 1 else TestBit(mask / 2, bit - 1)
  }

  /** The edges whose enumeration bit is set in `mask`, from position `bit` on. */
  function MaskedEdges(possible: Edges, mask: nat, bit: nat): Edges
    requires bit <= |possible|
    decreases |possible| - bit
  {
    if bit == |possible| then []
    else (if TestBit(mask, bit) then [possible[bit]] else []) + MaskedEdges(possible, mask, bit + 1)
  }

  method SelectMaskedEdges(possible: Edges, mask: nat) returns (edges: Edges)
    ensures edges == MaskedEdges(possible, mask, 0)
  {
    edges := [];
    for bit := 0 to |possible|
      invariant MaskedEdges(possible, mask, 0) == edges + MaskedEdges(possible, mask, bit)
    {
      if TestBit(mask, bit) {
        edges := edges + [possible[bit]];
      }
    }
  }

  /** Some position from `bit` on has `e` and its bit set. */
  ghost predicate Picks(possible: Edges, mask: nat, bit: nat, e: (nat, nat))
  {
    exists i: nat :: bit <= i < |possible| && TestBit(mask, i) && possible[i] == e
  }

  lemma PicksNext(possible: Edges, mask: nat, bit: nat, e: (nat, nat))
    requires bit < |possible|
    ensures Picks(possible, mask, bit, e) <==>
            (TestBit(mask, bit) && possible[bit] == e) || Picks(possible, mask, bit + 1, e)
  {
    if Picks(possible, mask, bit, e) {
      var i: nat :| bit <= i < |possible| && TestBit(mask, i) && possible[i] == e;
      assert i == bit || Picks(possible, mask, bit + 1, e);
    }
    if Picks(possible, mask, bit + 1, e) {
      var i: nat :| bit + 1 <= i < |possible| && TestBit(mask, i) && possible[i] == e;
      assert Picks(possible, mask, bit, e);
    }
  }

  lemma {:induction false} MaskedMembers(possible: Edges, mask: nat, bit: nat, e: (nat, nat))
    requires bit <= |possible|
    ensures e in MaskedEdges(possible, mask, bit) <==> Picks(possible, mask, bit, e)
    decreases |possible| - bit
  {
    if bit < |possible| {
      MaskedMembers(possible, mask, bit + 1, e);
      PicksNext(possible, mask, bit, e);
    }
  }

  /** The mask whose bits pick exactly the members of `graph` out of `possible`. */
  ghost function MaskOf(possible: Edges, graph: set<(nat, nat)>): (mask: nat)
    ensures mask < Pow2(|possible|)
  {
    if possible == [] then 0
    else (if possible[0] in graph then 1 else 0) + 2 * MaskOf(possible[1..], graph)
  }

  lemma {:induction false} MaskOfBits(possible: Edges, graph: set<(nat, nat)>, bit: nat)
    requires bit < |possible|
    ensures TestBit(MaskOf(possible, graph), bit) <==> possible[bit] in graph
  {
    var tail := MaskOf(possible[1..], graph);
    assert MaskOf(possible, graph) / 2 == tail;
    if bit > 0 { MaskOfBits(possible[1..], graph, bit - 1); }
  }

  lemma {:induction false} BitsDetermineMask(a: nat, b: nat, width: nat)
    requires a < Pow2(width) && b < Pow2(width)
    requires forall bit :: 0 <= bit < width ==> TestBit(a, bit) == TestBit(b, bit)
    ensures a == b
  {
    if width > 0 {
      forall bit | 0 <= bit < width - 1 ensures TestBit(a / 2, bit) == TestBit(b / 2, bit) {
        assert TestBit(a, bit + 1) == TestBit(b, bit + 1);
      }
      BitsDetermineMask(a / 2, b / 2, width - 1);
      assert TestBit(a, 0) == TestBit(b, 0);
    }
  }

  /** A directed graph without self-edges on nodes below `nodeCount`. */
  ghost predicate LoopFree(nodeCount: nat, graph: set<(nat, nat)>)
  {
    forall e :: e in graph ==> e.0 < nodeCount && e.1 < nodeCount && e.0 != e.1
  }

  /** The canonical listing of a graph: the mask enumeration's own order. */
  ghost function Listing(nodeCount: nat, graph: set<(nat, nat)>): Edges
  {
    var possible := Rows(nodeCount, nodeCount);
    MaskedEdges(possible, MaskOf(possible, graph), 0)
  }

  ghost predicate MaskListsGraph(nodeCount: nat, mask: nat, graph: set<(nat, nat)>)
  {
    EdgeSet(MaskedEdges(Rows(nodeCount, nodeCount), mask, 0)) == graph
  }

  /** Below 2^(n(n-1)), exactly one mask lists each loop-free graph, and every mask lists one. */
  lemma MasksEnumerateGraphs(nodeCount: nat, graph: set<(nat, nat)>, mask: nat)
    requires mask < Pow2(nodeCount * (nodeCount - 1))
    ensures LoopFree(nodeCount, EdgeSet(MaskedEdges(Rows(nodeCount, nodeCount), mask, 0)))
    ensures LoopFree(nodeCount, graph) ==>
              (MaskListsGraph(nodeCount, mask, graph) <==> mask == MaskOf(Rows(nodeCount, nodeCount), graph))
  {
    var possible := Rows(nodeCount, nodeCount);
    RowsFacts(nodeCount);
    forall e ensures e in MaskedEdges(possible, mask, 0) <==> Picks(possible, mask, 0, e) {
      MaskedMembers(possible, mask, 0, e);
    }
    if LoopFree(nodeCount, graph) {
      if mask == MaskOf(possible, graph) {
        ListedSetIsGraph(possible, graph);
      }
      if MaskListsGraph(nodeCount, mask, graph) {
        forall bit | 0 <= bit < |possible| ensures TestBit(mask, bit) == TestBit(MaskOf(possible, graph), bit) {
          MaskOfBits(possible, graph, bit);
          MaskBitIsMembership(possible, mask, bit);
        }
        BitsDetermineMask(mask, MaskOf(possible, graph), |possible|);
      }
    }
  }

  lemma MaskBitIsMembership(possible: Edges, mask: nat, bit: nat)
    requires Distinct(possible) && bit < |possible|
    ensures TestBit(mask, bit) <==> possible[bit] in MaskedEdges(possible, mask, 0)
  {
    MaskedMembers(possible, mask, 0, possible[bit]);
  }

  lemma ListedSetIsGraph(possible: Edges, graph: set<(nat, nat)>)
    requires Distinct(possible) && forall e :: e in graph ==> e in possible
    ensures EdgeSet(MaskedEdges(possible, MaskOf(possible, graph), 0)) == graph
  {
    var mask := MaskOf(possible, graph);
    forall e ensures e in MaskedEdges(possible, mask, 0) <==> e in graph {
      MaskedMembers(possible, mask, 0, e);
      if e in possible {
        var i :| 0 <= i < |possible| && possible[i] == e;
        MaskOfBits(possible, graph, i);
      }
      if e in MaskedEdges(possible, mask, 0) {
        var i: nat :| i < |possible| && TestBit(mask, i) && possible[i] == e;
        MaskOfBits(possible, graph, i);
      }
    }
  }

  datatype Counterexample = NoCounterexample | Counterexample(nodeCount: nat, edges: Edges, expected: bool)

  /** The rule core decides cycles correctly on every loop-free graph of this node count. */
  ghost predicate AgreesAt(ruleCore: Edges -> bool, nodeCount: nat)
  {
    forall graph :: LoopFree(nodeCount, graph) ==> (ruleCore(Listing(nodeCount, graph)) <==> HasCycle(graph))
  }

  function ModelsUpTo(nodeCount: nat): nat
  {
    Pow2(nodeCount * (nodeCount - 1)) + if nodeCount == 0 then 0 else ModelsUpTo(nodeCount - 1)
  }

  ghost predicate AgreesOnMask(ruleCore: Edges -> bool, nodeCount: nat, mask: nat)
  {
    var edges := MaskedEdges(Rows(nodeCount, nodeCount), mask, 0);
    ruleCore(edges) <==> HasCycle(EdgeSet(edges))
  }

  ghost predicate AgreesBelow(ruleCore: Edges -> bool, nodeCount: nat, limit: nat)
  {
    forall mask: nat :: mask < limit ==> AgreesOnMask(ruleCore, nodeCount, mask)
  }

  lemma ExtendMasks(ruleCore: Edges -> bool, nodeCount: nat, mask: nat)
    requires AgreesBelow(ruleCore, nodeCount, mask) && AgreesOnMask(ruleCore, nodeCount, mask)
    ensures AgreesBelow(ruleCore, nodeCount, mask + 1)
  {
  }

  /** Agreement on the graphs gives agreement at each mask. */
  lemma GraphsCoverMasks(ruleCore: Edges -> bool, nodeCount: nat, mask: nat)
    requires AgreesAt(ruleCore, nodeCount) && mask < Pow2(nodeCount * (nodeCount - 1))
    ensures AgreesOnMask(ruleCore, nodeCount, mask)
  {
    var graph := EdgeSet(MaskedEdges(Rows(nodeCount, nodeCount), mask, 0));
    MasksEnumerateGraphs(nodeCount, graph, mask);
    assert MaskListsGraph(nodeCount, mask, graph);
  }

  /** A graph's own mask is in range and lists it. */
  lemma MaskInRange(nodeCount: nat, graph: set<(nat, nat)>)
    requires LoopFree(nodeCount, graph)
    ensures MaskOf(Rows(nodeCount, nodeCount), graph) < Pow2(nodeCount * (nodeCount - 1))
    ensures EdgeSet(Listing(nodeCount, graph)) == graph
  {
    RowsFacts(nodeCount);
    MasksEnumerateGraphs(nodeCount, graph, MaskOf(Rows(nodeCount, nodeCount), graph));
  }

  /** Agreement at every mask is agreement on every loop-free graph. */
  lemma MasksDecideAgreement(ruleCore: Edges -> bool, nodeCount: nat)
    ensures AgreesBelow(ruleCore, nodeCount, Pow2(nodeCount * (nodeCount - 1))) <==> AgreesAt(ruleCore, nodeCount)
  {
    var limit := Pow2(nodeCount * (nodeCount - 1));
    if AgreesBelow(ruleCore, nodeCount, limit) {
      forall graph | LoopFree(nodeCount, graph) ensures ruleCore(Listing(nodeCount, graph)) <==> HasCycle(graph) {
        MaskInRange(nodeCount, graph);
        assert AgreesOnMask(ruleCore, nodeCount, MaskOf(Rows(nodeCount, nodeCount), graph));
      }
    }
    if AgreesAt(ruleCore, nodeCount) {
      forall mask: nat | mask < limit ensures AgreesOnMask(ruleCore, nodeCount, mask) {
        GraphsCoverMasks(ruleCore, nodeCount, mask);
      }
    }
  }

  /** A disagreement at one mask refutes agreement on the graphs. */
  lemma DisagreementAtMask(ruleCore: Edges -> bool, nodeCount: nat, mask: nat)
    requires mask < Pow2(nodeCount * (nodeCount - 1)) && !AgreesOnMask(ruleCore, nodeCount, mask)
    ensures !AgreesAt(ruleCore, nodeCount)
  {
    if AgreesAt(ruleCore, nodeCount) {
      GraphsCoverMasks(ruleCore, nodeCount, mask);
    }
  }

  ghost predicate Refutes(counterexample: Counterexample, ruleCore: Edges -> bool, nodeCount: nat)
  {
    && counterexample.Counterexample? && counterexample.nodeCount == nodeCount
    && LoopFree(nodeCount, EdgeSet(counterexample.edges))
    && (counterexample.expected <==> HasCycle(EdgeSet(counterexample.edges)))
    && ruleCore(counterexample.edges) != counterexample.expected
  }

  /** The counterexample is the graph at `mask`, and the rule core is right at every lower mask. */
  ghost predicate FirstRefutedAt(counterexample: Counterexample, ruleCore: Edges -> bool, nodeCount: nat, mask: int)
  {
    && counterexample.Counterexample? && 0 <= mask < Pow2(nodeCount * (nodeCount - 1))
    && counterexample.edges == MaskedEdges(Rows(nodeCount, nodeCount), mask, 0)
    && AgreesBelow(ruleCore, nodeCount, mask)
  }

  /** The mask loop of one node count. */
  method CheckNodeCount(nodeCount: nat, ruleCore: Edges -> bool)
    returns (modelsChecked: nat, counterexample: Counterexample)
    ensures counterexample.NoCounterexample? <==> AgreesAt(ruleCore, nodeCount)
    ensures counterexample.NoCounterexample? ==> modelsChecked == Pow2(nodeCount * (nodeCount - 1))
    ensures counterexample.Counterexample? ==> Refutes(counterexample, ruleCore, nodeCount)
    ensures counterexample.Counterexample? ==>
              FirstRefutedAt(counterexample, ruleCore, nodeCount, modelsChecked - 1)
  {
    var possible := PossibleDirectedEdges(nodeCount);
    PossibleEdgeCount(nodeCount);
    var modelCount := Pow2(|possible|);
    modelsChecked := 0;
    for mask := 0 to modelCount
      invariant modelsChecked == mask
      invariant AgreesBelow(ruleCore, nodeCount, mask)
    {
      var edges := SelectMaskedEdges(possible, mask);
      modelsChecked := modelsChecked + 1;
      MaskedEdgesLoopFree(nodeCount, mask);
      var expected := GraphHasDirectedCycle(nodeCount, edges);
      var actual := ruleCore(edges);
      if actual != expected {
        DisagreementAtMask(ruleCore, nodeCount, mask);
        return modelsChecked, Counterexample(nodeCount, edges, expected);
      }
      ExtendMasks(ruleCore, nodeCount, mask);
    }
    MasksDecideAgreement(ruleCore, nodeCount);
    return modelsChecked, NoCounterexample;
  }

  /** The rule core is right about every loop-free graph of fewer nodes. */
  ghost predicate AgreesUnder(ruleCore: Edges -> bool, limit: nat)
  {
    forall nodeCount: nat :: nodeCount < limit ==> AgreesAt(ruleCore, nodeCount)
  }

  lemma ExtendAgreement(ruleCore: Edges -> bool, nodeCount: nat)
    requires AgreesUnder(ruleCore, nodeCount) && AgreesAt(ruleCore, nodeCount)
    ensures AgreesUnder(ruleCore, nodeCount + 1)
  {
  }

  lemma DisagreementAt(ruleCore: Edges -> bool, maxNodes: nat, nodeCount: nat)
    requires nodeCount <= maxNodes && !AgreesAt(ruleCore, nodeCount)
    ensures !AgreesUnder(ruleCore, maxNodes + 1)
  {
  }

  /** The models of all smaller node counts. */
  function ModelsBefore(nodeCount: nat): nat
  {
    if nodeCount == 0 then 0 else ModelsUpTo(nodeCount - 1)
  }

  /**
   No counterexample if and only if the rule core is right about every loop-free graph
   up to `maxNodes` nodes, and then each such graph was checked exactly once. A counterexample is
   the first in the order of node counts and masks, and the count is its position in that order.
   */
  method ExhaustiveDependencyGraphCheck(maxNodes: nat, ruleCore: Edges -> bool)
    returns (modelsChecked: nat, counterexample: Counterexample)
    ensures counterexample.NoCounterexample? <==> AgreesUnder(ruleCore, maxNodes + 1)
    ensures counterexample.NoCounterexample? ==> modelsChecked == ModelsUpTo(maxNodes)
    ensures counterexample.Counterexample? ==>
              counterexample.nodeCount <= maxNodes && Refutes(counterexample, ruleCore, counterexample.nodeCount)
    ensures counterexample.Counterexample? ==>
              AgreesUnder(ruleCore, counterexample.nodeCount) && exists mask ::
                && FirstRefutedAt(counterexample, ruleCore, counterexample.nodeCount, mask)
                && modelsChecked == ModelsBefore(counterexample.nodeCount) + mask + 1
  {
    modelsChecked := 0;
    for nodeCount := 0 to maxNodes + 1
      invariant AgreesUnder(ruleCore, nodeCount)
      invariant modelsChecked == ModelsBefore(nodeCount)
    {
      var checked;
      checked, counterexample := CheckNodeCount(nodeCount, ruleCore);
      modelsChecked := modelsChecked + checked;
      if counterexample.Counterexample? {
        DisagreementAt(ruleCore, maxNodes, nodeCount);
        return;
      }
      ExtendAgreement(ruleCore, nodeCount);
    }
    return modelsChecked, NoCounterexample;
  }

  lemma PossibleEdgeCount(nodeCount: nat)
    ensures |Rows(nodeCount, nodeCount)| == nodeCount * (nodeCount - 1)
  {
    RowsFacts(nodeCount);
  }

  lemma MaskedEdgesLoopFree(nodeCount: nat, mask: nat)
    requires mask < Pow2(nodeCount * (nodeCount - 1))
    ensures var edges := MaskedEdges(Rows(nodeCount, nodeCount), mask, 0);
            LoopFree(nodeCount, EdgeSet(edges)) && forall e :: e in edges ==> e.0 < nodeCount && e.1 < nodeCount
  {
    var edges := MaskedEdges(Rows(nodeCount, nodeCount), mask, 0);
    MasksEnumerateGraphs(nodeCount, {}, mask);
    forall e | e in edges ensures e.0 < nodeCount && e.1 < nodeCount {
      assert e in EdgeSet(edges);
    }
  }
}

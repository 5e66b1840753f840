/**
 The stack loop that both module-tree searches run: pop a node, skip repeats, push the
 successors not yet reached.
 */
module Reachability {
  import opened Digraph

  function Elements<N(==, !new)>(nodes: seq<N>): (r: set<N>)
    ensures forall n :: n in r <==> n in nodes
  {
    set n | n in nodes
  }

  ghost predicate ReachedFromSet<N(!new)>(g: Adjacency<N>, roots: set<N>, b: N)
  {
    exists a :: a in roots && Reaches(g, a, b)
  }

  /** What the loop knows of its reached nodes and of those on its stack. */
  ghost predicate Progress<N(!new)>(g: Adjacency<N>, roots: set<N>, reachable: set<N>, todo: set<N>)
  {
    && roots <= reachable + todo
    && (forall b :: b in reachable + todo ==> ReachedFromSet(g, roots, b))
    && (forall a, b :: a in reachable && Edge(g, a, b) ==> b in reachable + todo)
  }

  lemma VisitKeepsProgress<N(!new)>(
    g: Adjacency<N>, roots: set<N>, reachable: set<N>, todo: set<N>, node: N, todo': set<N>)
    requires Progress(g, roots, reachable, todo) && node in todo
    requires forall n :: n in todo' ==> n in todo || Edge(g, node, n)
    requires forall n :: n in todo || Edge(g, node, n) ==> n in todo' || n in reachable || n == node
    ensures Progress(g, roots, reachable + {node}, todo')
  {
    forall n | Edge(g, node, n) ensures ReachedFromSet(g, roots, n) {
      var a :| a in roots && Reaches(g, a, node);
      ReachesStep(g, a, node, n);
    }
  }

  lemma SkipKeepsProgress<N(!new)>(
    g: Adjacency<N>, roots: set<N>, reachable: set<N>, todo: set<N>, node: N, todo': set<N>)
    requires Progress(g, roots, reachable, todo) && node in reachable
    requires forall n :: n in todo <==> n in todo' || n == node
    ensures Progress(g, roots, reachable, todo')
  {
    assert reachable + todo' == reachable + todo;
  }

  lemma ClosedHoldsReached<N(!new)>(g: Adjacency<N>, roots: set<N>, closed: set<N>)
    requires roots <= closed && forall a, b :: a in closed && Edge(g, a, b) ==> b in closed
    ensures forall b :: ReachedFromSet(g, roots, b) ==> b in closed
  {
    forall b | ReachedFromSet(g, roots, b) ensures b in closed {
      var a :| a in roots && Reaches(g, a, b);
      var w :| WalkBetween(g, w, a, b);
      WalkStays(g, closed, w, |w| - 1);
    }
  }

  lemma {:induction false} WalkStays<N>(g: Adjacency<N>, closed: set<N>, w: seq<N>, k: nat)
    requires Walk(g, w) && k < |w| && w[0] in closed
    requires forall a, b :: a in closed && Edge(g, a, b) ==> b in closed
    ensures w[k] in closed
  {
    if k > 0 {
      WalkStays(g, closed, w, k - 1);
      assert Edge(g, w[k - 1], w[k]);
    }
  }

  /** A turn that meets a node again only drops it from the stack. */
  lemma SkipTurn<N(!new)>(g: Adjacency<N>, roots: set<N>, reachable: set<N>, stack: seq<N>)
    requires stack != [] && stack[|stack| - 1] in reachable && Progress(g, roots, reachable, Elements(stack))
    ensures Progress(g, roots, reachable, Elements(stack[..|stack| - 1]))
  {
    PopElements(stack);
    SkipKeepsProgress(g, roots, reachable, Elements(stack), stack[|stack| - 1], Elements(stack[..|stack| - 1]));
  }

  /** A turn that reaches a node pushes exactly its successors not yet reached. */
  lemma VisitTurn<N(!new)>(g: Adjacency<N>, roots: set<N>, reachable: set<N>, stack: seq<N>, pushed: seq<N>)
    requires stack != [] && Progress(g, roots, reachable, Elements(stack))
    requires var node := stack[|stack| - 1];
             forall n :: n in pushed <==>
               n in stack[..|stack| - 1] || (Edge(g, node, n) && n !in reachable + {node})
    ensures Progress(g, roots, reachable + {stack[|stack| - 1]}, Elements(pushed))
  {
    var node := stack[|stack| - 1];
    PopElements(stack);
    assert node in stack;
    VisitKeepsProgress(g, roots, reachable, Elements(stack), node, Elements(pushed));
  }

  /**
   Exactly the nodes on some walk from the roots. A turn pops a repeat, or adds a node: the nodes
   not yet reached shrink, or the stack does.
   */
  method Search<N(==, !new)>(g: Adjacency<N>, nodes: set<N>, roots: seq<N>) returns (reachable: set<N>)
    requires Elements(roots) <= nodes
    requires forall a, b :: Edge(g, a, b) ==> b in nodes
    ensures forall b :: b in reachable <==> ReachedFromSet(g, Elements(roots), b)
  {
    reachable := {};
    var stack := roots;
    StartingProgress(g, roots);
    while stack != []
      invariant forall n :: n in stack ==> n in nodes
      invariant Progress(g, Elements(roots), reachable, Elements(stack))
      decreases nodes - reachable, |stack|
    {
      var node := stack[|stack| - 1];
      var popped := stack[..|stack| - 1];
      if node in reachable {
        SkipTurn(g, Elements(roots), reachable, stack);
        stack := popped;
        continue;
      }
      assert node in nodes - reachable;
      var pushed := PushUnreached(popped, if node in g then g[node] else [], reachable + {node});
      VisitTurn(g, Elements(roots), reachable, stack, pushed);
      stack := pushed;
      reachable := reachable + {node};
    }
    assert reachable + Elements(stack) == reachable;
    ClosedHoldsReached(g, Elements(roots), reachable);
  }

  lemma StartingProgress<N(!new)>(g: Adjacency<N>, roots: seq<N>)
    ensures Progress(g, Elements(roots), {}, Elements(roots))
  {
    forall a | a in Elements(roots) ensures ReachedFromSet(g, Elements(roots), a) {
      ReachesSelf(g, a);
    }
  }

  lemma PopElements<N(!new)>(stack: seq<N>)
    requires stack != []
    ensures forall b :: b in stack <==> b in stack[..|stack| - 1] || b == stack[|stack| - 1]
  {
    assert stack == stack[..|stack| - 1] + [stack[|stack| - 1]];
  }

  /** The inner loop over the successors. */
  method PushUnreached<N(==)>(stack: seq<N>, children: seq<N>, reachable: set<N>) returns (r: seq<N>)
    ensures forall b :: b in r <==> b in stack || (b in children && b !in reachable)
  {
    r := stack;
    for i := 0 to |children|
      invariant forall b :: b in r <==> b in stack || (b in children[..i] && b !in reachable)
    {
      assert children[..i + 1] == children[..i] + [children[i]];
      if children[i] !in reachable {
        r := r + [children[i]];
      }
    }
    assert children[..|children|] == children;
  }
}

/**
 Directed graphs given by adjacency lists, the walks through them, and cycles.
 A self-edge is a cycle of length one.
 */
module Digraph {

  type Adjacency<!N> = map<N, seq<N>>

  ghost predicate Edge<N>(g: Adjacency<N>, a: N, b: N)
  {
    a in g && b in g[a]
  }

  /** A nonempty node sequence whose consecutive nodes are joined by edges. */
  ghost predicate Walk<N>(g: Adjacency<N>, w: seq<N>)
  {
    |w| >= 1 && forall i :: 0 <= i < |w| - 1 ==> Edge(g, w[i], w[i + 1])
  }

  ghost predicate WalkBetween<N>(g: Adjacency<N>, w: seq<N>, a: N, b: N)
  {
    Walk(g, w) && w[0] == a && w[|w| - 1] == b
  }

  ghost predicate Reaches<N(!new)>(g: Adjacency<N>, a: N, b: N)
  {
    exists w: seq<N> :: WalkBetween(g, w, a, b)
  }

  ghost predicate ReachedFrom<N(!new)>(g: Adjacency<N>, starts: seq<N>, b: N)
  {
    exists i :: 0 <= i < |starts| && Reaches(g, starts[i], b)
  }

  ghost predicate ClosedWalk<N>(g: Adjacency<N>, w: seq<N>)
  {
    |w| >= 2 && Walk(g, w) && w[0] == w[|w| - 1]
  }

  ghost predicate OnCycle<N(!new)>(g: Adjacency<N>, n: N)
  {
    exists w: seq<N> :: ClosedWalk(g, w) && w[0] == n
  }

  /** The graph contains a directed cycle. */
  ghost predicate Cyclic<N(!new)>(g: Adjacency<N>)
  {
    exists w: seq<N> :: ClosedWalk(g, w)
  }

  lemma ReachesSelf<N(!new)>(g: Adjacency<N>, a: N)
    ensures Reaches(g, a, a)
  {
    assert WalkBetween(g, [a], a, a);
  }

  lemma ReachedFromOne<N(!new)>(g: Adjacency<N>, a: N, b: N)
    ensures ReachedFrom(g, [a], b) <==> Reaches(g, a, b)
  {
    if Reaches(g, a, b) {
      assert Reaches(g, [a][0], b);
    }
  }

  lemma ReachesStep<N(!new)>(g: Adjacency<N>, a: N, b: N, c: N)
    requires Reaches(g, a, b) && Edge(g, b, c)
    ensures Reaches(g, a, c)
  {
    var w :| WalkBetween(g, w, a, b);
    assert WalkBetween(g, w + [c], a, c);
  }

  lemma ReachesPrepend<N(!new)>(g: Adjacency<N>, a: N, b: N, c: N)
    requires Edge(g, a, b) && Reaches(g, b, c)
    ensures Reaches(g, a, c)
  {
    var w :| WalkBetween(g, w, b, c);
    var v := [a] + w;
    assert forall i :: 0 <= i < |v| - 1 ==> Edge(g, v[i], v[i + 1]) by {
      forall i | 0 <= i < |v| - 1 ensures Edge(g, v[i], v[i + 1]) {
        if i > 0 { assert Edge(g, w[i - 1], w[i]); }
      }
    }
    assert WalkBetween(g, v, a, c);
  }

  lemma ExtendWalk<N>(g: Adjacency<N>, walk: seq<N>, next: N)
    requires Walk(g, walk) && Edge(g, walk[|walk| - 1], next)
    ensures Walk(g, walk + [next])
  {
    var w := walk + [next];
    forall i | 0 <= i < |w| - 1 ensures Edge(g, w[i], w[i + 1]) {
      if i < |walk| - 1 { assert Edge(g, walk[i], walk[i + 1]); }
    }
  }

  /** A node reached again while it is on the active stack closes a cycle. */
  lemma StackClosesCycle<N(!new)>(g: Adjacency<N>, stack: seq<N>, p: N)
    requires Walk(g, stack + [p]) && p in stack
    ensures OnCycle(g, p)
  {
    var k :| 0 <= k < |stack| && stack[k] == p;
    var whole := stack + [p];
    var w := whole[k..];
    forall i | 0 <= i < |w| - 1 ensures Edge(g, w[i], w[i + 1]) {
      assert Edge(g, whole[k + i], whole[k + i + 1]);
    }
    assert ClosedWalk(g, w);
  }

  /** An order without repeats in which every dependency stands strictly earlier. */
  ghost predicate DependencyFirst<N>(g: Adjacency<N>, order: seq<N>)
  {
    && (forall i, j :: 0 <= i < j < |order| ==> order[i] != order[j])
    && (forall i :: 0 <= i < |order| ==> order[i] in g)
    && (forall i, d :: 0 <= i < |order| && d in g[order[i]] ==> d in order[..i])
  }

  lemma AppendKeepsDependencyFirst<N>(g: Adjacency<N>, order: seq<N>, p: N)
    requires DependencyFirst(g, order)
    requires p in g && p !in order && forall d :: d in g[p] ==> d in order
    ensures DependencyFirst(g, order + [p])
  {
    var o := order + [p];
    forall i, d | 0 <= i < |o| && d in g[o[i]] ensures d in o[..i] {
      if i < |order| {
        assert d in order[..i] && o[..i] == order[..i];
      } else {
        assert o[..i] == order;
      }
    }
  }

  /** Along a walk that starts in a dependency-first order, positions strictly fall. */
  lemma {:induction false} WalkDescends<N>(g: Adjacency<N>, order: seq<N>, w: seq<N>, i: nat) returns (j: nat)
    requires DependencyFirst(g, order) && Walk(g, w)
    requires i < |order| && order[i] == w[0]
    ensures j < |order| && order[j] == w[|w| - 1]
    ensures |w| >= 2 ==> j < i
    ensures j <= i
    decreases |w|
  {
    if |w| == 1 {
      j := i;
    } else {
      assert Edge(g, w[0], w[1]);
      assert w[1] in order[..i];
      var k :| 0 <= k < i && order[k] == w[1];
      var v := w[1..];
      forall m | 0 <= m < |v| - 1 ensures Edge(g, v[m], v[m + 1]) {
        assert Edge(g, w[m + 1], w[m + 2]);
      }
      j := WalkDescends(g, order, v, k);
    }
  }

  /** A dependency-first order of all nodes rules every cycle out. */
  lemma OrderedIsAcyclic<N(!new)>(g: Adjacency<N>, order: seq<N>)
    requires DependencyFirst(g, order)
    requires forall n :: n in g ==> n in order
    ensures !Cyclic(g)
  {
    forall w: seq<N> | ClosedWalk(g, w) ensures false {
      assert Edge(g, w[0], w[1]);
      var i :| 0 <= i < |order| && order[i] == w[0];
      var j := WalkDescends(g, order, w, i);
    }
  }
}

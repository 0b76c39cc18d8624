/**
 Directed graphs as the Python modules hold them: a dictionary from a node to
 the collection of its children.  A node without an entry has no children.
 */
module Digraph {
  import opened Common

  function Children<T(==)>(g: map<T, seq<T>>, v: T): seq<T> {
    if v in g then g[v] else []
  }

  predicate Edge<T(==)>(g: map<T, seq<T>>, u: T, v: T) {
    v in Children(g, u)
  }

  /** Every node of the graph: a key, or a child of a key. */
  ghost function Nodes<T>(g: map<T, seq<T>>): set<T> {
    g.Keys + set k, c | k in g && c in g[k] :: c
  }

  ghost predicate Walk<T>(g: map<T, seq<T>>, w: seq<T>) {
    && |w| > 0
    && forall i :: 0 < i < |w| ==> Edge(g, w[i - 1], w[i])
  }

  ghost predicate SimplePath<T>(g: map<T, seq<T>>, p: seq<T>) {
    Walk(g, p) && Distinct(p)
  }

  function First<T>(w: seq<T>): T
    requires |w| > 0
  {
    w[0]
  }

  function Last<T>(w: seq<T>): T
    requires |w| > 0
  {
    w[|w| - 1]
  }

  /** A cycle as the source lists it: the last node is a parent of the first. */
  ghost predicate SimpleCycle<T>(g: map<T, seq<T>>, c: seq<T>) {
    SimplePath(g, c) && Edge(g, Last(c), First(c))
  }

  ghost predicate Connects<T>(g: map<T, seq<T>>, u: T, v: T, w: seq<T>) {
    Walk(g, w) && First(w) == u && Last(w) == v
  }

  ghost predicate Reachable<T(!new)>(g: map<T, seq<T>>, u: T, v: T) {
    exists w: seq<T> :: Connects(g, u, v, w)
  }

  lemma PathWithinNodes<T>(g: map<T, seq<T>>, p: seq<T>, v: T)
    requires Walk(g, p) && First(p) in Nodes(g) && v in p
    ensures v in Nodes(g)
  {
    var i :| 0 <= i < |p| && p[i] == v;
    if i > 0 {
      assert Edge(g, p[i - 1], p[i]);
    }
  }

  lemma PathBound<T>(g: map<T, seq<T>>, p: seq<T>)
    requires SimplePath(g, p) && First(p) in Nodes(g)
    ensures |p| <= |Nodes(g)|
  {
    forall v | v in p ensures v in Nodes(g) {
      PathWithinNodes(g, p, v);
    }
    DistinctBound(p, Nodes(g));
  }

  lemma WalkOneMore<T>(g: map<T, seq<T>>, w: seq<T>, x: T)
    requires Walk(g, w) && Edge(g, Last(w), x)
    ensures Walk(g, w + [x]) && Last(w + [x]) == x && First(w + [x]) == First(w)
  {
  }

  lemma WalkOneLess<T>(g: map<T, seq<T>>, w: seq<T>)
    requires Walk(g, w) && |w| > 1
    ensures var front := w[..|w| - 1];
      Walk(g, front) && First(front) == First(w) && Edge(g, Last(front), Last(w))
  {
    assert Edge(g, w[|w| - 2], w[|w| - 1]);
  }

  /** Cutting the loops out of a walk leaves a simple path with the same ends. */
  lemma {:induction false} WalkToSimplePath<T>(g: map<T, seq<T>>, w: seq<T>) returns (p: seq<T>)
    requires Walk(g, w)
    ensures SimplePath(g, p) && First(p) == First(w) && Last(p) == Last(w)
  {
    if |w| == 1 {
      p := w;
    } else {
      var v := Last(w);
      WalkOneLess(g, w);
      var q := WalkToSimplePath(g, w[..|w| - 1]);
      if v in q {
        p := q[..IndexOf(q, v) + 1];
      } else {
        WalkOneMore(g, q, v);
        p := q + [v];
      }
    }
  }

  // ----- Cycles and what lies downstream of them

  ghost predicate HasCycle<T(!new)>(g: map<T, seq<T>>) {
    exists c: seq<T> :: SimpleCycle(g, c)
  }

  /** `x` is on a cycle, or can be reached from one. */
  ghost predicate FromCycle<T(!new)>(g: map<T, seq<T>>, x: T) {
    exists c: seq<T> :: SimpleCycle(g, c) && Reachable(g, First(c), x)
  }

  /** A closed walk has a simple cycle among its nodes. */
  lemma {:induction false} ClosedWalkHasCycle<T>(g: map<T, seq<T>>, w: seq<T>) returns (c: seq<T>)
    requires Walk(g, w) && |w| > 1 && First(w) == Last(w)
    ensures SimpleCycle(g, c) && First(c) in w
    decreases |w|
  {
    var front := w[..|w| - 1];
    if Distinct(front) {
      c := front;
    } else {
      var i, j :| 0 <= i < j < |front| && front[i] == front[j];
      c := ClosedWalkHasCycle(g, w[i..j + 1]);
    }
  }

  /** A walk longer than there are nodes comes from a cycle. */
  lemma LongWalkFromCycle<T(!new)>(g: map<T, seq<T>>, w: seq<T>)
    requires Walk(g, w) && First(w) in Nodes(g) && |w| > |Nodes(g)|
    ensures FromCycle(g, Last(w))
  {
    if Distinct(w) {
      PathBound(g, w);
    } else {
      var i, j :| 0 <= i < j < |w| && w[i] == w[j];
      var c := ClosedWalkHasCycle(g, w[i..j + 1]);
      var k :| 0 <= k < |w| && w[k] == First(c);
      assert Connects(g, First(c), Last(w), w[k..]);
    }
  }
}

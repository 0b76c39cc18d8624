/**
 The two dictionaries that both topological sorts build from a list of
 (parent, child) pairs, and what their entries count.
 */
module DependencyTables {
  import opened Common
  import opened Digraph

  function Elements<T>(pairs: seq<(T, T)>): set<T> {
    if pairs == [] then {} else
      Elements(pairs[..|pairs| - 1]) + {Last(pairs).0, Last(pairs).1}
  }

  lemma {:induction false} PairElements<T>(pairs: seq<(T, T)>, p: T, c: T)
    requires (p, c) in pairs
    ensures p in Elements(pairs) && c in Elements(pairs)
  {
    var front := pairs[..|pairs| - 1];
    if (p, c) in front {
      PairElements(front, p, c);
    }
  }

  /** The children of `p` in the order of the list, repetitions included. */
  function ChildrenOf<T(==)>(pairs: seq<(T, T)>, p: T): seq<T> {
    if pairs == [] then [] else
      ChildrenOf(pairs[..|pairs| - 1], p) + if Last(pairs).0 == p then [Last(pairs).1] else []
  }

  /** How many pairs make `x` wait for a parent outside `done`. */
  function Waiting<T(==)>(pairs: seq<(T, T)>, done: set<T>, x: T): nat {
    if pairs == [] then 0 else
      Waiting(pairs[..|pairs| - 1], done, x) +
      if Last(pairs).1 == x && Last(pairs).0 !in done then 1 else 0
  }

  /** The list read as a directed graph. */
  ghost function GraphOf<T>(pairs: seq<(T, T)>): map<T, seq<T>> {
    map p | p in Elements(pairs) :: ChildrenOf(pairs, p)
  }

  lemma {:induction false} ChildrenOfMember<T>(pairs: seq<(T, T)>, p: T, c: T)
    ensures c in ChildrenOf(pairs, p) <==> (p, c) in pairs
  {
    if pairs != [] {
      var front := pairs[..|pairs| - 1];
      ChildrenOfMember(front, p, c);
      assert pairs == front + [Last(pairs)];
    }
  }

  /** The count of an element is the number of the pairs that make it wait. */
  lemma {:induction false} WaitingExactly<T>(pairs: seq<(T, T)>, done: set<T>, x: T)
    ensures Waiting(pairs, done, x) == |set k | 0 <= k < |pairs| && pairs[k].1 == x && pairs[k].0 !in done|
  {
    var places := set k | 0 <= k < |pairs| && pairs[k].1 == x && pairs[k].0 !in done;
    if pairs != [] {
      var front := pairs[..|pairs| - 1];
      WaitingExactly(front, done, x);
      var before := set k | 0 <= k < |front| && front[k].1 == x && front[k].0 !in done;
      assert places == before + if Last(pairs).1 == x && Last(pairs).0 !in done then {|front|} else {};
    }
  }

  /** The list of children holds each child as often as the pair is given. */
  lemma {:induction false} ChildrenExactly<T>(pairs: seq<(T, T)>, p: T, c: T)
    ensures Occurrences(ChildrenOf(pairs, p), c) == |set k | 0 <= k < |pairs| && pairs[k] == (p, c)|
  {
    var places := set k | 0 <= k < |pairs| && pairs[k] == (p, c);
    if pairs != [] {
      var front := pairs[..|pairs| - 1];
      ChildrenExactly(front, p, c);
      var before := set k | 0 <= k < |front| && front[k] == (p, c);
      assert places == before + if Last(pairs) == (p, c) then {|front|} else {};
      OccurrencesSplit(ChildrenOf(front, p), if Last(pairs).0 == p then [Last(pairs).1] else [], c);
    }
  }

  lemma EdgeIsPair<T>(pairs: seq<(T, T)>, p: T, c: T)
    ensures Edge(GraphOf(pairs), p, c) <==> (p, c) in pairs
  {
    ChildrenOfMember(pairs, p, c);
    if (p, c) in pairs {
      PairElements(pairs, p, c);
    }
  }

  lemma {:induction false} WaitingZero<T(!new)>(pairs: seq<(T, T)>, done: set<T>, x: T)
    ensures Waiting(pairs, done, x) == 0 <==> forall p :: (p, x) in pairs ==> p in done
  {
    if pairs != [] {
      var front := pairs[..|pairs| - 1];
      WaitingZero(front, done, x);
      assert pairs == front + [Last(pairs)];
    }
  }

  /** Finishing `p` releases each element as often as it occurs among the children of `p`. */
  lemma {:induction false} WaitingRelease<T>(pairs: seq<(T, T)>, done: set<T>, p: T, x: T)
    requires p !in done
    ensures Waiting(pairs, done, x) == Waiting(pairs, done + {p}, x) + Occurrences(ChildrenOf(pairs, p), x)
  {
    if pairs != [] {
      var front := pairs[..|pairs| - 1];
      WaitingRelease(front, done, p, x);
      OccurrencesSplit(ChildrenOf(front, p), if Last(pairs).0 == p then [Last(pairs).1] else [], x);
    }
  }

  /** `numParents` and `children` describe the pair list once the elements of `done` are finished. */
  ghost predicate Describes<T(!new)>(pairs: seq<(T, T)>, done: set<T>,
                                     numParents: map<T, int>, children: map<T, seq<T>>) {
    && numParents.Keys == Elements(pairs) - done
    && (forall x {:trigger numParents[x]} :: x in numParents ==> numParents[x] == Waiting(pairs, done, x))
    && (forall p {:trigger Children(children, p)} :: p !in done ==> Children(children, p) == ChildrenOf(pairs, p))
    && children.Keys !! done
  }

  /** The first loop of `topsort` and of `topsort_levels`. */
  method BuildTables<T(==, !new)>(pairlist: seq<(T, T)>)
    returns (numParents: map<T, int>, children: map<T, seq<T>>)
    ensures Describes(pairlist, {}, numParents, children)
  {
    numParents, children := map[], map[];
    for i := 0 to |pairlist|
      invariant Describes(pairlist[..i], {}, numParents, children)
    {
      var (parent, child) := pairlist[i];
      assert pairlist[..i + 1] == pairlist[..i] + [(parent, child)];
      ghost var numParents0, children0 := numParents, children;
      if parent !in numParents {
        numParents := numParents[parent := 0];
      }
      if child !in numParents {
        numParents := numParents[child := 0];
      }
      numParents := numParents[child := numParents[child] + 1];
      children := children[parent := Children(children, parent) + [child]];
      CountsOneMore(pairlist[..i], parent, child, numParents0, numParents);
      ChildrenOneMore(pairlist[..i], parent, child, children0);
    }
    assert pairlist[..|pairlist|] == pairlist;
  }

  /** The counts and the lists of children, each after one more pair. */
  lemma CountsOneMore<T>(pairs: seq<(T, T)>, parent: T, child: T, numParents0: map<T, int>, numParents: map<T, int>)
    requires numParents0.Keys == Elements(pairs)
    requires numParents.Keys == numParents0.Keys + {parent, child}
    requires forall x :: x in numParents0 ==> numParents0[x] == Waiting(pairs, {}, x)
    requires forall x :: x in numParents ==>
      numParents[x] == (if x in numParents0 then numParents0[x] else 0) + if x == child then 1 else 0
    ensures numParents.Keys == Elements(pairs + [(parent, child)])
    ensures forall x :: x in numParents ==> numParents[x] == Waiting(pairs + [(parent, child)], {}, x)
  {
    OnePairMore(pairs, parent, child, parent);
    forall x | x in numParents
      ensures numParents[x] == Waiting(pairs + [(parent, child)], {}, x)
    {
      OnePairMore(pairs, parent, child, x);
      CountedIsElement(pairs, {}, x);
    }
  }

  lemma ChildrenOneMore<T(!new)>(pairs: seq<(T, T)>, parent: T, child: T, children: map<T, seq<T>>)
    requires forall p :: Children(children, p) == ChildrenOf(pairs, p)
    ensures var more := children[parent := Children(children, parent) + [child]];
      forall p :: Children(more, p) == ChildrenOf(pairs + [(parent, child)], p)
  {
    forall p ensures ChildrenOf(pairs + [(parent, child)], p)
                  == ChildrenOf(pairs, p) + if p == parent then [child] else []
    {
      OnePairMore(pairs, parent, child, p);
    }
  }

  lemma OnePairMore<T>(pairs: seq<(T, T)>, parent: T, child: T, x: T)
    ensures var more := pairs + [(parent, child)];
      && Elements(more) == Elements(pairs) + {parent, child}
      && Waiting(more, {}, x) == Waiting(pairs, {}, x) + (if x == child then 1 else 0)
      && ChildrenOf(more, x) == ChildrenOf(pairs, x) + if x == parent then [child] else []
  {
    assert (pairs + [(parent, child)])[..|pairs|] == pairs;
  }

  lemma {:induction false} CountedIsElement<T>(pairs: seq<(T, T)>, done: set<T>, x: T)
    ensures Waiting(pairs, done, x) > 0 ==> x in Elements(pairs)
  {
    if pairs != [] {
      var front := pairs[..|pairs| - 1];
      CountedIsElement(front, done, x);
    }
  }

  // ----- Orders in which no element comes before one of its parents

  ghost predicate ParentsBefore<T(!new)>(pairs: seq<(T, T)>, order: seq<T>) {
    forall k, p {:trigger (p, order[k]) in pairs} :: 0 <= k < |order| && (p, order[k]) in pairs ==> p in order[..k]
  }

  /** Every element exactly once, and every parent before each of its children. */
  ghost predicate TopologicalOrder<T(!new)>(pairs: seq<(T, T)>, order: seq<T>) {
    && Distinct(order)
    && (forall x :: x in order <==> x in Elements(pairs))
    && (forall i, j, k :: 0 <= k < |pairs| && 0 <= i < |order| && 0 <= j < |order| ==>
          pairs[k] == (order[i], order[j]) ==> i < j)
  }

  lemma ParentsBeforeIsTopological<T(!new)>(pairs: seq<(T, T)>, order: seq<T>)
    requires Distinct(order) && ParentsBefore(pairs, order)
    requires forall x :: x in order <==> x in Elements(pairs)
    ensures TopologicalOrder(pairs, order)
  {
    forall i, j, k | 0 <= k < |pairs| && 0 <= i < |order| && 0 <= j < |order| && pairs[k] == (order[i], order[j])
      ensures i < j
    {
      assert (order[i], order[j]) in pairs;
      var m :| 0 <= m < j && order[..j][m] == order[i];
    }
  }

  /** Whatever leads to the k-th element stands before it. */
  lemma {:induction false} AncestorBefore<T(!new)>(pairs: seq<(T, T)>, order: seq<T>, k: nat, w: seq<T>)
    requires ParentsBefore(pairs, order) && k < |order|
    requires Walk(GraphOf(pairs), w) && Last(w) == order[k]
    ensures First(w) in order[..if |w| == 1 then k + 1 else k]
    decreases |w|
  {
    if |w| > 1 {
      var p := w[|w| - 2];
      assert Edge(GraphOf(pairs), p, Last(w));
      EdgeIsPair(pairs, p, Last(w));
      assert p in order[..k];
      var m :| 0 <= m < k && order[m] == p;
      AncestorBefore(pairs, order, m, w[..|w| - 1]);
    }
  }

  /** Nothing in such an order comes from a cycle. */
  lemma OrderAvoidsCycles<T(!new)>(pairs: seq<(T, T)>, order: seq<T>, x: T)
    requires Distinct(order) && ParentsBefore(pairs, order) && x in order
    ensures !FromCycle(GraphOf(pairs), x)
  {
    var g := GraphOf(pairs);
    if FromCycle(g, x) {
      var c: seq<T> :| SimpleCycle(g, c) && Reachable(g, First(c), x);
      var w :| Connects(g, First(c), x, w);
      var k :| 0 <= k < |order| && order[k] == x;
      AncestorBefore(pairs, order, k, w);
      var m :| 0 <= m < |order| && order[m] == First(c);
      AncestorBefore(pairs, order, m, c + [First(c)]);
      assert false;
    }
  }

  ghost predicate HasParentIn<T(!new)>(pairs: seq<(T, T)>, left: set<T>, x: T) {
    exists p :: p in left && (p, x) in pairs
  }

  /** Sorting is stuck when each element left over waits for another one of them. */
  ghost predicate Stuck<T(!new)>(pairs: seq<(T, T)>, left: set<T>) {
    && left <= Elements(pairs)
    && forall x {:trigger HasParentIn(pairs, left, x)} :: x in left ==> HasParentIn(pairs, left, x)
  }

  lemma {:induction false} StuckWalk<T(!new)>(pairs: seq<(T, T)>, left: set<T>, x: T, n: nat) returns (w: seq<T>)
    requires Stuck(pairs, left) && x in left
    ensures Walk(GraphOf(pairs), w) && |w| == n + 1 && First(w) in left && Last(w) == x
  {
    if n == 0 {
      w := [x];
    } else {
      assert HasParentIn(pairs, left, x);
      var p :| p in left && (p, x) in pairs;
      var v := StuckWalk(pairs, left, p, n - 1);
      EdgeIsPair(pairs, p, x);
      w := v + [x];
    }
  }

  lemma StuckFromCycle<T(!new)>(pairs: seq<(T, T)>, left: set<T>, x: T)
    requires Stuck(pairs, left) && x in left
    ensures FromCycle(GraphOf(pairs), x)
  {
    var g := GraphOf(pairs);
    var w := StuckWalk(pairs, left, x, |Nodes(g)|);
    LongWalkFromCycle(g, w);
  }

  /** A cycle lies within the elements of the list. */
  lemma CycleWithinElements<T(!new)>(pairs: seq<(T, T)>, c: seq<T>)
    requires SimpleCycle(GraphOf(pairs), c)
    ensures First(c) in Elements(pairs) && FromCycle(GraphOf(pairs), First(c))
  {
    var g := GraphOf(pairs);
    EdgeIsPair(pairs, Last(c), First(c));
    PairElements(pairs, Last(c), First(c));
    assert Connects(g, First(c), First(c), [First(c)]);
  }

  /**
   When sorting stops with the elements of `left` unfinished, these are
   exactly the ones that come from a cycle.
   */
  lemma LeftoverComesFromCycles<T(!new)>(pairs: seq<(T, T)>, order: seq<T>, left: set<T>)
    requires Distinct(order) && ParentsBefore(pairs, order) && Stuck(pairs, left)
    requires forall x :: x in Elements(pairs) <==> x in order || x in left
    ensures forall x :: x in left <==> x in Elements(pairs) && FromCycle(GraphOf(pairs), x)
    ensures left != {} <==> HasCycle(GraphOf(pairs))
  {
    forall x ensures x in left <==> x in Elements(pairs) && FromCycle(GraphOf(pairs), x) {
      if x in left {
        StuckFromCycle(pairs, left, x);
      } else if x in order {
        OrderAvoidsCycles(pairs, order, x);
      }
    }
    if left != {} {
      var x :| x in left;
      assert FromCycle(GraphOf(pairs), x);
    }
    if c: seq<T> :| SimpleCycle(GraphOf(pairs), c) {
      CycleWithinElements(pairs, c);
    }
  }
}

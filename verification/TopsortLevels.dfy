/** The topological sort that yields whole dependency levels. */
module TopsortLevels {
  import opened Common
  import opened Digraph
  import opened DependencyTables
  import opened Topsort

  datatype LevelsError<T> = LevelsError(numParents: map<T, int>, children: map<T, seq<T>>)

  /** No walk that ends at `x` visits more than `n` nodes. */
  ghost predicate AtMost<T(!new)>(g: map<T, seq<T>>, x: T, n: nat) {
    forall w: seq<T> :: Walk(g, w) && Last(w) == x ==> |w| <= n
  }

  /** The longest walk that ends at `x` has `k` edges. */
  ghost predicate LongestWalk<T(!new)>(g: map<T, seq<T>>, x: T, k: nat) {
    AtMost(g, x, k + 1) && !AtMost(g, x, k)
  }

  lemma ParentBound<T(!new)>(pairs: seq<(T, T)>, p: T, x: T, k: nat)
    requires (p, x) in pairs && AtMost(GraphOf(pairs), x, k + 1)
    ensures AtMost(GraphOf(pairs), p, k)
  {
    var g := GraphOf(pairs);
    EdgeIsPair(pairs, p, x);
    forall w: seq<T> | Walk(g, w) && Last(w) == p ensures |w| <= k {
      WalkOneMore(g, w, x);
    }
  }

  lemma ChildBound<T(!new)>(pairs: seq<(T, T)>, x: T, k: nat)
    requires forall p :: (p, x) in pairs ==> AtMost(GraphOf(pairs), p, k)
    ensures AtMost(GraphOf(pairs), x, k + 1)
  {
    var g := GraphOf(pairs);
    forall w: seq<T> | Walk(g, w) && Last(w) == x ensures |w| <= k + 1 {
      if |w| > 1 {
        WalkOneLess(g, w);
        EdgeIsPair(pairs, Last(w[..|w| - 1]), x);
      }
    }
  }

  /**
   When the finished elements are those whose walks have at most `k` nodes,
   the elements with no parent to wait for make the level of longest walk `k`.
   */
  lemma NextLevel<T(!new)>(pairs: seq<(T, T)>, done: set<T>, k: nat, x: T)
    requires x in Elements(pairs)
    requires forall y :: y in Elements(pairs) ==> (y in done <==> AtMost(GraphOf(pairs), y, k))
    ensures x !in done && Waiting(pairs, done, x) == 0 <==> LongestWalk(GraphOf(pairs), x, k)
    ensures x in done || Waiting(pairs, done, x) == 0 <==> AtMost(GraphOf(pairs), x, k + 1)
  {
    WaitingZero(pairs, done, x);
    forall p | (p, x) in pairs ensures p in Elements(pairs) {
      PairElements(pairs, p, x);
    }
    if Waiting(pairs, done, x) == 0 {
      ChildBound(pairs, x, k);
    }
    if AtMost(GraphOf(pairs), x, k + 1) {
      forall p | (p, x) in pairs ensures p in done {
        ParentBound(pairs, p, x, k);
      }
    }
  }

  /** What has been yielded after some rounds, and which elements that finishes. */
  ghost predicate Levelled<T(!new)>(pairs: seq<(T, T)>, levels: seq<seq<T>>) {
    var order := Flatten(levels);
    && Distinct(order) && ParentsBefore(pairs, order)
    && (forall x :: x in order ==> x in Elements(pairs))
    && (forall x :: x in Elements(pairs) ==> (x in ToSet(order) <==> AtMost(GraphOf(pairs), x, |levels|)))
  }

  /** Each level is the set of elements whose longest walk has as many edges. */
  ghost predicate ByLongestWalk<T(!new)>(pairs: seq<(T, T)>, levels: seq<seq<T>>) {
    forall k :: 0 <= k < |levels| ==> IsLevel(pairs, levels[k], k)
  }

  ghost predicate IsLevel<T(!new)>(pairs: seq<(T, T)>, level: seq<T>, k: nat) {
    && level != [] && Distinct(level)
    && forall x :: x in level <==> x in Elements(pairs) && LongestWalk(GraphOf(pairs), x, k)
  }

  lemma NoLevelsYet<T(!new)>(pairs: seq<(T, T)>)
    ensures Levelled(pairs, [])
  {
    forall x ensures !AtMost(GraphOf(pairs), x, 0) {
      assert Walk(GraphOf(pairs), [x]);
    }
  }

  lemma AddLevel<T(!new)>(pairs: seq<(T, T)>, levels: seq<seq<T>>, level: seq<T>)
    requires Levelled(pairs, levels) && Distinct(level) && level != []
    requires forall x :: x in level <==>
      x in Elements(pairs) && x !in ToSet(Flatten(levels)) && Waiting(pairs, ToSet(Flatten(levels)), x) == 0
    ensures Levelled(pairs, levels + [level]) && IsLevel(pairs, level, |levels|)
    ensures Flatten(levels + [level]) == Flatten(levels) + level
    ensures |Flatten(levels)| < |Flatten(levels + [level])| <= |Elements(pairs)|
  {
    var order, done := Flatten(levels), ToSet(Flatten(levels));
    FlattenAppend(levels, [level]);
    FlattenOne(level);
    forall x | x in Elements(pairs)
      ensures x in level <==> LongestWalk(GraphOf(pairs), x, |levels|)
      ensures x in ToSet(order + level) <==> AtMost(GraphOf(pairs), x, |levels| + 1)
    {
      NextLevel(pairs, done, |levels|, x);
    }
    AppendFreeElements(pairs, order, level);
    DistinctBound(order + level, Elements(pairs));
  }

  lemma LevelsOneMore<T(!new)>(pairs: seq<(T, T)>, levels: seq<seq<T>>, level: seq<T>)
    requires ByLongestWalk(pairs, levels) && IsLevel(pairs, level, |levels|)
    ensures ByLongestWalk(pairs, levels + [level])
  {
    var more := levels + [level];
    forall k | 0 <= k < |more| ensures IsLevel(pairs, more[k], k) {
      if k < |levels| {
        assert IsLevel(pairs, levels[k], k) && more[k] == levels[k];
      }
    }
  }

  ghost predicate Yielded<T(!new)>(pairs: seq<(T, T)>, levels: seq<seq<T>>,
                                   numParents: map<T, int>, children: map<T, seq<T>>) {
    && Levelled(pairs, levels) && ByLongestWalk(pairs, levels)
    && Describes(pairs, ToSet(Flatten(levels)), numParents, children)
  }

  lemma AppendFreeElements<T(!new)>(pairs: seq<(T, T)>, order: seq<T>, level: seq<T>)
    requires Distinct(order) && Distinct(level) && ParentsBefore(pairs, order)
    requires forall x :: x in level ==> x !in order && Waiting(pairs, ToSet(order), x) == 0
    ensures Distinct(order + level) && ParentsBefore(pairs, order + level)
  {
    var longer := order + level;
    forall i, j | 0 <= i < j < |longer| ensures longer[i] != longer[j] {
      if i < |order| <= j {
        assert longer[j] in level;
      }
    }
    forall k, p | 0 <= k < |longer| && (p, longer[k]) in pairs ensures p in longer[..k] {
      if k < |order| {
        assert longer[..k] == order[..k];
      } else {
        assert longer[k] in level;
        WaitingZero(pairs, ToSet(order), longer[k]);
        assert longer[..k] == order + level[..k - |order|];
      }
    }
  }

  /** The loop over the children of one element of a level. */
  method KnockDownLevelChildren<T(==, !new)>(ghost pairs: seq<(T, T)>, ghost order: seq<T>, ghost i: nat,
                                             kids: seq<T>, numParents0: map<T, int>)
    returns (numParents: map<T, int>)
    requires i < |order| && kids == ChildrenOf(pairs, order[i])
    requires Distinct(order) && ParentsBefore(pairs, order)
    requires Counting(pairs, ToSet(order[..i + 1]), kids, numParents0)
    ensures Counting(pairs, ToSet(order[..i + 1]), [], numParents)
  {
    numParents := numParents0;
    for j := 0 to |kids|
      invariant Counting(pairs, ToSet(order[..i + 1]), kids[j..], numParents)
    {
      var child := kids[j];
      ChildrenOfMember(pairs, order[i], child);
      ChildIsCounted(pairs, ToSet(order[..i + 1]), numParents, order, i, child);
      OneElementLess(kids, j);
      numParents := numParents[child := numParents[child] - 1];
    }
  }

  /** The tables once the first `i` elements of `order` are finished. */
  ghost predicate FinishedUpTo<T(!new)>(pairs: seq<(T, T)>, order: seq<T>, i: nat,
                                        numParents: map<T, int>, children: map<T, seq<T>>) {
    && i <= |order| && Distinct(order) && ParentsBefore(pairs, order)
    && Describes(pairs, ToSet(order[..i]), numParents, children)
  }

  /** The body of the loop over the elements of a level: `order[i]` is finished. */
  method FinishLevelParent<T(==, !new)>(ghost pairs: seq<(T, T)>, ghost order: seq<T>, ghost i: nat, levelParent: T,
                                        numParents0: map<T, int>, children0: map<T, seq<T>>)
    returns (numParents: map<T, int>, children: map<T, seq<T>>)
    requires i < |order| && order[i] == levelParent
    requires FinishedUpTo(pairs, order, i, numParents0, children0)
    ensures FinishedUpTo(pairs, order, i + 1, numParents, children)
  {
    ghost var done := ToSet(order[..i]);
    OneElementMore(order, i);
    DeleteParent(pairs, done, levelParent, numParents0, children0);
    var kids := Children(children0, levelParent);
    numParents := KnockDownLevelChildren(pairs, order, i, kids, numParents0 - {levelParent});
    ParentFinished(pairs, done, levelParent, numParents, children0);
    children := children0 - {levelParent};
  }

  /** The loop over the elements of a level, which end the order `all`. */
  method FinishLevel<T(==, !new)>(ghost pairs: seq<(T, T)>, ghost all: seq<T>, ghost from: nat, level: seq<T>,
                                  numParents0: map<T, int>, children0: map<T, seq<T>>)
    returns (numParents: map<T, int>, children: map<T, seq<T>>)
    requires from <= |all| && level == all[from..]
    requires FinishedUpTo(pairs, all, from, numParents0, children0)
    ensures FinishedUpTo(pairs, all, |all|, numParents, children)
  {
    numParents, children := numParents0, children0;
    for i := 0 to |level|
      invariant FinishedUpTo(pairs, all, from + i, numParents, children)
    {
      ghost var k := from + i;
      assert all[k] == level[i];
      numParents, children := FinishLevelParent(pairs, all, k, level[i], numParents, children);
    }
  }

  /** The body of the `while` loop once the next level is known not to be empty. */
  method YieldLevel<T(==, !new)>(ghost pairs: seq<(T, T)>, levels0: seq<seq<T>>, level: seq<T>,
                                 numParents0: map<T, int>, children0: map<T, seq<T>>)
    returns (levels: seq<seq<T>>, numParents: map<T, int>, children: map<T, seq<T>>)
    requires Yielded(pairs, levels0, numParents0, children0)
    requires level != [] && Distinct(level)
    requires forall x :: x in level <==> x in numParents0 && numParents0[x] == 0
    ensures Yielded(pairs, levels, numParents, children)
    ensures |Flatten(levels0)| < |Flatten(levels)| <= |Elements(pairs)|
  {
    ghost var order := Flatten(levels0);
    AddLevel(pairs, levels0, level);
    LevelsOneMore(pairs, levels0, level);
    SlicesOfAppend(order, level);
    levels := levels0 + [level];
    numParents, children := FinishLevel(pairs, order + level, |order|, level, numParents0, children0);
  }

  /**
   Consumes the two dictionaries of a pair list.  The levels are those the
   generator yields; after them it either ends or raises the error.
   */
  method TopsortLevelsCore<T(==, !new)>(ghost pairs: seq<(T, T)>, numParents0: map<T, int>, children0: map<T, seq<T>>)
    returns (levels: seq<seq<T>>, error: Option<LevelsError<T>>)
    requires Describes(pairs, {}, numParents0, children0)
    ensures ByLongestWalk(pairs, levels)
    ensures error.Some? <==> HasCycle(GraphOf(pairs))
    ensures error.None? ==> TopologicalOrder(pairs, Flatten(levels))
    ensures error.Some? ==>
      && (forall x :: x in error.value.numParents <==> x in Elements(pairs) && FromCycle(GraphOf(pairs), x))
      && Describes(pairs, ToSet(Flatten(levels)), error.value.numParents, error.value.children)
    ensures forall x :: x in Flatten(levels) <==> x in Elements(pairs) && !FromCycle(GraphOf(pairs), x)
  {
    var numParents, children := numParents0, children0;
    levels := [];
    NoLevelsYet(pairs);
    assert ToSet(Flatten(levels)) == {};
    while true
      invariant Yielded(pairs, levels, numParents, children)
      decreases |Elements(pairs)| - |Flatten(levels)|
    {
      var levelParents := ElementsWithoutParent(numParents);
      if levelParents == [] {
        break;
      }
      levels, numParents, children := YieldLevel(pairs, levels, levelParents, numParents, children);
    }
    FinishedLevels(pairs, levels, numParents, children);
    error := if numParents != map[] then Some(LevelsError(numParents, children)) else None;
  }

  lemma FinishedLevels<T(!new)>(pairs: seq<(T, T)>, levels: seq<seq<T>>,
                                numParents: map<T, int>, children: map<T, seq<T>>)
    requires Levelled(pairs, levels)
    requires Describes(pairs, ToSet(Flatten(levels)), numParents, children)
    requires forall x :: x in numParents ==> numParents[x] != 0
    ensures numParents != map[] <==> HasCycle(GraphOf(pairs))
    ensures numParents == map[] ==> TopologicalOrder(pairs, Flatten(levels))
    ensures forall x :: x in numParents <==> x in Elements(pairs) && FromCycle(GraphOf(pairs), x)
    ensures forall x :: x in Flatten(levels) <==> x in Elements(pairs) && !FromCycle(GraphOf(pairs), x)
  {
    var order, left := Flatten(levels), numParents.Keys;
    forall x | x in left ensures HasParentIn(pairs, left, x) {
      StuckElement(pairs, ToSet(order), x);
    }
    LeftoverComesFromCycles(pairs, order, left);
    if numParents == map[] {
      assert left == {};
      ParentsBeforeIsTopological(pairs, order);
    }
  }

  /** The levels of a pair list, and an error after them exactly when it has a cycle. */
  method TopsortLevels<T(==, !new)>(pairlist: seq<(T, T)>)
    returns (levels: seq<seq<T>>, error: Option<LevelsError<T>>)
    ensures ByLongestWalk(pairlist, levels)
    ensures error.Some? <==> HasCycle(GraphOf(pairlist))
    ensures error.None? ==> TopologicalOrder(pairlist, Flatten(levels))
    ensures error.Some? ==>
      && (forall x :: x in error.value.numParents <==> x in Elements(pairlist) && FromCycle(GraphOf(pairlist), x))
      && Describes(pairlist, ToSet(Flatten(levels)), error.value.numParents, error.value.children)
    ensures forall x :: x in Flatten(levels) <==> x in Elements(pairlist) && !FromCycle(GraphOf(pairlist), x)
  {
    var numParents, children := BuildTables(pairlist);
    levels, error := TopsortLevelsCore(pairlist, numParents, children);
  }
}

/** Kahn's topological sort: the list of answers grows while it is being walked. */
module Topsort {
  import opened Common
  import opened Digraph
  import opened DependencyTables

  datatype CycleError<T> = CycleError(answer: seq<T>, numParents: map<T, int>, children: map<T, seq<T>>)

  /**
   The counts while the children of a finished parent are being knocked down:
   those in `rest` still have to be.
   */
  ghost predicate Counting<T>(pairs: seq<(T, T)>, done: set<T>, rest: seq<T>, numParents: map<T, int>) {
    && numParents.Keys == Elements(pairs) - done
    && forall x {:trigger numParents[x]} :: x in numParents ==>
         numParents[x] == Waiting(pairs, done, x) + Occurrences(rest, x)
  }

  /** The answer holds the elements of `done`, then those with no parent left to wait for. */
  ghost predicate Queued<T(!new)>(pairs: seq<(T, T)>, done: set<T>, numParents: map<T, int>, answer: seq<T>) {
    && Distinct(answer) && ParentsBefore(pairs, answer)
    && (forall x {:trigger x in done} :: x in done ==> x in answer)
    && (forall x {:trigger x in answer} :: x in answer ==> x in Elements(pairs))
    && (forall x {:trigger numParents[x]} :: x in numParents ==> (numParents[x] == 0 <==> x in answer))
  }

  /** All the elements without a parent, in some order. */
  method ElementsWithoutParent<T(==, !new)>(numParents: map<T, int>) returns (free: seq<T>)
    ensures Distinct(free)
    ensures forall x :: x in free <==> x in numParents && numParents[x] == 0
  {
    free := [];
    var keys := numParents.Keys;
    while keys != {}
      invariant keys <= numParents.Keys
      invariant Distinct(free)
      invariant forall x :: x in free <==> x in numParents.Keys - keys && numParents[x] == 0
      decreases keys
    {
      var x :| x in keys;
      keys := keys - {x};
      if numParents[x] == 0 {
        free := free + [x];
      }
    }
  }

  lemma StartQueued<T(!new)>(pairs: seq<(T, T)>, numParents: map<T, int>, children: map<T, seq<T>>, answer: seq<T>)
    requires Describes(pairs, {}, numParents, children)
    requires Distinct(answer) && forall x :: x in answer <==> x in numParents && numParents[x] == 0
    ensures Queued(pairs, {}, numParents, answer)
  {
    forall k | 0 <= k < |answer| ensures forall p :: (p, answer[k]) !in pairs {
      assert answer[k] in answer;
      WaitingZero(pairs, {}, answer[k]);
    }
  }

  /** A child met while its parent is being finished still waits for that parent. */
  lemma ChildIsCounted<T(!new)>(pairs: seq<(T, T)>, done: set<T>, numParents: map<T, int>, answer: seq<T>,
                                i: nat, child: T)
    requires i < |answer| && (answer[i], child) in pairs
    requires done == ToSet(answer[..i + 1])
    requires Distinct(answer) && ParentsBefore(pairs, answer)
    requires numParents.Keys == Elements(pairs) - done
    ensures child in numParents
  {
    PairElements(pairs, answer[i], child);
    forall k | 0 <= k < |answer| && answer[k] == child ensures i < k {
      assert answer[i] in answer[..k];
    }
  }

  /** One decrement, and the append it may cause, keep the queue as it should be. */
  lemma KnockDown<T(!new)>(pairs: seq<(T, T)>, done: set<T>, rest: seq<T>, numParents: map<T, int>, answer: seq<T>)
    requires rest != [] && rest[0] in numParents
    requires Counting(pairs, done, rest, numParents) && Queued(pairs, done, numParents, answer)
    ensures var child := rest[0];
      var counts := numParents[child := numParents[child] - 1];
      && Counting(pairs, done, rest[1..], counts)
      && Queued(pairs, done, counts, if counts[child] == 0 then answer + [child] else answer)
  {
    var child := rest[0];
    var counts := numParents[child := numParents[child] - 1];
    assert Occurrences(rest, child) == 1 + Occurrences(rest[1..], child);
    if counts[child] == 0 {
      var longer := answer + [child];
      WaitingZero(pairs, done, child);
      forall k, p | 0 <= k < |longer| && (p, longer[k]) in pairs ensures p in longer[..k] {
        assert longer[..k] == answer[..k];
        if k == |answer| {
          assert answer[..k] == answer;
        }
      }
    }
  }

  /** The loop over the children of `answer0[i]`, which is finished. */
  method KnockDownChildren<T(==, !new)>(ghost pairs: seq<(T, T)>, i: nat, kids: seq<T>,
                                        numParents0: map<T, int>, answer0: seq<T>)
    returns (numParents: map<T, int>, answer: seq<T>)
    requires i < |answer0| && kids == ChildrenOf(pairs, answer0[i])
    requires Counting(pairs, ToSet(answer0[..i + 1]), kids, numParents0)
    requires Queued(pairs, ToSet(answer0[..i + 1]), numParents0, answer0)
    ensures answer0 <= answer
    ensures Counting(pairs, ToSet(answer0[..i + 1]), [], numParents)
    ensures Queued(pairs, ToSet(answer0[..i + 1]), numParents, answer)
  {
    numParents, answer := numParents0, answer0;
    ghost var done := ToSet(answer0[..i + 1]);
    for j := 0 to |kids|
      invariant answer0 <= answer
      invariant Counting(pairs, done, kids[j..], numParents)
      invariant Queued(pairs, done, numParents, answer)
    {
      var child := kids[j];
      KidIsCounted(pairs, i, kids, j, numParents, answer0, answer);
      OneElementLess(kids, j);
      KnockDown(pairs, done, kids[j..], numParents, answer);
      numParents := numParents[child := numParents[child] - 1];
      if numParents[child] == 0 {
        answer := answer + [child];
      }
    }
  }

  lemma KidIsCounted<T(!new)>(pairs: seq<(T, T)>, i: nat, kids: seq<T>, j: nat, numParents: map<T, int>,
                              answer0: seq<T>, answer: seq<T>)
    requires i < |answer0| && answer0 <= answer && kids == ChildrenOf(pairs, answer0[i]) && j < |kids|
    requires Queued(pairs, ToSet(answer0[..i + 1]), numParents, answer)
    requires numParents.Keys == Elements(pairs) - ToSet(answer0[..i + 1])
    ensures kids[j] in numParents
  {
    ChildrenOfMember(pairs, answer0[i], kids[j]);
    PrefixSlice(answer0, answer, i + 1);
    ChildIsCounted(pairs, ToSet(answer0[..i + 1]), numParents, answer, i, kids[j]);
  }

  /** Deleting a parent from the counts leaves its children to be knocked down. */
  lemma DeleteParent<T(!new)>(pairs: seq<(T, T)>, done: set<T>, parent: T,
                              numParents: map<T, int>, children: map<T, seq<T>>)
    requires Describes(pairs, done, numParents, children) && parent !in done
    ensures Counting(pairs, done + {parent}, Children(children, parent), numParents - {parent})
  {
    forall x | x in numParents - {parent}
      ensures numParents[x] == Waiting(pairs, done + {parent}, x) + Occurrences(ChildrenOf(pairs, parent), x)
    {
      WaitingRelease(pairs, done, parent, x);
    }
  }

  /** Once its children have been knocked down, the parent is done with. */
  lemma ParentFinished<T(!new)>(pairs: seq<(T, T)>, done: set<T>, parent: T,
                                numParents: map<T, int>, children: map<T, seq<T>>)
    requires children.Keys !! done
    requires forall p :: p !in done ==> Children(children, p) == ChildrenOf(pairs, p)
    requires Counting(pairs, done + {parent}, [], numParents)
    ensures Describes(pairs, done + {parent}, numParents, children - {parent})
  {
    forall p | p !in done + {parent} ensures Children(children - {parent}, p) == ChildrenOf(pairs, p) {
      assert p in children <==> p in children - {parent};
    }
  }

  lemma StillQueued<T(!new)>(pairs: seq<(T, T)>, done: set<T>, parent: T, numParents: map<T, int>, answer: seq<T>)
    requires Queued(pairs, done, numParents, answer) && parent in answer
    ensures Queued(pairs, done + {parent}, numParents - {parent}, answer)
  {
  }

  /** The body of the main loop: `answer[i]` is finished. */
  method FinishParent<T(==, !new)>(ghost pairs: seq<(T, T)>, i: nat,
                                   numParents0: map<T, int>, children0: map<T, seq<T>>, answer0: seq<T>)
    returns (numParents: map<T, int>, children: map<T, seq<T>>, answer: seq<T>)
    requires i < |answer0|
    requires Describes(pairs, ToSet(answer0[..i]), numParents0, children0)
    requires Queued(pairs, ToSet(answer0[..i]), numParents0, answer0)
    ensures answer0 <= answer
    ensures Describes(pairs, ToSet(answer0[..i + 1]), numParents, children)
    ensures Queued(pairs, ToSet(answer0[..i + 1]), numParents, answer)
  {
    var parent := answer0[i];
    ghost var done := ToSet(answer0[..i]);
    OneElementMore(answer0, i);
    DeleteParent(pairs, done, parent, numParents0, children0);
    StillQueued(pairs, done, parent, numParents0, answer0);
    numParents, answer := KnockDownChildren(pairs, i, Children(children0, parent), numParents0 - {parent}, answer0);
    ParentFinished(pairs, done, parent, numParents, children0);
    children := children0 - {parent};
  }

  /**
   Fails exactly on a list with a directed cycle, and otherwise lists every
   element once, parents first.  The details of the error are the elements
   that could be sorted and, as keys, exactly those that come from a cycle, each
   with the number of its parents among these and with its children.
   */
  method Topsort<T(==, !new)>(pairlist: seq<(T, T)>) returns (r: Result<seq<T>, CycleError<T>>)
    ensures r.Err? <==> HasCycle(GraphOf(pairlist))
    ensures r.Ok? ==> TopologicalOrder(pairlist, r.value)
    ensures r.Err? ==>
      && (forall x :: x in r.error.numParents <==> x in Elements(pairlist) && FromCycle(GraphOf(pairlist), x))
      && (forall x :: x in r.error.answer <==> x in Elements(pairlist) && !FromCycle(GraphOf(pairlist), x))
      && (forall x :: x in r.error.numParents ==> r.error.numParents[x] == Waiting(pairlist, ToSet(r.error.answer), x))
      && (forall x :: x in r.error.numParents ==> Children(r.error.children, x) == ChildrenOf(pairlist, x))
      && (forall x :: x in r.error.children ==> x !in r.error.answer)
  {
    var numParents, children := BuildTables(pairlist);
    var answer := ElementsWithoutParent(numParents);
    StartQueued(pairlist, numParents, children, answer);
    var i := 0;
    assert ToSet(answer[..i]) == {};
    while i < |answer|
      invariant 0 <= i <= |answer|
      invariant Describes(pairlist, ToSet(answer[..i]), numParents, children)
      invariant Queued(pairlist, ToSet(answer[..i]), numParents, answer)
      decreases |Elements(pairlist)| - i
    {
      ghost var answer0 := answer;
      numParents, children, answer := FinishParent(pairlist, i, numParents, children, answer);
      assert answer[..i + 1] == answer0[..i + 1];
      i := i + 1;
      assert forall x :: x in answer[..i] ==> x in answer;
      DistinctBound(answer[..i], Elements(pairlist));
    }
    assert answer[..i] == answer;
    FinishedSorting(pairlist, numParents, children, answer);
    if numParents != map[] {
      return Err(CycleError(answer, numParents, children));
    }
    return Ok(answer);
  }

  lemma FinishedSorting<T(!new)>(pairs: seq<(T, T)>, numParents: map<T, int>, children: map<T, seq<T>>, answer: seq<T>)
    requires Describes(pairs, ToSet(answer), numParents, children)
    requires Queued(pairs, ToSet(answer), numParents, answer)
    ensures numParents != map[] <==> HasCycle(GraphOf(pairs))
    ensures numParents == map[] ==> TopologicalOrder(pairs, answer)
    ensures forall x :: x in numParents <==> x in Elements(pairs) && FromCycle(GraphOf(pairs), x)
    ensures forall x :: x in answer <==> x in Elements(pairs) && !FromCycle(GraphOf(pairs), x)
  {
    var left := numParents.Keys;
    forall x | x in left ensures HasParentIn(pairs, left, x) {
      StuckElement(pairs, ToSet(answer), x);
    }
    LeftoverComesFromCycles(pairs, answer, left);
    if numParents == map[] {
      assert left == {};
      ParentsBeforeIsTopological(pairs, answer);
    }
  }

  /** An element with a parent to wait for has one that is not finished. */
  lemma StuckElement<T(!new)>(pairs: seq<(T, T)>, done: set<T>, x: T)
    requires Waiting(pairs, done, x) != 0
    ensures HasParentIn(pairs, Elements(pairs) - done, x)
  {
    WaitingZero(pairs, done, x);
    var p :| (p, x) in pairs && p !in done;
    PairElements(pairs, p, x);
  }
}

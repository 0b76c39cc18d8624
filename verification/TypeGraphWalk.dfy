/**
 The walk that gathers configuration paths: from a type along its pointer
 attributes, its container attributes, the types derived from it and the types
 aggregated with it, over a graph that may well be cyclic.
 */
module TypeGraphWalk {
  import opened TypeHops
  import opened TypePaths

  class StaticInformation {
    const graph: TypeGraph
    var output: seq<(TypeId, string)>
    var currentPath: seq<string>
    var alreadyProcessed: seq<TypeId>

    constructor (g: TypeGraph)
      ensures graph == g && output == [] && currentPath == [] && alreadyProcessed == []
    {
      graph, output, currentPath, alreadyProcessed := g, [], [], [];
    }

    ghost predicate Valid()
      reads this
    {
      WellFormed(graph) && OnPath(graph, alreadyProcessed)
    }

    method GetCurrentPath() returns (path: string)
      ensures path == Joined(currentPath)
    {
      path := "";
      for i := 0 to |currentPath|
        invariant path == Joined(currentPath[..i])
      {
        assert currentPath[..i + 1][..i] == currentPath[..i];
        path := path + "/" + currentPath[i];
      }
      assert currentPath[..|currentPath|] == currentPath;
    }

    method RecordOutput(tid: TypeId)
      modifies this`output
      ensures output == old(output) + [(tid, Joined(currentPath))]
    {
      var path := GetCurrentPath();
      output := output + [(tid, path)];
    }

    method HasAlreadyBeenProcessed(tid: TypeId) returns (processed: bool)
      ensures processed <==> tid in alreadyProcessed
    {
      for i := 0 to |alreadyProcessed|
        invariant tid !in alreadyProcessed[..i]
      {
        if alreadyProcessed[i] == tid {
          return true;
        }
      }
      return false;
    }

    /** One way on: both stacks are pushed, and popped again afterwards. */
    method Follow(tid: TypeId, name: string, target: TypeId, ghost k: nat)
      requires Valid() && tid in graph.registered && tid !in alreadyProcessed
      requires k < |Hops(graph, tid)| && Hops(graph, tid)[k] == Hop(name, target)
      modifies this
      ensures Valid() && currentPath == old(currentPath) && alreadyProcessed == old(alreadyProcessed)
      ensures output == old(output) + Entries(graph, currentPath + [name], alreadyProcessed + [tid], target)
      decreases Unseen(graph, alreadyProcessed), 0
    {
      SeenBound(graph, alreadyProcessed + [tid]);
      currentPath := currentPath + [name];
      alreadyProcessed := alreadyProcessed + [tid];
      DoGather(target);
      alreadyProcessed := alreadyProcessed[..|alreadyProcessed| - 1];
      currentPath := currentPath[..|currentPath| - 1];
    }

    /** Recorded so far below `tid`: what the first `n` hops lead to. */
    ghost predicate Along(tid: TypeId, before: seq<(TypeId, string)>, n: nat)
      reads this
    {
      && Valid() && tid in graph.registered && tid !in alreadyProcessed && n <= |Hops(graph, tid)|
      && output == before + EntriesAlong(graph, currentPath, alreadyProcessed, tid, n)
    }

    /** The next of all the hops of `tid` is followed. */
    method FollowNext(tid: TypeId, name: string, target: TypeId, ghost before: seq<(TypeId, string)>, ghost n: nat)
      requires Along(tid, before, n) && n < |Hops(graph, tid)| && Hops(graph, tid)[n] == Hop(name, target)
      modifies this
      ensures Along(tid, before, n + 1)
      ensures currentPath == old(currentPath) && alreadyProcessed == old(alreadyProcessed)
      decreases Unseen(graph, alreadyProcessed), 1
    {
      Follow(tid, name, target, n);
    }

    /** The body of the loop over the attributes. */
    method GatherAttribute(tid: TypeId, a: Attribute, ghost before: seq<(TypeId, string)>, ghost n: nat, ghost m: nat)
      requires Along(tid, before, n) && Next(graph, tid, n, AttributeHop(graph, a), m)
      modifies this
      ensures Along(tid, before, m)
      ensures currentPath == old(currentPath) && alreadyProcessed == old(alreadyProcessed)
      decreases Unseen(graph, alreadyProcessed), 2
    {
      match a.checker
      case Pointer(pointee) =>
        if pointee == graph.objectType {
          return;
        }
        FollowNext(tid, a.name, pointee, before, n);
      case Container(item) =>
        FollowNext(tid, a.name + "/[i]", item, before, n);
      case Other =>
    }

    /** The loop over the attributes. */
    method GatherAttributes(tid: TypeId, ghost before: seq<(TypeId, string)>)
      requires Along(tid, before, AttributeCount(graph, tid, 0))
      modifies this
      ensures Along(tid, before, AttributeCount(graph, tid, |Attributes(graph, tid)|))
      ensures currentPath == old(currentPath) && alreadyProcessed == old(alreadyProcessed)
      decreases Unseen(graph, alreadyProcessed), 4
    {
      var attributes := Attributes(graph, tid);
      for i := 0 to |attributes|
        invariant Along(tid, before, AttributeCount(graph, tid, i))
        invariant currentPath == old(currentPath) && alreadyProcessed == old(alreadyProcessed)
      {
        GatherAttributeAt(tid, attributes, i, before);
      }
    }

    /** One round of the loop. */
    method GatherAttributeAt(tid: TypeId, attributes: seq<Attribute>, i: nat, ghost before: seq<(TypeId, string)>)
      requires attributes == Attributes(graph, tid) && i < |attributes|
      requires Along(tid, before, AttributeCount(graph, tid, i))
      modifies this
      ensures Along(tid, before, AttributeCount(graph, tid, i + 1))
      ensures currentPath == old(currentPath) && alreadyProcessed == old(alreadyProcessed)
      decreases Unseen(graph, alreadyProcessed), 3
    {
      NextAttributeHop(graph, tid, i);
      GatherAttribute(tid, attributes[i], before, AttributeCount(graph, tid, i), AttributeCount(graph, tid, i + 1));
    }

    /** The body of the loop over the registered types. */
    method GatherChild(tid: TypeId, child: TypeId, ghost before: seq<(TypeId, string)>, ghost n: nat, ghost m: nat)
      requires Along(tid, before, n)
      requires Next(graph, tid, n, ChildHop(graph, tid, child), m)
      modifies this
      ensures Along(tid, before, m)
      ensures currentPath == old(currentPath) && alreadyProcessed == old(alreadyProcessed)
      decreases Unseen(graph, alreadyProcessed), 2
    {
      if (child, tid) in graph.childOf {
        FollowNext(tid, "$" + child, child, before, n);
      }
    }

    /** The loop over all the registered types. */
    method GatherChildren(tid: TypeId, ghost before: seq<(TypeId, string)>)
      requires Along(tid, before, ChildCount(graph, tid, 0))
      modifies this
      ensures Along(tid, before, ChildCount(graph, tid, |graph.registered|))
      ensures currentPath == old(currentPath) && alreadyProcessed == old(alreadyProcessed)
      decreases Unseen(graph, alreadyProcessed), 3
    {
      for j := 0 to |graph.registered|
        invariant Along(tid, before, ChildCount(graph, tid, j))
        invariant currentPath == old(currentPath) && alreadyProcessed == old(alreadyProcessed)
      {
        NextChildHop(graph, tid, j);
        GatherChild(tid, graph.registered[j], before, ChildCount(graph, tid, j), ChildCount(graph, tid, j + 1));
      }
    }

    /** The type that a pair aggregates with `tid`. */
    static method OtherOf(tid: TypeId, pair: (TypeId, TypeId)) returns (other: TypeId)
      requires pair.0 == tid || pair.1 == tid
      ensures AggregateHop(tid, pair) == [Hop("$" + other, other)]
    {
      other := "";
      if pair.0 == tid {
        other := pair.1;
      }
      if pair.1 == tid {
        other := pair.0;
      }
    }

    /** The body of the loop over the aggregation pairs. */
    method GatherAggregate(tid: TypeId, pair: (TypeId, TypeId), ghost before: seq<(TypeId, string)>,
                           ghost n: nat, ghost m: nat)
      requires Along(tid, before, n)
      requires Next(graph, tid, n, AggregateHop(tid, pair), m)
      modifies this
      ensures Along(tid, before, m)
      ensures currentPath == old(currentPath) && alreadyProcessed == old(alreadyProcessed)
      decreases Unseen(graph, alreadyProcessed), 2
    {
      if pair.0 == tid || pair.1 == tid {
        var other := OtherOf(tid, pair);
        FollowNext(tid, "$" + other, other, before, n);
      }
    }

    /** The loop over the aggregation pairs. */
    method GatherAggregates(tid: TypeId, ghost before: seq<(TypeId, string)>)
      requires Along(tid, before, AggregateCount(graph, tid, 0))
      modifies this
      ensures Along(tid, before, AggregateCount(graph, tid, |graph.aggregates|))
      ensures currentPath == old(currentPath) && alreadyProcessed == old(alreadyProcessed)
      decreases Unseen(graph, alreadyProcessed), 3
    {
      for k := 0 to |graph.aggregates|
        invariant Along(tid, before, AggregateCount(graph, tid, k))
        invariant currentPath == old(currentPath) && alreadyProcessed == old(alreadyProcessed)
      {
        NextAggregateHop(graph, tid, k);
        GatherAggregate(tid, graph.aggregates[k], before,
                        AggregateCount(graph, tid, k), AggregateCount(graph, tid, k + 1));
      }
    }

    /** The three loops, one after the other. */
    method GatherHops(tid: TypeId, ghost before: seq<(TypeId, string)>)
      requires Along(tid, before, 0)
      modifies this
      ensures Along(tid, before, |Hops(graph, tid)|)
      ensures currentPath == old(currentPath) && alreadyProcessed == old(alreadyProcessed)
      decreases Unseen(graph, alreadyProcessed), 5
    {
      CountsMeet(graph, tid);
      GatherAttributes(tid, before);
      GatherChildren(tid, before);
      GatherAggregates(tid, before);
    }

    /**
     The walk from one type.  It ends on every finite graph, leaves both stacks
     as it found them and records what the recursive specification lists.
     */
    method DoGather(tid: TypeId)
      requires Valid() && tid in graph.registered
      modifies this
      ensures Valid() && currentPath == old(currentPath) && alreadyProcessed == old(alreadyProcessed)
      ensures output == old(output) + Entries(graph, currentPath, alreadyProcessed, tid)
      decreases Unseen(graph, alreadyProcessed), 6
    {
      var processed := HasAlreadyBeenProcessed(tid);
      if processed {
        return;
      }
      RecordOutput(tid);
      GatherHops(tid, output);
    }

    /**
     Gathering from a root, with both stacks empty: a type is recorded with
     exactly the paths that lead to it and meet no type twice.
     */
    method Gather(tid: TypeId)
      requires Valid() && tid in graph.registered && currentPath == [] && alreadyProcessed == []
      modifies this
      ensures Valid() && currentPath == [] && alreadyProcessed == []
      ensures |output| >= |old(output)| && output[..|old(output)|] == old(output)
      ensures output[|old(output)|..] == Entries(graph, [], [], tid)
      ensures forall target, path :: (target, path) in output[|old(output)|..] <==>
        exists types, components :: LeadsFrom(graph, tid, target, path, types, components)
    {
      DoGather(tid);
      forall target, path
        ensures (target, path) in Entries(graph, [], [], tid) <==>
          exists types, components :: LeadsFrom(graph, tid, target, path, types, components)
      {
        PathsExactly(graph, tid, target, path);
      }
    }
  }
}

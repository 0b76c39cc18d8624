/**
 The ways on from a type: along its pointer attributes, its container
 attributes, to the types derived from it and to those aggregated with it; and
 what a walk along them records.
 */
module TypeHops {
  import opened Common

  /** A type is known by its name. */
  type TypeId = string

  datatype Checker = Pointer(pointee: TypeId) | Container(item: TypeId) | Other

  datatype Attribute = Attribute(name: string, checker: Checker)

  datatype TypeGraph = TypeGraph(registered: seq<TypeId>, objectType: TypeId,
                                 attributes: map<TypeId, seq<Attribute>>,
                                 childOf: set<(TypeId, TypeId)>, aggregates: seq<(TypeId, TypeId)>)

  /** One step of a configuration path. */
  datatype Hop = Hop(name: string, target: TypeId)

  function Attributes(g: TypeGraph, tid: TypeId): seq<Attribute> {
    if tid in g.attributes then g.attributes[tid] else []
  }

  /** Pointers to the root of all objects are not followed. */
  function AttributeHop(g: TypeGraph, a: Attribute): seq<Hop> {
    match a.checker
    case Pointer(pointee) => if pointee == g.objectType then [] else [Hop(a.name, pointee)]
    case Container(item) => [Hop(a.name + "/[i]", item)]
    case Other => []
  }

  function AttributeHops(g: TypeGraph, attributes: seq<Attribute>): seq<Hop> {
    if attributes == [] then [] else
      AttributeHops(g, attributes[..|attributes| - 1]) + AttributeHop(g, attributes[|attributes| - 1])
  }

  function ChildHop(g: TypeGraph, tid: TypeId, child: TypeId): seq<Hop> {
    if (child, tid) in g.childOf then [Hop("$" + child, child)] else []
  }

  function ChildHops(g: TypeGraph, tid: TypeId, types: seq<TypeId>): seq<Hop> {
    if types == [] then [] else
      ChildHops(g, tid, types[..|types| - 1]) + ChildHop(g, tid, types[|types| - 1])
  }

  function AggregateHop(tid: TypeId, pair: (TypeId, TypeId)): seq<Hop> {
    if pair.1 == tid then [Hop("$" + pair.0, pair.0)]
    else if pair.0 == tid then [Hop("$" + pair.1, pair.1)]
    else []
  }

  function AggregateHops(tid: TypeId, pairs: seq<(TypeId, TypeId)>): seq<Hop> {
    if pairs == [] then [] else
      AggregateHops(tid, pairs[..|pairs| - 1]) + AggregateHop(tid, pairs[|pairs| - 1])
  }

  /** All the ways on from a type, in the order in which they are tried. */
  function Hops(g: TypeGraph, tid: TypeId): seq<Hop> {
    AttributeHops(g, Attributes(g, tid)) + ChildHops(g, tid, g.registered) + AggregateHops(tid, g.aggregates)
  }

  /** Every type that can be met is a registered one. */
  ghost predicate WellFormed(g: TypeGraph) {
    forall tid, k {:trigger Hops(g, tid)[k]} :: tid in g.registered && 0 <= k < |Hops(g, tid)| ==>
      Hops(g, tid)[k].target in g.registered
  }

  /** The types on the path that led here. */
  ghost predicate OnPath(g: TypeGraph, seen: seq<TypeId>) {
    Distinct(seen) && forall t {:trigger t in seen} :: t in seen ==> t in g.registered
  }

  ghost function Unseen(g: TypeGraph, seen: seq<TypeId>): nat
    requires OnPath(g, seen)
  {
    SeenBound(g, seen);
    |ToSet(g.registered)| - |seen|
  }

  lemma SeenBound(g: TypeGraph, seen: seq<TypeId>)
    requires OnPath(g, seen)
    ensures |seen| <= |ToSet(g.registered)|
  {
    DistinctBound(seen, ToSet(g.registered));
  }

  function Joined(path: seq<string>): string {
    if path == [] then "" else Joined(path[..|path| - 1]) + "/" + path[|path| - 1]
  }

  // The hops of a shorter list are the first ones of a longer list.

  lemma {:induction false} AttributeHopsPrefix(g: TypeGraph, attributes: seq<Attribute>, i: nat)
    requires i <= |attributes|
    ensures AttributeHops(g, attributes[..i]) <= AttributeHops(g, attributes)
  {
    if i < |attributes| {
      var front := attributes[..|attributes| - 1];
      AttributeHopsPrefix(g, front, i);
      assert front[..i] == attributes[..i];
    } else {
      assert attributes[..i] == attributes;
    }
  }

  lemma {:induction false} ChildHopsPrefix(g: TypeGraph, tid: TypeId, types: seq<TypeId>, i: nat)
    requires i <= |types|
    ensures ChildHops(g, tid, types[..i]) <= ChildHops(g, tid, types)
  {
    if i < |types| {
      var front := types[..|types| - 1];
      ChildHopsPrefix(g, tid, front, i);
      assert front[..i] == types[..i];
    } else {
      assert types[..i] == types;
    }
  }

  lemma {:induction false} AggregateHopsPrefix(tid: TypeId, pairs: seq<(TypeId, TypeId)>, i: nat)
    requires i <= |pairs|
    ensures AggregateHops(tid, pairs[..i]) <= AggregateHops(tid, pairs)
  {
    if i < |pairs| {
      var front := pairs[..|pairs| - 1];
      AggregateHopsPrefix(tid, front, i);
      assert front[..i] == pairs[..i];
    } else {
      assert pairs[..i] == pairs;
    }
  }

  // How many of the hops of `tid` are dealt with after some rounds of each loop.

  ghost function AttributeCount(g: TypeGraph, tid: TypeId, i: nat): nat
    requires i <= |Attributes(g, tid)|
  {
    |AttributeHops(g, Attributes(g, tid)[..i])|
  }

  ghost function ChildCount(g: TypeGraph, tid: TypeId, i: nat): nat
    requires i <= |g.registered|
  {
    |AttributeHops(g, Attributes(g, tid))| + |ChildHops(g, tid, g.registered[..i])|
  }

  ghost function AggregateCount(g: TypeGraph, tid: TypeId, i: nat): nat
    requires i <= |g.aggregates|
  {
    |AttributeHops(g, Attributes(g, tid)) + ChildHops(g, tid, g.registered)| + |AggregateHops(tid, g.aggregates[..i])|
  }

  /** The hop, if there is one, is the next of all those of `tid`. */
  ghost predicate Next(g: TypeGraph, tid: TypeId, n: nat, hop: seq<Hop>, m: nat) {
    && |hop| <= 1 && m == n + |hop|
    && (hop != [] ==> n < |Hops(g, tid)| && Hops(g, tid)[n] == hop[0])
  }

  lemma NextAttributeHop(g: TypeGraph, tid: TypeId, i: nat)
    requires i < |Attributes(g, tid)|
    ensures Next(g, tid, AttributeCount(g, tid, i), AttributeHop(g, Attributes(g, tid)[i]),
                 AttributeCount(g, tid, i + 1))
  {
    var attributes := Attributes(g, tid);
    assert attributes[..i + 1][..i] == attributes[..i];
    AttributeHopsPrefix(g, attributes, i + 1);
  }

  lemma NextChildHop(g: TypeGraph, tid: TypeId, i: nat)
    requires i < |g.registered|
    ensures Next(g, tid, ChildCount(g, tid, i), ChildHop(g, tid, g.registered[i]), ChildCount(g, tid, i + 1))
  {
    assert g.registered[..i + 1][..i] == g.registered[..i];
    ChildHopsPrefix(g, tid, g.registered, i + 1);
  }

  lemma NextBehind(before: seq<Hop>, part: seq<Hop>, all: seq<Hop>, hop: seq<Hop>)
    requires part + hop <= all
    ensures hop != [] ==> |before| + |part| < |before + all| && (before + all)[|before| + |part|] == hop[0]
  {
    if hop != [] {
      assert (part + hop)[|part|] == hop[0];
    }
  }

  lemma NextOfAggregates(tid: TypeId, pairs: seq<(TypeId, TypeId)>, i: nat)
    requires i < |pairs|
    ensures AggregateHops(tid, pairs[..i + 1]) == AggregateHops(tid, pairs[..i]) + AggregateHop(tid, pairs[i])
    ensures AggregateHops(tid, pairs[..i]) + AggregateHop(tid, pairs[i]) <= AggregateHops(tid, pairs)
  {
    assert pairs[..i + 1][..i] == pairs[..i];
    AggregateHopsPrefix(tid, pairs, i + 1);
  }

  lemma NextAggregateHop(g: TypeGraph, tid: TypeId, i: nat)
    requires i < |g.aggregates|
    ensures Next(g, tid, AggregateCount(g, tid, i), AggregateHop(tid, g.aggregates[i]), AggregateCount(g, tid, i + 1))
  {
    NextOfAggregates(tid, g.aggregates, i);
    NextBehind(AttributeHops(g, Attributes(g, tid)) + ChildHops(g, tid, g.registered),
               AggregateHops(tid, g.aggregates[..i]), AggregateHops(tid, g.aggregates),
               AggregateHop(tid, g.aggregates[i]));
  }

  lemma CountsMeet(g: TypeGraph, tid: TypeId)
    ensures AttributeCount(g, tid, 0) == 0
    ensures AttributeCount(g, tid, |Attributes(g, tid)|) == ChildCount(g, tid, 0)
    ensures ChildCount(g, tid, |g.registered|) == AggregateCount(g, tid, 0)
    ensures AggregateCount(g, tid, |g.aggregates|) == |Hops(g, tid)|
  {
    assert Attributes(g, tid)[..|Attributes(g, tid)|] == Attributes(g, tid);
    assert g.registered[..|g.registered|] == g.registered;
    assert g.aggregates[..|g.aggregates|] == g.aggregates;
  }

  // ----- What the walk records, following its recursion

  ghost function Entries(g: TypeGraph, path: seq<string>, seen: seq<TypeId>, tid: TypeId): seq<(TypeId, string)>
    requires WellFormed(g) && OnPath(g, seen) && tid in g.registered
    decreases Unseen(g, seen), |Hops(g, tid)| + 1
  {
    if tid in seen then [] else
      [(tid, Joined(path))] + EntriesAlong(g, path, seen, tid, |Hops(g, tid)|)
  }

  /** The entries below the first `n` hops of `tid`. */
  ghost function EntriesAlong(g: TypeGraph, path: seq<string>, seen: seq<TypeId>, tid: TypeId, n: nat)
    : seq<(TypeId, string)>
    requires WellFormed(g) && OnPath(g, seen) && tid in g.registered && tid !in seen && n <= |Hops(g, tid)|
    decreases Unseen(g, seen), n
  {
    if n == 0 then [] else
      var h := Hops(g, tid)[n - 1];
      SeenBound(g, seen + [tid]);
      EntriesAlong(g, path, seen, tid, n - 1) + Entries(g, path + [h.name], seen + [tid], h.target)
  }
}

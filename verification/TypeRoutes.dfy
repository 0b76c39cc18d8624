/** The entries of a walk are those of the simple routes, one for one. */
module TypeRoutes {
  import opened Common
  import opened TypeHops

  /** The type that a route of hop numbers leads to, when it can be followed. */
  ghost predicate IsRoute(g: TypeGraph, tid: TypeId, route: seq<nat>)
    decreases |route|
  {
    route == [] || (route[0] < |Hops(g, tid)| && IsRoute(g, Hops(g, tid)[route[0]].target, route[1..]))
  }

  /** The types met along a route, both ends included. */
  ghost function TypesAlong(g: TypeGraph, tid: TypeId, route: seq<nat>): (types: seq<TypeId>)
    requires IsRoute(g, tid, route)
    ensures |types| == |route| + 1 && types[0] == tid
    decreases |route|
  {
    if route == [] then [tid] else [tid] + TypesAlong(g, Hops(g, tid)[route[0]].target, route[1..])
  }

  ghost function LabelsAlong(g: TypeGraph, tid: TypeId, route: seq<nat>): seq<string>
    requires IsRoute(g, tid, route)
    decreases |route|
  {
    if route == [] then [] else
      var h := Hops(g, tid)[route[0]];
      [h.name] + LabelsAlong(g, h.target, route[1..])
  }

  /** A route that meets no type twice, nor any of those already on the path. */
  ghost predicate SimpleRoute(g: TypeGraph, seen: seq<TypeId>, tid: TypeId, route: seq<nat>) {
    IsRoute(g, tid, route) && Distinct(seen + TypesAlong(g, tid, route))
  }

  /** The entry for a route: the type at its end, and the path made of its labels. */
  ghost function EntryOf(g: TypeGraph, path: seq<string>, tid: TypeId, route: seq<nat>): (TypeId, string)
    requires IsRoute(g, tid, route)
  {
    var types := TypesAlong(g, tid, route);
    (types[|types| - 1], Joined(path + LabelsAlong(g, tid, route)))
  }

  ghost function Routes(g: TypeGraph, seen: seq<TypeId>, tid: TypeId): seq<seq<nat>>
    requires WellFormed(g) && OnPath(g, seen) && tid in g.registered
    decreases Unseen(g, seen), |Hops(g, tid)| + 1
  {
    if tid in seen then [] else [[]] + RoutesAlong(g, seen, tid, |Hops(g, tid)|)
  }

  ghost function RoutesAlong(g: TypeGraph, seen: seq<TypeId>, tid: TypeId, n: nat): seq<seq<nat>>
    requires WellFormed(g) && OnPath(g, seen) && tid in g.registered && tid !in seen && n <= |Hops(g, tid)|
    decreases Unseen(g, seen), n
  {
    if n == 0 then [] else
      SeenBound(g, seen + [tid]);
      RoutesAlong(g, seen, tid, n - 1) + Prefixed(n - 1, Routes(g, seen + [tid], Hops(g, tid)[n - 1].target))
  }

  ghost function Prefixed(k: nat, routes: seq<seq<nat>>): (longer: seq<seq<nat>>)
    ensures |longer| == |routes|
    ensures forall i :: 0 <= i < |routes| ==> longer[i] == [k] + routes[i]
  {
    seq(|routes|, i requires 0 <= i < |routes| => [k] + routes[i])
  }

  lemma SimpleRouteUnfolds(g: TypeGraph, seen: seq<TypeId>, tid: TypeId, route: seq<nat>)
    requires Distinct(seen)
    ensures SimpleRoute(g, seen, tid, route) <==>
      && tid !in seen
      && (route == [] ||
          (route[0] < |Hops(g, tid)| && SimpleRoute(g, seen + [tid], Hops(g, tid)[route[0]].target, route[1..])))
  {
    if IsRoute(g, tid, route) {
      var types := TypesAlong(g, tid, route);
      assert (seen + types)[|seen|] == tid;
      if route == [] {
        assert tid !in seen ==> Distinct(seen + types);
      } else {
        assert seen + types == seen + [tid] + TypesAlong(g, Hops(g, tid)[route[0]].target, route[1..]);
      }
      if Distinct(seen + types) {
        forall i | 0 <= i < |seen| ensures seen[i] != tid {
          assert (seen + types)[i] == seen[i];
        }
      }
    }
  }

  /** What an entry has to do with a route: it is the entry for it. */
  ghost function Records(g: TypeGraph, path: seq<string>, tid: TypeId): ((TypeId, string), seq<nat>) -> bool {
    (entry, route) => IsRoute(g, tid, route) && entry == EntryOf(g, path, tid, route)
  }

  /** The entries are those of the routes, one for one and in the same order. */
  ghost predicate EntriesMatch(g: TypeGraph, path: seq<string>, tid: TypeId,
                               entries: seq<(TypeId, string)>, routes: seq<seq<nat>>) {
    Pointwise(Records(g, path, tid), entries, routes)
  }

  lemma EmptyRoute(g: TypeGraph, path: seq<string>, tid: TypeId)
    ensures IsRoute(g, tid, []) && EntryOf(g, path, tid, []) == (tid, Joined(path))
  {
    assert path + [] == path;
  }

  lemma LongerRoute(g: TypeGraph, tid: TypeId, k: nat, route: seq<nat>)
    requires k < |Hops(g, tid)| && IsRoute(g, Hops(g, tid)[k].target, route)
    ensures var h := Hops(g, tid)[k];
      && IsRoute(g, tid, [k] + route)
      && TypesAlong(g, tid, [k] + route) == [tid] + TypesAlong(g, h.target, route)
      && LabelsAlong(g, tid, [k] + route) == [h.name] + LabelsAlong(g, h.target, route)
  {
    assert ([k] + route)[1..] == route;
  }

  lemma LongerEntry(g: TypeGraph, path: seq<string>, tid: TypeId, k: nat, route: seq<nat>)
    requires k < |Hops(g, tid)| && IsRoute(g, Hops(g, tid)[k].target, route)
    ensures IsRoute(g, tid, [k] + route)
    ensures EntryOf(g, path, tid, [k] + route)
         == EntryOf(g, path + [Hops(g, tid)[k].name], Hops(g, tid)[k].target, route)
  {
    LongerRoute(g, tid, k, route);
    AppendAssociates(path, [Hops(g, tid)[k].name], LabelsAlong(g, Hops(g, tid)[k].target, route));
  }

  lemma AppendAssociates<T>(a: seq<T>, b: seq<T>, c: seq<T>)
    ensures a + (b + c) == a + b + c
  {
  }

  lemma {:induction false} EntriesFollowRoutes(g: TypeGraph, path: seq<string>, seen: seq<TypeId>, tid: TypeId)
    requires WellFormed(g) && OnPath(g, seen) && tid in g.registered
    ensures EntriesMatch(g, path, tid, Entries(g, path, seen, tid), Routes(g, seen, tid))
    decreases Unseen(g, seen), |Hops(g, tid)| + 1
  {
    if tid !in seen {
      EntriesFollowRoutesAlong(g, path, seen, tid, |Hops(g, tid)|);
      EmptyRoute(g, path, tid);
      assert Records(g, path, tid)((tid, Joined(path)), []);
      PointwiseAppend(Records(g, path, tid), [(tid, Joined(path))], [[]],
                      EntriesAlong(g, path, seen, tid, |Hops(g, tid)|), RoutesAlong(g, seen, tid, |Hops(g, tid)|));
    }
  }

  lemma {:induction false} EntriesFollowRoutesAlong(g: TypeGraph, path: seq<string>, seen: seq<TypeId>,
                                                    tid: TypeId, n: nat)
    requires WellFormed(g) && OnPath(g, seen) && tid in g.registered && tid !in seen && n <= |Hops(g, tid)|
    ensures EntriesMatch(g, path, tid, EntriesAlong(g, path, seen, tid, n), RoutesAlong(g, seen, tid, n))
    decreases Unseen(g, seen), n
  {
    if n > 0 {
      var h := Hops(g, tid)[n - 1];
      SeenBound(g, seen + [tid]);
      EntriesFollowRoutesAlong(g, path, seen, tid, n - 1);
      EntriesFollowRoutes(g, path + [h.name], seen + [tid], h.target);
      NextEntriesMatch(g, path, seen, tid, n);
    }
  }

  lemma NextEntriesMatch(g: TypeGraph, path: seq<string>, seen: seq<TypeId>, tid: TypeId, n: nat)
    requires WellFormed(g) && OnPath(g, seen) && tid in g.registered && tid !in seen && 0 < n <= |Hops(g, tid)|
    requires OnPath(g, seen + [tid]) && Hops(g, tid)[n - 1].target in g.registered
    requires EntriesMatch(g, path, tid, EntriesAlong(g, path, seen, tid, n - 1), RoutesAlong(g, seen, tid, n - 1))
    requires var h := Hops(g, tid)[n - 1];
      EntriesMatch(g, path + [h.name], h.target, Entries(g, path + [h.name], seen + [tid], h.target),
                   Routes(g, seen + [tid], h.target))
    ensures EntriesMatch(g, path, tid, EntriesAlong(g, path, seen, tid, n), RoutesAlong(g, seen, tid, n))
  {
    var h := Hops(g, tid)[n - 1];
    var entries, routes := Entries(g, path + [h.name], seen + [tid], h.target), Routes(g, seen + [tid], h.target);
    PrefixedMatch(g, path, tid, n - 1, entries, routes);
    PointwiseAppend(Records(g, path, tid), EntriesAlong(g, path, seen, tid, n - 1),
                    RoutesAlong(g, seen, tid, n - 1), entries, Prefixed(n - 1, routes));
  }

  lemma PrefixedMatch(g: TypeGraph, path: seq<string>, tid: TypeId, k: nat,
                      entries: seq<(TypeId, string)>, routes: seq<seq<nat>>)
    requires k < |Hops(g, tid)|
    requires EntriesMatch(g, path + [Hops(g, tid)[k].name], Hops(g, tid)[k].target, entries, routes)
    ensures EntriesMatch(g, path, tid, entries, Prefixed(k, routes))
  {
    var h := Hops(g, tid)[k];
    forall i | 0 <= i < |routes| ensures Records(g, path, tid)(entries[i], Prefixed(k, routes)[i]) {
      assert Records(g, path + [h.name], h.target)(entries[i], routes[i]);
      LongerEntry(g, path, tid, k, routes[i]);
    }
  }

  /** The routes listed are exactly the simple ones. */
  lemma {:induction false} RoutesAreSimple(g: TypeGraph, seen: seq<TypeId>, tid: TypeId, route: seq<nat>)
    requires WellFormed(g) && OnPath(g, seen) && tid in g.registered
    ensures route in Routes(g, seen, tid) <==> SimpleRoute(g, seen, tid, route)
    decreases Unseen(g, seen), |Hops(g, tid)| + 1
  {
    SimpleRouteUnfolds(g, seen, tid, route);
    if tid !in seen {
      RoutesAlongAreSimple(g, seen, tid, |Hops(g, tid)|, route);
    }
  }

  lemma {:induction false} RoutesAlongAreSimple(g: TypeGraph, seen: seq<TypeId>, tid: TypeId, n: nat, route: seq<nat>)
    requires WellFormed(g) && OnPath(g, seen) && tid in g.registered && tid !in seen && n <= |Hops(g, tid)|
    ensures route in RoutesAlong(g, seen, tid, n) <==>
      route != [] && route[0] < n && SimpleRoute(g, seen + [tid], Hops(g, tid)[route[0]].target, route[1..])
    decreases Unseen(g, seen), n
  {
    if n > 0 {
      var rest := Routes(g, seen + [tid], Hops(g, tid)[n - 1].target);
      SeenBound(g, seen + [tid]);
      RoutesAlongAreSimple(g, seen, tid, n - 1, route);
      PrefixedMembers(n - 1, rest, route);
      if route != [] && route[0] == n - 1 {
        RoutesAreSimple(g, seen + [tid], Hops(g, tid)[n - 1].target, route[1..]);
      }
    }
  }

  lemma PrefixedMembers(k: nat, routes: seq<seq<nat>>, route: seq<nat>)
    ensures route in Prefixed(k, routes) <==> route != [] && route[0] == k && route[1..] in routes
  {
    var longer := Prefixed(k, routes);
    if route in longer {
      var i :| 0 <= i < |longer| && longer[i] == route;
      assert route[1..] == routes[i];
    }
    if route != [] && route[0] == k && route[1..] in routes {
      var i :| 0 <= i < |routes| && routes[i] == route[1..];
      assert longer[i] == route;
    }
  }

  lemma {:induction false} RoutesDistinct(g: TypeGraph, seen: seq<TypeId>, tid: TypeId)
    requires WellFormed(g) && OnPath(g, seen) && tid in g.registered
    ensures Distinct(Routes(g, seen, tid))
    decreases Unseen(g, seen), |Hops(g, tid)| + 1
  {
    if tid !in seen {
      var along := RoutesAlong(g, seen, tid, |Hops(g, tid)|);
      RoutesAlongDistinct(g, seen, tid, |Hops(g, tid)|);
      forall i | 0 <= i < |along| ensures along[i] != [] {
        RoutesAlongAreSimple(g, seen, tid, |Hops(g, tid)|, along[i]);
      }
    }
  }

  lemma {:induction false} RoutesAlongDistinct(g: TypeGraph, seen: seq<TypeId>, tid: TypeId, n: nat)
    requires WellFormed(g) && OnPath(g, seen) && tid in g.registered && tid !in seen && n <= |Hops(g, tid)|
    ensures Distinct(RoutesAlong(g, seen, tid, n))
    decreases Unseen(g, seen), n
  {
    if n > 0 {
      SeenBound(g, seen + [tid]);
      RoutesAlongDistinct(g, seen, tid, n - 1);
      RoutesDistinct(g, seen + [tid], Hops(g, tid)[n - 1].target);
      NextRoutesDistinct(g, seen, tid, n);
    }
  }

  lemma NextRoutesDistinct(g: TypeGraph, seen: seq<TypeId>, tid: TypeId, n: nat)
    requires WellFormed(g) && OnPath(g, seen) && tid in g.registered && tid !in seen && 0 < n <= |Hops(g, tid)|
    requires OnPath(g, seen + [tid]) && Hops(g, tid)[n - 1].target in g.registered
    requires Distinct(RoutesAlong(g, seen, tid, n - 1))
    requires Distinct(Routes(g, seen + [tid], Hops(g, tid)[n - 1].target))
    ensures Distinct(RoutesAlong(g, seen, tid, n))
  {
    var rest := Routes(g, seen + [tid], Hops(g, tid)[n - 1].target);
    PrefixedDistinct(n - 1, rest);
    RoutesAlongBelow(g, seen, tid, n - 1);
    ApartFromPrefixed(RoutesAlong(g, seen, tid, n - 1), n - 1, rest);
  }

  lemma RoutesAlongBelow(g: TypeGraph, seen: seq<TypeId>, tid: TypeId, n: nat)
    requires WellFormed(g) && OnPath(g, seen) && tid in g.registered && tid !in seen && n <= |Hops(g, tid)|
    ensures AllStartBelow(RoutesAlong(g, seen, tid, n), n)
  {
    var routes := RoutesAlong(g, seen, tid, n);
    forall i | 0 <= i < |routes| ensures routes[i] != [] && routes[i][0] < n {
      RoutesAlongAreSimple(g, seen, tid, n, routes[i]);
    }
  }

  predicate AllStartBelow(routes: seq<seq<nat>>, n: nat) {
    forall i :: 0 <= i < |routes| ==> routes[i] != [] && routes[i][0] < n
  }

  lemma ApartFromPrefixed(before: seq<seq<nat>>, k: nat, routes: seq<seq<nat>>)
    requires Distinct(before) && Distinct(Prefixed(k, routes))
    requires AllStartBelow(before, k)
    ensures Distinct(before + Prefixed(k, routes))
  {
  }

  lemma PrefixedDistinct(k: nat, routes: seq<seq<nat>>)
    requires Distinct(routes)
    ensures Distinct(Prefixed(k, routes))
  {
    var longer := Prefixed(k, routes);
    forall i, j | 0 <= i < j < |longer| ensures longer[i] != longer[j] {
      assert longer[i][1..] == routes[i] && longer[j][1..] == routes[j];
    }
  }

  /**
   Gathering from a root records exactly one entry for each simple path of
   hops that leaves it, namely the type at the end of the path and its labels.
   */
  lemma OneEntryPerSimplePath(g: TypeGraph, root: TypeId)
    requires WellFormed(g) && root in g.registered
    ensures var entries, routes := Entries(g, [], [], root), Routes(g, [], root);
      && EntriesMatch(g, [], root, entries, routes)
      && Distinct(routes)
      && forall route :: route in routes <==> SimpleRoute(g, [], root, route)
  {
    EntriesFollowRoutes(g, [], [], root);
    RoutesDistinct(g, [], root);
    forall route ensures route in Routes(g, [], root) <==> SimpleRoute(g, [], root, route) {
      RoutesAreSimple(g, [], root, route);
    }
  }
}

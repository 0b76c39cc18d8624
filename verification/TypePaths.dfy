/**
 What the recorded paths mean: a path of components is read from a root along
 the attributes and relations of the graph, and leads to the type recorded.
 */
module TypePaths {
  import opened Common
  import opened TypeHops
  import opened TypeRoutes

  // ----- One step, in terms of the graph

  /** `a` is an attribute of `tid` of the given name and kind. */
  predicate HasAttribute(g: TypeGraph, tid: TypeId, name: string, checker: Checker) {
    tid in g.attributes && Attribute(name, checker) in g.attributes[tid]
  }

  /** The type `next` is derived from `tid` or aggregated with it, on either side. */
  predicate Related(g: TypeGraph, tid: TypeId, next: TypeId) {
    || (next in g.registered && (next, tid) in g.childOf)
    || (next, tid) in g.aggregates
    || (tid, next) in g.aggregates
  }

  /** The label `name` leads from `tid` to `next`. */
  ghost predicate Leads(g: TypeGraph, tid: TypeId, name: string, next: TypeId) {
    || (HasAttribute(g, tid, name, Pointer(next)) && next != g.objectType)
    || (exists plain :: name == plain + "/[i]" && HasAttribute(g, tid, plain, Container(next)))
    || (Related(g, tid, next) && name == "$" + next)
  }

  lemma {:induction false} AttributeHopsExactly(g: TypeGraph, attributes: seq<Attribute>, h: Hop)
    ensures h in AttributeHops(g, attributes) <==> exists a :: a in attributes && h in AttributeHop(g, a)
  {
    if attributes != [] {
      var n := |attributes| - 1;
      AttributeHopsExactly(g, attributes[..n], h);
      assert attributes == attributes[..n] + [attributes[n]];
    }
  }

  lemma {:induction false} ChildHopsExactly(g: TypeGraph, tid: TypeId, types: seq<TypeId>, h: Hop)
    ensures h in ChildHops(g, tid, types) <==>
      h.target in types && (h.target, tid) in g.childOf && h.name == "$" + h.target
  {
    if types != [] {
      var n := |types| - 1;
      ChildHopsExactly(g, tid, types[..n], h);
      assert types == types[..n] + [types[n]];
    }
  }

  lemma {:induction false} AggregateHopsExactly(tid: TypeId, pairs: seq<(TypeId, TypeId)>, h: Hop)
    ensures h in AggregateHops(tid, pairs) <==>
      ((h.target, tid) in pairs || (tid, h.target) in pairs) && h.name == "$" + h.target
  {
    if pairs != [] {
      var n := |pairs| - 1;
      AggregateHopsExactly(tid, pairs[..n], h);
      assert pairs == pairs[..n] + [pairs[n]];
    }
  }

  lemma AttributeLeads(g: TypeGraph, tid: TypeId, h: Hop)
    ensures h in AttributeHops(g, Attributes(g, tid)) <==>
      || (HasAttribute(g, tid, h.name, Pointer(h.target)) && h.target != g.objectType)
      || (exists plain :: h.name == plain + "/[i]" && HasAttribute(g, tid, plain, Container(h.target)))
  {
    AttributeHopsExactly(g, Attributes(g, tid), h);
    if a :| a in Attributes(g, tid) && h in AttributeHop(g, a) {
      assert HasAttribute(g, tid, a.name, a.checker);
    }
    if HasAttribute(g, tid, h.name, Pointer(h.target)) && h.target != g.objectType {
      assert h in AttributeHop(g, Attribute(h.name, Pointer(h.target)));
    }
    if plain :| h.name == plain + "/[i]" && HasAttribute(g, tid, plain, Container(h.target)) {
      assert h in AttributeHop(g, Attribute(plain, Container(h.target)));
    }
  }

  /** The ways on from a type are exactly the labels that lead somewhere. */
  lemma HopsExactly(g: TypeGraph, tid: TypeId, h: Hop)
    ensures h in Hops(g, tid) <==> Leads(g, tid, h.name, h.target)
  {
    AttributeLeads(g, tid, h);
    ChildHopsExactly(g, tid, g.registered, h);
    AggregateHopsExactly(tid, g.aggregates, h);
  }

  // ----- Whole paths

  /** The components, each behind a slash. */
  function PathText(components: seq<string>): string {
    if components == [] then "" else "/" + components[0] + PathText(components[1..])
  }

  /**
   The components lead along the types: a name along a pointer attribute, unless
   it points to any object; a name and then `[i]` along a container attribute; `$`
   and a type to that type, which is derived from the last one or aggregated with it.
   */
  ghost predicate Resolves(g: TypeGraph, types: seq<TypeId>, components: seq<string>)
    decreases |components|
  {
    if components == [] then |types| == 1 else
      && |types| >= 2
      && (|| (&& HasAttribute(g, types[0], components[0], Pointer(types[1])) && types[1] != g.objectType
              && Resolves(g, types[1..], components[1..]))
          || (&& |components| >= 2 && components[1] == "[i]"
              && HasAttribute(g, types[0], components[0], Container(types[1]))
              && Resolves(g, types[1..], components[2..]))
          || (&& Related(g, types[0], types[1]) && components[0] == "$" + types[1]
              && Resolves(g, types[1..], components[1..])))
  }

  lemma {:induction false} JoinedAppend(a: seq<string>, b: seq<string>)
    ensures Joined(a + b) == Joined(a) + Joined(b)
  {
    if b == [] {
      assert a + b == a && Joined(a) + "" == Joined(a);
    } else {
      var n := |b| - 1;
      JoinedAppend(a, b[..n]);
      assert (a + b)[..|a| + n] == a + b[..n];
      ThreeParts(Joined(a), Joined(b[..n]), "/", b[n]);
    }
  }

  lemma ThreeParts(a: string, b: string, c: string, d: string)
    ensures a + b + c + d == a + (b + c + d)
  {
  }

  lemma JoinedFront(name: string, rest: seq<string>)
    ensures Joined([name] + rest) == "/" + name + Joined(rest)
  {
    JoinedAppend([name], rest);
    assert [name][..0] == [];
    assert Joined([name]) == "" + "/" + name;
  }

  lemma TextOfTwo(name: string, components: seq<string>)
    ensures PathText([name, "[i]"] + components) == "/" + (name + "/[i]") + PathText(components)
  {
    var all := [name, "[i]"] + components;
    assert all[1..] == ["[i]"] + components && all[1..][1..] == components;
    assert PathText(all[1..]) == "/" + "[i]" + PathText(components);
  }

  lemma TextOfOne(name: string, components: seq<string>)
    ensures PathText([name] + components) == "/" + name + PathText(components)
  {
    assert ([name] + components)[1..] == components;
  }

  lemma OneStepResolves(g: TypeGraph, types: seq<TypeId>, tid: TypeId, name: string, components: seq<string>)
    returns (longer: seq<string>)
    requires types != [] && Leads(g, tid, name, types[0]) && Resolves(g, types, components)
    ensures Resolves(g, [tid] + types, longer) && PathText(longer) == "/" + name + PathText(components)
  {
    assert ([tid] + types)[1..] == types;
    if plain :| name == plain + "/[i]" && HasAttribute(g, tid, plain, Container(types[0])) {
      longer := [plain, "[i]"] + components;
      assert longer[2..] == components;
      TextOfTwo(plain, components);
    } else {
      longer := [name] + components;
      assert longer[1..] == components;
      TextOfOne(name, components);
    }
  }

  /** A route reads as a path. */
  lemma {:induction false} RouteResolves(g: TypeGraph, tid: TypeId, route: seq<nat>) returns (components: seq<string>)
    requires IsRoute(g, tid, route)
    ensures Resolves(g, TypesAlong(g, tid, route), components)
    ensures PathText(components) == Joined(LabelsAlong(g, tid, route))
    decreases |route|
  {
    if route == [] {
      components := [];
    } else {
      var h := Hops(g, tid)[route[0]];
      var rest := RouteResolves(g, h.target, route[1..]);
      HopsExactly(g, tid, h);
      components := OneStepResolves(g, TypesAlong(g, h.target, route[1..]), tid, h.name, rest);
      JoinedFront(h.name, LabelsAlong(g, h.target, route[1..]));
    }
  }

  /** The first step of a path, and what is left of it. */
  lemma ResolvesFirst(g: TypeGraph, types: seq<TypeId>, components: seq<string>)
    returns (name: string, rest: seq<string>)
    requires components != [] && Resolves(g, types, components)
    ensures |types| >= 2 && Leads(g, types[0], name, types[1]) && Resolves(g, types[1..], rest)
    ensures PathText(components) == "/" + name + PathText(rest) && |rest| < |components|
  {
    if |components| >= 2 && components[1] == "[i]"
       && HasAttribute(g, types[0], components[0], Container(types[1])) && Resolves(g, types[1..], components[2..]) {
      name, rest := components[0] + "/[i]", components[2..];
      TextOfTwo(components[0], rest);
      assert components == [components[0], "[i]"] + rest;
    } else {
      name, rest := components[0], components[1..];
    }
  }

  /** A path that resolves is the reading of a route. */
  lemma {:induction false} ResolvedRoute(g: TypeGraph, types: seq<TypeId>, components: seq<string>)
    returns (route: seq<nat>)
    requires Resolves(g, types, components)
    ensures types != [] && IsRoute(g, types[0], route) && TypesAlong(g, types[0], route) == types
    ensures Joined(LabelsAlong(g, types[0], route)) == PathText(components)
    decreases |components|
  {
    if components == [] {
      route := [];
    } else {
      var name, rest := ResolvesFirst(g, types, components);
      var behind := ResolvedRoute(g, types[1..], rest);
      var h := Hop(name, types[1]);
      HopsExactly(g, types[0], h);
      var k := IndexOf(Hops(g, types[0]), h);
      route := [k] + behind;
      LongerRoute(g, types[0], k, behind);
      JoinedFront(name, LabelsAlong(g, types[1], behind));
    }
  }

  // ----- The entries

  /** The text is the path so far and a path that resolves from `tid` to `target` and meets no type twice. */
  ghost predicate Reads(g: TypeGraph, path: seq<string>, seen: seq<TypeId>, tid: TypeId, entry: (TypeId, string),
                        types: seq<TypeId>, components: seq<string>)
  {
    && types != [] && types[0] == tid && types[|types| - 1] == entry.0
    && Resolves(g, types, components) && Distinct(seen + types)
    && entry.1 == Joined(path) + PathText(components)
  }

  ghost predicate Readable(g: TypeGraph, path: seq<string>, seen: seq<TypeId>, tid: TypeId, entry: (TypeId, string)) {
    exists types, components :: Reads(g, path, seen, tid, entry, types, components)
  }

  lemma RouteReads(g: TypeGraph, path: seq<string>, seen: seq<TypeId>, tid: TypeId, route: seq<nat>)
    requires SimpleRoute(g, seen, tid, route)
    ensures Readable(g, path, seen, tid, EntryOf(g, path, tid, route))
  {
    var components := RouteResolves(g, tid, route);
    JoinedAppend(path, LabelsAlong(g, tid, route));
    assert Reads(g, path, seen, tid, EntryOf(g, path, tid, route), TypesAlong(g, tid, route), components);
  }

  lemma RecordedIsReadable(g: TypeGraph, path: seq<string>, seen: seq<TypeId>, tid: TypeId, k: nat)
    requires WellFormed(g) && OnPath(g, seen) && tid in g.registered && k < |Entries(g, path, seen, tid)|
    ensures Readable(g, path, seen, tid, Entries(g, path, seen, tid)[k])
  {
    var routes := Routes(g, seen, tid);
    EntriesFollowRoutes(g, path, seen, tid);
    assert Records(g, path, tid)(Entries(g, path, seen, tid)[k], routes[k]);
    RoutesAreSimple(g, seen, tid, routes[k]);
    RouteReads(g, path, seen, tid, routes[k]);
  }

  lemma ReadableIsRecorded(g: TypeGraph, path: seq<string>, seen: seq<TypeId>, tid: TypeId, entry: (TypeId, string),
                           types: seq<TypeId>, components: seq<string>)
    requires WellFormed(g) && OnPath(g, seen) && tid in g.registered
    requires Reads(g, path, seen, tid, entry, types, components)
    ensures entry in Entries(g, path, seen, tid)
  {
    var route := ResolvedRoute(g, types, components);
    RoutesAreSimple(g, seen, tid, route);
    EntriesFollowRoutes(g, path, seen, tid);
    var k := IndexOf(Routes(g, seen, tid), route);
    assert Records(g, path, tid)(Entries(g, path, seen, tid)[k], route);
    JoinedAppend(path, LabelsAlong(g, tid, route));
  }

  /** The entries of a walk are exactly those whose paths can be read from its root. */
  lemma EntriesExactly(g: TypeGraph, path: seq<string>, seen: seq<TypeId>, tid: TypeId, entry: (TypeId, string))
    requires WellFormed(g) && OnPath(g, seen) && tid in g.registered
    ensures entry in Entries(g, path, seen, tid) <==> Readable(g, path, seen, tid, entry)
  {
    if entry in Entries(g, path, seen, tid) {
      RecordedIsReadable(g, path, seen, tid, IndexOf(Entries(g, path, seen, tid), entry));
    }
    if types, components :| Reads(g, path, seen, tid, entry, types, components) {
      ReadableIsRecorded(g, path, seen, tid, entry, types, components);
    }
  }

  /** The path resolves from the root, along types of which none comes twice, to the target. */
  ghost predicate LeadsFrom(g: TypeGraph, root: TypeId, target: TypeId, path: string,
                            types: seq<TypeId>, components: seq<string>)
  {
    && types != [] && types[0] == root && types[|types| - 1] == target
    && Resolves(g, types, components) && Distinct(types) && path == PathText(components)
  }

  lemma ReadsFromRoot(g: TypeGraph, root: TypeId, target: TypeId, path: string,
                      types: seq<TypeId>, components: seq<string>)
    ensures Reads(g, [], [], root, (target, path), types, components)
        <==> LeadsFrom(g, root, target, path, types, components)
  {
    assert [] + types == types && Joined([]) + PathText(components) == PathText(components);
  }

  /** From a fresh start, a type is recorded with exactly the paths that lead to it from the root. */
  lemma PathsExactly(g: TypeGraph, root: TypeId, target: TypeId, path: string)
    requires WellFormed(g) && root in g.registered
    ensures (target, path) in Entries(g, [], [], root) <==>
      exists types, components :: LeadsFrom(g, root, target, path, types, components)
  {
    EntriesExactly(g, [], [], root, (target, path));
    forall types, components
      ensures Reads(g, [], [], root, (target, path), types, components)
          <==> LeadsFrom(g, root, target, path, types, components)
    {
      ReadsFromRoot(g, root, target, path, types, components);
    }
  }

  lemma DeviceListText()
    ensures PathText(["DeviceList", "[i]"]) == "/DeviceList/[i]"
  {
    assert ["DeviceList", "[i]"] + [] == ["DeviceList", "[i]"];
    TextOfTwo("DeviceList", []);
  }

  lemma DeviceListResolves(g: TypeGraph, node: TypeId, device: TypeId)
    requires HasAttribute(g, node, "DeviceList", Container(device))
    ensures Resolves(g, [node, device], ["DeviceList", "[i]"])
  {
    assert [node, device][1..] == [device];
    assert Resolves(g, [device], ["DeviceList", "[i]"][2..]);
  }

  /** A node with a container of devices: the path to them is `/DeviceList/[i]`. */
  lemma DeviceList(g: TypeGraph, node: TypeId, device: TypeId)
    requires WellFormed(g) && node in g.registered && node != device
    requires HasAttribute(g, node, "DeviceList", Container(device))
    ensures (device, "/DeviceList/[i]") in Entries(g, [], [], node)
  {
    DeviceListText();
    DeviceListResolves(g, node, device);
    PathsExactly(g, node, device, "/DeviceList/[i]");
    assert LeadsFrom(g, node, device, "/DeviceList/[i]", [node, device], ["DeviceList", "[i]"]);
  }
}

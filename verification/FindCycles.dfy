/**
 The stack-based enumeration of all the simple cycles of a graph.

 The Python generator keeps a stack of paths.  Each path popped is extended by
 every child of its last node; a child already on the path closes a cycle.
 */
module FindCycles {
  import opened Common
  import opened Digraph
  import opened Rotation

  ghost predicate Recorded<T>(cycles: seq<seq<T>>, c: seq<T>) {
    exists i :: 0 <= i < |cycles| && IsRotation(cycles[i], c)
  }

  /** Real simple cycles, no two of them the same up to rotation. */
  ghost predicate Sound<T>(g: map<T, seq<T>>, cycles: seq<seq<T>>) {
    && (forall i :: 0 <= i < |cycles| ==> SimpleCycle(g, cycles[i]))
    && (forall i, j :: 0 <= i < j < |cycles| ==> !IsRotation(cycles[i], cycles[j]))
  }

  /** Every cycle that the last node of `q` closes is recorded. */
  ghost predicate Closed<T>(g: map<T, seq<T>>, q: seq<T>, cycles: seq<seq<T>>)
    requires |q| > 0
  {
    forall c :: c in Children(g, Last(q)) && c in q ==> Recorded(cycles, q[IndexOf(q, c)..])
  }

  ghost predicate SimpleFrom<T>(g: map<T, seq<T>>, start: T, q: seq<T>) {
    SimplePath(g, q) && First(q) == start
  }

  ghost predicate Explored<T(!new)>(g: map<T, seq<T>>, start: T, cycles: seq<seq<T>>) {
    forall q: seq<T> :: SimpleFrom(g, start, q) ==> Closed(g, q, cycles)
  }

  lemma RecordedGrows<T>(cycles: seq<seq<T>>, more: seq<seq<T>>, c: seq<T>)
    requires cycles <= more && Recorded(cycles, c)
    ensures Recorded(more, c)
  {
    var i :| 0 <= i < |cycles| && IsRotation(cycles[i], c);
    assert more[i] == cycles[i];
  }

  lemma ClosedGrows<T>(g: map<T, seq<T>>, q: seq<T>, cycles: seq<seq<T>>, more: seq<seq<T>>)
    requires |q| > 0 && cycles <= more && Closed(g, q, cycles)
    ensures Closed(g, q, more)
  {
    forall c | c in Children(g, Last(q)) && c in q
      ensures Recorded(more, q[IndexOf(q, c)..])
    {
      RecordedGrows(cycles, more, q[IndexOf(q, c)..]);
    }
  }

  // ----- Termination: a path on the stack stands for a finite tree of simple paths

  /** The number of simple paths that extend `p`, itself included. */
  ghost function TreeSize<T>(g: map<T, seq<T>>, p: seq<T>): nat
    requires SimplePath(g, p) && First(p) in Nodes(g)
    decreases |Nodes(g)| - |p|, |Children(g, Last(p))| + 1
  {
    1 + BranchSizes(g, p, |Children(g, Last(p))|)
  }

  ghost function BranchSizes<T>(g: map<T, seq<T>>, p: seq<T>, n: nat): nat
    requires SimplePath(g, p) && First(p) in Nodes(g)
    requires n <= |Children(g, Last(p))|
    decreases |Nodes(g)| - |p|, n
  {
    if n == 0 then 0 else
      var c := Children(g, Last(p))[n - 1];
      BranchSizes(g, p, n - 1) +
      if c in p then 0 else
        PathBound(g, p + [c]);
        TreeSize(g, p + [c])
  }

  ghost predicate StackFrom<T>(g: map<T, seq<T>>, start: T, paths: seq<seq<T>>) {
    && start in Nodes(g)
    && forall i :: 0 <= i < |paths| ==> SimpleFrom(g, start, paths[i])
  }

  ghost function Work<T>(g: map<T, seq<T>>, start: T, paths: seq<seq<T>>): nat
    requires StackFrom(g, start, paths)
  {
    if paths == [] then 0 else
      Work(g, start, paths[..|paths| - 1]) + TreeSize(g, Last(paths))
  }

  // ----- The loops of the source, innermost first

  /** Whether a rotation of `cycle` has been recorded: the loop with `is_dup`. */
  method IsDuplicate<T(==)>(cycles: seq<seq<T>>, cycle: seq<T>) returns (isDup: bool)
    requires cycle != []
    ensures isDup <==> Recorded(cycles, cycle)
  {
    for i := 0 to |cycles|
      invariant forall k :: 0 <= k < i ==> !IsRotation(cycles[k], cycle)
    {
      var rotated := IsRotated(cycles[i], cycle);
      if rotated.value {
        return true;
      }
    }
    return false;
  }

  lemma CycleClosedByChild<T>(g: map<T, seq<T>>, path: seq<T>, child: T)
    requires SimplePath(g, path) && child in path && Edge(g, Last(path), child)
    ensures SimpleCycle(g, path[IndexOf(path, child)..])
  {
  }

  /** Appending a cycle that is not yet there keeps the record sound. */
  lemma AppendCycle<T>(g: map<T, seq<T>>, cycles: seq<seq<T>>, cycle: seq<T>)
    requires Sound(g, cycles) && SimpleCycle(g, cycle) && !Recorded(cycles, cycle)
    ensures Sound(g, cycles + [cycle]) && Recorded(cycles + [cycle], cycle)
  {
    RotationReflexive(cycle);
    assert IsRotation((cycles + [cycle])[|cycles|], cycle);
  }

  /** Pushing one path adds its tree to the work left. */
  lemma PushPath<T>(g: map<T, seq<T>>, start: T, paths: seq<seq<T>>, p: seq<T>)
    requires StackFrom(g, start, paths) && SimpleFrom(g, start, p)
    ensures StackFrom(g, start, paths + [p])
    ensures Work(g, start, paths + [p]) == Work(g, start, paths) + TreeSize(g, p)
  {
    assert (paths + [p])[..|paths|] == paths;
  }

  /** What the source does with a child that is already on the path. */
  method CloseCycle<T(==)>(g: map<T, seq<T>>, path: seq<T>, child: T, cycles0: seq<seq<T>>)
    returns (cycles: seq<seq<T>>)
    requires SimplePath(g, path) && child in path && Edge(g, Last(path), child)
    requires Sound(g, cycles0)
    ensures Sound(g, cycles) && cycles0 <= cycles
    ensures Recorded(cycles, path[IndexOf(path, child)..])
  {
    cycles := cycles0;
    var cycle := path[IndexOf(path, child)..];
    CycleClosedByChild(g, path, child);
    var isDup := IsDuplicate(cycles, cycle);
    if !isDup {
      AppendCycle(g, cycles, cycle);
      cycles := cycles + [cycle];
    }
  }

  /** The first `n` children of the end of `path` have been dealt with. */
  ghost predicate Branched<T>(g: map<T, seq<T>>, path: seq<T>, n: nat,
                              paths: seq<seq<T>>, cycles: seq<seq<T>>)
    requires |path| > 0
  {
    forall i :: 0 <= i < n && i < |Children(g, Last(path))| ==>
      var c := Children(g, Last(path))[i];
      if c in path then Recorded(cycles, path[IndexOf(path, c)..]) else path + [c] in paths
  }

  lemma BranchedGrows<T>(g: map<T, seq<T>>, path: seq<T>, n: nat,
                         paths0: seq<seq<T>>, cycles0: seq<seq<T>>, paths: seq<seq<T>>, cycles: seq<seq<T>>)
    requires |path| > 0 && Branched(g, path, n, paths0, cycles0)
    requires paths0 <= paths && cycles0 <= cycles
    ensures Branched(g, path, n, paths, cycles)
  {
    forall i | 0 <= i < n && i < |Children(g, Last(path))|
      ensures var c := Children(g, Last(path))[i];
        if c in path then Recorded(cycles, path[IndexOf(path, c)..]) else path + [c] in paths
    {
      var c := Children(g, Last(path))[i];
      if c in path {
        RecordedGrows(cycles0, cycles, path[IndexOf(path, c)..]);
      }
    }
  }

  /** The body of the `for child` loop: close a cycle, or push a longer path. */
  method ExpandChild<T(==, !new)>(g: map<T, seq<T>>, ghost start: T, path: seq<T>, i: nat,
                                  paths0: seq<seq<T>>, cycles0: seq<seq<T>>, visited0: set<T>)
    returns (paths: seq<seq<T>>, cycles: seq<seq<T>>, visited: set<T>)
    requires SimpleFrom(g, start, path) && StackFrom(g, start, paths0)
    requires i < |Children(g, Last(path))| && Branched(g, path, i, paths0, cycles0)
    requires Sound(g, cycles0)
    ensures StackFrom(g, start, paths) && paths0 <= paths
    ensures Sound(g, cycles) && cycles0 <= cycles
    ensures Branched(g, path, i + 1, paths, cycles)
    ensures Work(g, start, paths) - Work(g, start, paths0)
         == BranchSizes(g, path, i + 1) - BranchSizes(g, path, i)
    ensures forall v :: v in visited ==> v in visited0 || Reachable(g, start, v)
  {
    paths, cycles, visited := paths0, cycles0, visited0;
    var child := Children(g, Last(path))[i];
    if child in path {
      cycles := CloseCycle(g, path, child, cycles);
    } else {
      assert Connects(g, start, child, path + [child]);
      PushPath(g, start, paths, path + [child]);
      paths := paths + [path + [child]];
      assert paths[|paths| - 1] == path + [child];
      visited := visited + {child};
    }
    BranchedGrows(g, path, i, paths0, cycles0, paths, cycles);
  }

  /** The body of the `while paths` loop, for the path just popped. */
  method Expand<T(==, !new)>(g: map<T, seq<T>>, ghost start: T, path: seq<T>,
                             paths0: seq<seq<T>>, cycles0: seq<seq<T>>, visited0: set<T>)
    returns (paths: seq<seq<T>>, cycles: seq<seq<T>>, visited: set<T>)
    requires SimpleFrom(g, start, path) && StackFrom(g, start, paths0)
    requires Sound(g, cycles0)
    ensures StackFrom(g, start, paths) && paths0 <= paths
    ensures Work(g, start, paths) == Work(g, start, paths0) + TreeSize(g, path) - 1
    ensures Sound(g, cycles) && cycles0 <= cycles
    ensures Branched(g, path, |Children(g, Last(path))|, paths, cycles)
    ensures forall v :: v in visited ==> v in visited0 || Reachable(g, start, v)
  {
    paths, cycles, visited := paths0, cycles0, visited0;
    for i := 0 to |Children(g, Last(path))|
      invariant StackFrom(g, start, paths) && paths0 <= paths
      invariant Branched(g, path, i, paths, cycles)
      invariant Work(g, start, paths) == Work(g, start, paths0) + BranchSizes(g, path, i)
      invariant Sound(g, cycles) && cycles0 <= cycles
      invariant forall v :: v in visited ==> v in visited0 || Reachable(g, start, v)
    {
      paths, cycles, visited := ExpandChild(g, start, path, i, paths, cycles, visited);
    }
  }

  /** Still on the stack: some path there is a prefix of `q`. */
  ghost predicate Pending<T>(paths: seq<seq<T>>, q: seq<T>) {
    exists i :: 0 <= i < |paths| && paths[i] <= q
  }

  /** The paths below `path` stay pending when `path` gives way to its extensions. */
  lemma PendingAfterExpand<T(!new)>(g: map<T, seq<T>>, start: T, path: seq<T>, q: seq<T>,
                                    before: seq<seq<T>>, paths: seq<seq<T>>, cycles: seq<seq<T>>)
    requires SimpleFrom(g, start, path) && SimpleFrom(g, start, q)
    requires before <= paths && Pending(before + [path], q)
    requires Branched(g, path, |Children(g, Last(path))|, paths, cycles)
    ensures Closed(g, q, cycles) || Pending(paths, q)
  {
    var i :| 0 <= i < |before + [path]| && (before + [path])[i] <= q;
    if i < |before| {
      assert paths[i] == before[i];
    } else if q != path {
      var c := q[|path|];
      assert Edge(g, q[|path| - 1], c);
      assert q[|path| - 1] == Last(path);
      assert c !in path;
      var k :| 0 <= k < |Children(g, Last(path))| && Children(g, Last(path))[k] == c;
      assert path + [c] in paths;
      var j :| 0 <= j < |paths| && paths[j] == path + [c];
      assert paths[j] <= q;
    }
  }

  /** All the simple paths from one start node. */
  method Explore<T(==, !new)>(g: map<T, seq<T>>, start: T, cycles0: seq<seq<T>>, visited0: set<T>)
    returns (cycles: seq<seq<T>>, visited: set<T>)
    requires start in Nodes(g) && Sound(g, cycles0)
    ensures Sound(g, cycles) && cycles0 <= cycles
    ensures Explored(g, start, cycles)
    ensures forall v :: v in visited ==> v in visited0 || Reachable(g, start, v)
  {
    var paths := [[start]];
    cycles, visited := cycles0, visited0;
    forall q: seq<T> | SimpleFrom(g, start, q) ensures Pending(paths, q) {
      assert paths[0] <= q;
    }
    while paths != []
      invariant StackFrom(g, start, paths)
      invariant Sound(g, cycles) && cycles0 <= cycles
      invariant forall q: seq<T> :: SimpleFrom(g, start, q) ==> Closed(g, q, cycles) || Pending(paths, q)
      invariant forall v :: v in visited ==> v in visited0 || Reachable(g, start, v)
      decreases Work(g, start, paths)
    {
      var path, rest := Last(paths), paths[..|paths| - 1];
      ghost var before := cycles;
      assert paths == rest + [path];
      paths, cycles, visited := Expand(g, start, path, rest, cycles, visited);
      forall q: seq<T> | SimpleFrom(g, start, q) ensures Closed(g, q, cycles) || Pending(paths, q) {
        if Closed(g, q, before) {
          ClosedGrows(g, q, before, cycles);
        } else {
          PendingAfterExpand(g, start, path, q, rest, paths, cycles);
        }
      }
    }
  }

  // ----- Completeness

  ghost predicate TouchesFirstAtEnd<T>(p: seq<T>, c: seq<T>) {
    |p| > 0 && Last(p) in c && forall i :: 0 <= i < |p| - 1 ==> p[i] !in c
  }

  /** A simple path towards a cycle, cut where it first meets the cycle. */
  lemma {:induction false} FirstTouch<T>(g: map<T, seq<T>>, p: seq<T>, c: seq<T>) returns (q: seq<T>)
    requires SimplePath(g, p) && Last(p) in c
    ensures SimplePath(g, q) && First(q) == First(p) && TouchesFirstAtEnd(q, c)
  {
    if i :| 0 <= i < |p| - 1 && p[i] in c {
      q := FirstTouch(g, p[..i + 1], c);
    } else {
      q := p;
    }
  }

  lemma RotatedCycle<T>(g: map<T, seq<T>>, c: seq<T>, k: nat)
    requires SimpleCycle(g, c) && k < |c|
    ensures SimpleCycle(g, RotateBy(c, k))
  {
    var r := RotateBy(c, k);
    forall i | 0 < i < |r| ensures Edge(g, r[i - 1], r[i]) {
      if i < |c| - k {
        assert r[i] == c[k + i] && r[i - 1] == c[k + i - 1];
      } else if i == |c| - k {
        assert r[i] == First(c) && r[i - 1] == Last(c);
      } else {
        var m := i - (|c| - k);
        assert r[i] == c[m] && r[i - 1] == c[m - 1];
      }
    }
    if k > 0 {
      assert Edge(g, c[k - 1], c[k]);
    }
  }

  /** A path that meets a cycle only at its end can be walked on around the cycle. */
  lemma CycleAfterPath<T>(g: map<T, seq<T>>, q: seq<T>, r: seq<T>)
    requires SimplePath(g, q) && SimpleCycle(g, r)
    requires TouchesFirstAtEnd(q, r) && Last(q) == First(r)
    ensures var path := q + r[1..];
      && SimplePath(g, path) && First(path) == First(q)
      && First(r) in path && Edge(g, Last(path), First(r))
      && path[IndexOf(path, First(r))..] == r
  {
    var path := q + r[1..];
    forall i | 0 < i < |path| ensures Edge(g, path[i - 1], path[i]) {
      if i >= |q| {
        assert path[i] == r[i - |q| + 1] && path[i - 1] == r[i - |q|];
      }
    }
    forall i, j | 0 <= i < j < |path| ensures path[i] != path[j] {
      if j >= |q| {
        assert path[j] == r[j - |q| + 1];
        if i >= |q| - 1 {
          assert path[i] == r[i - |q| + 1];
        }
      }
    }
    assert path[|q| - 1] == First(r);
    assert path[|q| - 1..] == r;
  }

  /** Any cycle within reach of a fully explored node is recorded. */
  lemma ReachedCycleIsRecorded<T(!new)>(g: map<T, seq<T>>, start: T, c: seq<T>, cycles: seq<seq<T>>)
    requires Explored(g, start, cycles)
    requires SimpleCycle(g, c) && Reachable(g, start, First(c))
    ensures Recorded(cycles, c)
  {
    var w :| Connects(g, start, First(c), w);
    var p := WalkToSimplePath(g, w);
    var q := FirstTouch(g, p, c);
    TouchedCycleIsRecorded(g, start, c, q, cycles);
  }

  lemma RotationIsRecorded<T>(cycles: seq<seq<T>>, c: seq<T>, r: seq<T>)
    requires IsRotation(c, r) && Recorded(cycles, r)
    ensures Recorded(cycles, c)
  {
    var i :| 0 <= i < |cycles| && IsRotation(cycles[i], r);
    RotationSymmetric(c, r);
    RotationTransitive(cycles[i], r, c);
  }

  lemma TouchedCycleIsRecorded<T(!new)>(g: map<T, seq<T>>, start: T, c: seq<T>, q: seq<T>, cycles: seq<seq<T>>)
    requires Explored(g, start, cycles) && SimpleCycle(g, c)
    requires SimpleFrom(g, start, q) && TouchesFirstAtEnd(q, c)
    ensures Recorded(cycles, c)
  {
    var k :| 0 <= k < |c| && c[k] == Last(q);
    var r := RotateBy(c, k);
    RotatedCycle(g, c, k);
    assert TouchesFirstAtEnd(q, r) by {
      assert forall x :: x in r ==> x in c;
      assert r[0] == Last(q);
    }
    CycleAfterPath(g, q, r);
    ExploredCycle(g, start, q + r[1..], cycles, First(r));
    assert IsRotation(c, r);
    RotationIsRecorded(cycles, c, r);
  }

  lemma ExploredCycle<T(!new)>(g: map<T, seq<T>>, start: T, path: seq<T>, cycles: seq<seq<T>>, x: T)
    requires Explored(g, start, cycles) && SimpleFrom(g, start, path)
    requires x in path && Edge(g, Last(path), x)
    ensures Recorded(cycles, path[IndexOf(path, x)..])
  {
    assert Closed(g, path, cycles);
  }

  /** Each key seen so far can be reached from a start node that was explored. */
  ghost predicate Covered<T(!new)>(g: map<T, seq<T>>, cycles: seq<seq<T>>, v: T) {
    exists s :: Explored(g, s, cycles) && Reachable(g, s, v)
  }

  lemma CoveredGrows<T(!new)>(g: map<T, seq<T>>, cycles: seq<seq<T>>, more: seq<seq<T>>, v: T)
    requires Covered(g, cycles, v) && cycles <= more
    ensures Covered(g, more, v)
  {
    var s :| Explored(g, s, cycles) && Reachable(g, s, v);
    forall q: seq<T> | SimpleFrom(g, s, q) ensures Closed(g, q, more) {
      ClosedGrows(g, q, cycles, more);
    }
  }

  /**
   All the simple cycles of the graph, each exactly once up to rotation, for
   any order in which the keys of the dictionary are met.
   */
  method FindCycles<T(==, !new)>(g: map<T, seq<T>>) returns (cycles: seq<seq<T>>)
    ensures forall i :: 0 <= i < |cycles| ==> SimpleCycle(g, cycles[i])
    ensures forall c: seq<T> :: SimpleCycle(g, c) ==> exists i :: 0 <= i < |cycles| && IsRotation(cycles[i], c)
    ensures forall i, j :: 0 <= i < |cycles| && 0 <= j < |cycles| && i != j ==> !IsRotation(cycles[i], cycles[j])
  {
    cycles := [];
    var visited: set<T> := {};
    var keys := g.Keys;
    while keys != {}
      invariant keys <= g.Keys
      invariant Sound(g, cycles)
      invariant forall v :: v in g.Keys - keys || v in visited ==> Covered(g, cycles, v)
      decreases keys
    {
      var parent :| parent in keys;
      keys := keys - {parent};
      if parent in visited {
        continue;
      }
      ghost var before, seen := cycles, visited;
      cycles, visited := Explore(g, parent, cycles, visited);
      assert Connects(g, parent, parent, [parent]);
      forall v | v in g.Keys - keys || v in visited ensures Covered(g, cycles, v) {
        if v != parent && !Reachable(g, parent, v) {
          CoveredGrows(g, before, cycles, v);
        }
      }
    }
    forall c: seq<T> | SimpleCycle(g, c) ensures Recorded(cycles, c) {
      assert First(c) in g.Keys by {
        if |c| > 1 {
          assert Edge(g, c[0], c[1]);
        }
      }
      assert Covered(g, cycles, First(c));
      var s :| Explored(g, s, cycles) && Reachable(g, s, First(c));
      ReachedCycleIsRecorded(g, s, c, cycles);
    }
    forall i, j | 0 <= i < |cycles| && 0 <= j < |cycles| && i != j
      ensures !IsRotation(cycles[i], cycles[j])
    {
      if j < i && IsRotation(cycles[i], cycles[j]) {
        RotationSymmetric(cycles[i], cycles[j]);
      }
    }
  }
}

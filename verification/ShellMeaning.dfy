/** What running a pipeline means: segments of piped commands, tied by `&&` and `||`. */
module ShellMeaning {
  import opened Common
  import opened ShellSyntax

  /** The exit status of the process started for the node at a position. */
  type Status = nat -> int

  /** A script ends with a command, right behind an operator, or at a `cd` that cannot be carried out. */
  datatype Ending = Whole | CutShort | BadChdir

  /**
   A pipeline without its changes of directory.  A segment lists the positions of
   its commands.
   */
  datatype Script =
    | Last(segment: seq<nat>, ending: Ending)
    | Chain(segment: seq<nat>, op: Node, rest: Script)

  /** The script of the nodes from position `i` on, in the middle of a segment. */
  function ScriptFrom(nodes: seq<Node>, i: nat, segment: seq<nat>): Script
    requires Alternating(nodes) && i <= |nodes| && i % 2 == 0
    decreases |nodes| - i
  {
    AlternatingShape(nodes);
    if i == |nodes| then Last(segment, CutShort)
    else if nodes[i].Chdir? then
      if i + 1 == |nodes| || nodes[i].dir.None? then Last(segment, BadChdir)
      else ScriptFrom(nodes, i + 2, segment)
    else if i + 1 == |nodes| then Last(segment + [i], Whole)
    else if nodes[i + 1].Pipe? then ScriptFrom(nodes, i + 2, segment + [i])
    else Chain(segment + [i], nodes[i + 1], ScriptFrom(nodes, i + 2, []))
  }

  /** A script whose segments, but for a broken last one, hold at least one command. */
  predicate Solid(s: Script) {
    match s
    case Last(segment, ending) => ending == Whole ==> segment != []
    case Chain(segment, op, rest) => segment != [] && (op == And || op == Or) && Solid(rest)
  }

  /** The status of a segment is the status of its last command. */
  function SegmentStatus(segment: seq<nat>, status: Status): int
    requires segment != []
  {
    status(segment[|segment| - 1])
  }

  predicate Proceeds(op: Node, v: int) {
    if op == And then v == 0 else v != 0
  }

  /** A run returns a status, or comes to the end of the nodes and returns none, or raises an exception. */
  datatype Outcome = Returned(value: int) | ReturnedNothing | Raised

  /** The value of a script: the operators group to the right. */
  function Value(s: Script, status: Status): Outcome
    requires Solid(s)
  {
    match s
    case Last(segment, Whole) => Returned(SegmentStatus(segment, status))
    case Last(_, CutShort) => ReturnedNothing
    case Last(_, BadChdir) => Raised
    case Chain(segment, op, rest) =>
      var v := SegmentStatus(segment, status);
      if Proceeds(op, v) then Value(rest, status) else Returned(v)
  }

  /** The commands that are started, in order. */
  function Started(s: Script, status: Status): seq<nat>
    requires Solid(s)
  {
    match s
    case Last(segment, _) => segment
    case Chain(segment, op, rest) =>
      segment + if Proceeds(op, SegmentStatus(segment, status)) then Started(rest, status) else []
  }

  lemma {:induction false} ScriptIsSolid(nodes: seq<Node>, i: nat, segment: seq<nat>)
    requires Alternating(nodes) && i <= |nodes| && i % 2 == 0
    ensures Solid(ScriptFrom(nodes, i, segment))
    decreases |nodes| - i
  {
    AlternatingShape(nodes);
    if i + 1 < |nodes| && !(nodes[i].Chdir? && nodes[i].dir.None?) {
      if nodes[i].Chdir? {
        ScriptIsSolid(nodes, i + 2, segment);
      } else if nodes[i + 1].Pipe? {
        ScriptIsSolid(nodes, i + 2, segment + [i]);
      } else {
        ScriptIsSolid(nodes, i + 2, []);
      }
    }
  }

  // ----- When a pipeline can be run to its end whatever its commands return

  predicate Complete(s: Script) {
    match s
    case Last(_, ending) => ending == Whole
    case Chain(_, _, rest) => Complete(rest)
  }

  predicate RunnableFrom(nodes: seq<Node>, i: nat) {
    forall j :: i <= j < |nodes| && nodes[j].Chdir? ==> nodes[j].dir.Some? && j + 1 < |nodes|
  }

  /** Every `cd` is given a directory and is followed by a command. */
  predicate Runnable(nodes: seq<Node>) {
    RunnableFrom(nodes, 0)
  }

  lemma RunnableApart(nodes: seq<Node>, i: nat)
    requires i + 1 < |nodes| && (nodes[i].Chdir? ==> nodes[i].dir.Some?) && !nodes[i + 1].Chdir?
    ensures RunnableFrom(nodes, i) <==> RunnableFrom(nodes, i + 2)
  {
  }

  lemma RunnableBehind(nodes: seq<Node>, i: nat)
    requires Alternating(nodes) && i + 1 < |nodes| && i % 2 == 0 && !(nodes[i].Chdir? && nodes[i].dir.None?)
    ensures RunnableFrom(nodes, i) <==> RunnableFrom(nodes, i + 2)
  {
    AlternatingAt(nodes, i + 1);
    RunnableApart(nodes, i);
  }

  lemma {:induction false} RunnableIsComplete(nodes: seq<Node>, i: nat, segment: seq<nat>)
    requires Alternating(nodes) && i <= |nodes| && i % 2 == 0
    ensures Complete(ScriptFrom(nodes, i, segment)) <==> |nodes| % 2 == 1 && RunnableFrom(nodes, i)
    decreases |nodes| - i
  {
    AlternatingShape(nodes);
    if i + 1 < |nodes| && !(nodes[i].Chdir? && nodes[i].dir.None?) {
      RunnableBehind(nodes, i);
      if nodes[i].Chdir? {
        RunnableIsComplete(nodes, i + 2, segment);
      } else if nodes[i + 1].Pipe? {
        RunnableIsComplete(nodes, i + 2, segment + [i]);
      } else {
        RunnableIsComplete(nodes, i + 2, []);
      }
    }
  }

  /** Statuses with which every operator lets the run go on. */
  function GoingOn(nodes: seq<Node>): Status {
    (i: nat) => if After(nodes, i) == Some(Or) then 1 else 0
  }

  lemma {:induction false} GoesOn(nodes: seq<Node>, i: nat, segment: seq<nat>)
    requires Alternating(nodes) && i <= |nodes| && i % 2 == 0
    ensures Solid(ScriptFrom(nodes, i, segment))
    ensures Value(ScriptFrom(nodes, i, segment), GoingOn(nodes)).Returned? <==> Complete(ScriptFrom(nodes, i, segment))
    decreases |nodes| - i
  {
    AlternatingShape(nodes);
    ScriptIsSolid(nodes, i, segment);
    if i + 1 < |nodes| && !(nodes[i].Chdir? && nodes[i].dir.None?) {
      if nodes[i].Chdir? {
        GoesOn(nodes, i + 2, segment);
      } else if nodes[i + 1].Pipe? {
        GoesOn(nodes, i + 2, segment + [i]);
      } else {
        GoesOn(nodes, i + 2, []);
      }
    }
  }

  lemma {:induction false} CompleteHasValue(s: Script, status: Status)
    requires Solid(s) && Complete(s)
    ensures Value(s, status).Returned?
  {
    if s.Chain? {
      CompleteHasValue(s.rest, status);
    }
  }

  ghost function ScriptOf(nodes: seq<Node>): (s: Script)
    requires Alternating(nodes)
    ensures Solid(s)
  {
    ScriptIsSolid(nodes, 0, []);
    ScriptFrom(nodes, 0, [])
  }

  /**
   A run ends with a status, whatever its commands return, exactly when the
   command line was accepted, every `cd` has a directory and none is last.
   */
  lemma RunsToTheEndExactly(nodes: seq<Node>)
    requires Alternating(nodes)
    ensures (forall status: Status :: Value(ScriptOf(nodes), status).Returned?)
        <==> WellFormed(nodes) && Runnable(nodes)
  {
    AlternatingExactly(nodes);
    RunnableIsComplete(nodes, 0, []);
    GoesOn(nodes, 0, []);
    if WellFormed(nodes) && Runnable(nodes) {
      forall status: Status ensures Value(ScriptOf(nodes), status).Returned? {
        CompleteHasValue(ScriptOf(nodes), status);
      }
    } else {
      assert !Value(ScriptOf(nodes), GoingOn(nodes)).Returned?;
    }
  }

  // ----- A command line for which it fails

  /** The words `cd d` are accepted, and their run never ends with a status. */
  lemma TrailingChdir(status: Status)
    ensures var nodes := [Chdir(Some("d"))];
      Parse(["cd", "d"]) == Some(nodes) && Alternating(nodes) && Value(ScriptOf(nodes), status) == Raised
  {
    var nodes := [Chdir(Some("d"))];
    assert ["cd"] + ["d"] == ["cd", "d"] && "d" != "&&";
    ChdirRead([], Some("d"));
    assert [] + nodes == nodes;
    assert UnitOk(nodes[0], None);
  }
}

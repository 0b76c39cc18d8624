/**
 The run groups `&&` and `||` to the right and leaves every `cd` out of the
 grouping; the POSIX shell groups them to the left, a `cd` like any command.
 */
module ShellGrouping {
  import opened Common
  import opened ShellSyntax
  import opened ShellMeaning

  /** The operators of a list, as opposed to those of a pipe. */
  predicate Chaining(n: Node) {
    n.And? || n.Or?
  }

  /** A `cd` is a command that succeeds. */
  function UnitStatus(nodes: seq<Node>, i: nat, status: Status): int
    requires i < |nodes|
  {
    if nodes[i].Chdir? then 0 else status(i)
  }

  /** The value of the list so far and the operator behind it, or nothing at the beginning. */
  type Lead = Option<(int, Node)>

  predicate Runs(lead: Lead) {
    lead.Some? ==> Proceeds(lead.value.1, lead.value.0)
  }

  predicate UnitAt(nodes: seq<Node>, i: nat) {
    i < |nodes| && i % 2 == 0 && |nodes| % 2 == 1
  }

  /**
   The value of a list from position `i` on, with operators that have equal
   precedence and group to the left (section 2.9.3 of the POSIX.1-2017 Shell
   Command Language); a pipe has the status of its last command (section 2.9.2).
   */
  function LeftFrom(nodes: seq<Node>, i: nat, lead: Lead, status: Status): int
    requires UnitAt(nodes, i)
    decreases |nodes| - i
  {
    if i + 1 < |nodes| && nodes[i + 1].Pipe? then LeftFrom(nodes, i + 2, lead, status)
    else
      var v := if Runs(lead) then UnitStatus(nodes, i, status) else lead.value.0;
      if i + 1 == |nodes| then v else LeftFrom(nodes, i + 2, Some((v, nodes[i + 1])), status)
  }

  function LeftValue(nodes: seq<Node>, status: Status): int
    requires UnitAt(nodes, 0)
  {
    LeftFrom(nodes, 0, None, status)
  }

  /** From the first `&&` or `||` behind a command on, there is only one kind of them. */
  predicate Uniform(nodes: seq<Node>) {
    forall j, k :: 0 < j < k < |nodes| && nodes[j - 1].Command? && Chaining(nodes[j]) && Chaining(nodes[k]) ==>
      nodes[k] == nodes[j]
  }

  /** A unit of an accepted line whose every `cd` has a directory and is not last. */
  predicate Ready(nodes: seq<Node>, i: nat) {
    Alternating(nodes) && Runnable(nodes) && UnitAt(nodes, i)
  }

  /** What can stand at a unit and behind it. */
  lemma ReadyShape(nodes: seq<Node>, i: nat)
    requires Ready(nodes, i)
    ensures nodes[i].Command? || (nodes[i].Chdir? && nodes[i].dir.Some?)
    ensures i + 1 < |nodes| ==> Ready(nodes, i + 2) && (nodes[i + 1].Pipe? || Chaining(nodes[i + 1]))
    ensures nodes[i].Chdir? ==> i + 1 < |nodes| && nodes[i + 1] == And
  {
    AlternatingShape(nodes);
    AlternatingAt(nodes, i);
  }

  // ----- One kind of operator

  predicate OnlyBehind(nodes: seq<Node>, i: nat, op: Node) {
    forall k :: i < k < |nodes| && Chaining(nodes[k]) ==> nodes[k] == op
  }

  lemma {:induction false} SkipsToTheEnd(nodes: seq<Node>, i: nat, v: int, op: Node, status: Status)
    requires Ready(nodes, i) && OnlyBehind(nodes, i, op) && !Proceeds(op, v)
    ensures LeftFrom(nodes, i, Some((v, op)), status) == v
    decreases |nodes| - i
  {
    ReadyShape(nodes, i);
    if i + 1 < |nodes| {
      SkipsToTheEnd(nodes, i + 2, v, op, status);
    }
  }

  lemma {:induction false} UniformAgreesFrom(nodes: seq<Node>, i: nat, segment: seq<nat>, lead: Lead, status: Status)
    requires Ready(nodes, i) && Uniform(nodes) && Runs(lead)
    ensures Solid(ScriptFrom(nodes, i, segment))
    ensures Value(ScriptFrom(nodes, i, segment), status) == Returned(LeftFrom(nodes, i, lead, status))
    decreases |nodes| - i
  {
    ReadyShape(nodes, i);
    ScriptIsSolid(nodes, i, segment);
    if nodes[i].Chdir? {
      UniformAgreesFrom(nodes, i + 2, segment, Some((0, And)), status);
    } else if i + 1 < |nodes| {
      var op, v := nodes[i + 1], status(i);
      if op.Pipe? {
        UniformAgreesFrom(nodes, i + 2, segment + [i], lead, status);
      } else if Proceeds(op, v) {
        UniformAgreesFrom(nodes, i + 2, [], Some((v, op)), status);
      } else {
        assert OnlyBehind(nodes, i + 2, op);
        SkipsToTheEnd(nodes, i + 2, v, op, status);
      }
    }
  }

  lemma UniformAgrees(nodes: seq<Node>, status: Status)
    requires WellFormed(nodes) && Runnable(nodes) && Uniform(nodes)
    ensures Alternating(nodes) && UnitAt(nodes, 0)
    ensures Value(ScriptOf(nodes), status) == Returned(LeftValue(nodes, status))
  {
    AlternatingExactly(nodes);
    UniformAgreesFrom(nodes, 0, [], None, status);
  }

  // ----- Both kinds of operator

  /** Whether the value is `x` already or the next unit is run. */
  predicate LeadsTo(lead: Lead, x: int) {
    Runs(lead) || lead.value.0 == x
  }

  /** When all commands from here on return `x`, so does the list, for a `cd` is never last. */
  lemma {:induction false} StaysAt(nodes: seq<Node>, i: nat, lead: Lead, x: int, status: Status)
    requires Ready(nodes, i) && LeadsTo(lead, x) && (x == 0 || x == 1)
    requires forall p: nat :: p >= i ==> status(p) == x
    ensures LeftFrom(nodes, i, lead, status) == x
    decreases |nodes| - i
  {
    ReadyShape(nodes, i);
    if i + 1 < |nodes| {
      if nodes[i + 1].Pipe? {
        StaysAt(nodes, i + 2, lead, x, status);
      } else {
        var v := if Runs(lead) then UnitStatus(nodes, i, status) else lead.value.0;
        StaysAt(nodes, i + 2, Some((v, nodes[i + 1])), x, status);
      }
    }
  }

  /** A list that is held up at `op` goes on at the first operator of the other kind. */
  lemma {:induction false} Resumes(nodes: seq<Node>, i: nat, v: int, op: Node, x: int, status: Status)
    requires Ready(nodes, i) && Chaining(op) && !OnlyBehind(nodes, i, op)
    requires !Proceeds(op, v) && (x == 0 || x == 1)
    requires forall p: nat :: p >= i ==> status(p) == x
    ensures LeftFrom(nodes, i, Some((v, op)), status) == x
    decreases |nodes| - i
  {
    ReadyShape(nodes, i);
    AlternatingShape(nodes);
    var k :| i < k < |nodes| && Chaining(nodes[k]) && nodes[k] != op;
    assert nodes[i].Command? || nodes[i].Chdir?;
    var next := nodes[i + 1];
    if next.Pipe? || next == op {
      assert k != i + 1;
      Resumes(nodes, i + 2, v, op, x, status);
    } else {
      StaysAt(nodes, i + 2, Some((v, next)), x, status);
    }
  }

  /** Statuses with which the list goes on up to `last`, is held up behind it, and would go on later. */
  function HeldUp(nodes: seq<Node>, last: nat, v: int): Status {
    (p: nat) => if p < last then GoingOn(nodes)(p) else if p == last then v else 1 - v
  }

  lemma HeldUpGoesOn(nodes: seq<Node>, last: nat, v: int, i: nat)
    requires i < last && i + 1 < |nodes| && Chaining(nodes[i + 1])
    ensures Proceeds(nodes[i + 1], HeldUp(nodes, last, v)(i))
  {
    assert After(nodes, i) == Some(nodes[i + 1]);
    assert HeldUp(nodes, last, v)(i) == GoingOn(nodes)(i);
  }

  /** The command at `last` is followed by an operator, and that by one of the other kind. */
  predicate MixedBehind(nodes: seq<Node>, last: nat) {
    && Ready(nodes, last) && last + 1 < |nodes|
    && nodes[last].Command? && Chaining(nodes[last + 1])
    && !OnlyBehind(nodes, last + 2, nodes[last + 1])
  }

  lemma {:induction false} MixedDiffersFrom(nodes: seq<Node>, i: nat, segment: seq<nat>, lead: Lead, last: nat, v: int)
    requires Ready(nodes, i) && Runs(lead) && MixedBehind(nodes, last) && i <= last
    requires v == if nodes[last + 1] == And then 1 else 0
    ensures Solid(ScriptFrom(nodes, i, segment))
    ensures Value(ScriptFrom(nodes, i, segment), HeldUp(nodes, last, v)) == Returned(v)
    ensures LeftFrom(nodes, i, lead, HeldUp(nodes, last, v)) == 1 - v
    decreases |nodes| - i
  {
    var status := HeldUp(nodes, last, v);
    ReadyShape(nodes, i);
    ScriptIsSolid(nodes, i, segment);
    if i == last {
      Resumes(nodes, i + 2, v, nodes[i + 1], 1 - v, status);
    } else if nodes[i].Chdir? {
      MixedDiffersFrom(nodes, i + 2, segment, Some((0, And)), last, v);
    } else if nodes[i + 1].Pipe? {
      MixedDiffersFrom(nodes, i + 2, segment + [i], lead, last, v);
    } else {
      HeldUpGoesOn(nodes, last, v, i);
      MixedDiffersFrom(nodes, i + 2, [], Some((status(i), nodes[i + 1])), last, v);
    }
  }

  lemma ChainingIsOdd(nodes: seq<Node>, k: nat)
    requires Alternating(nodes) && k < |nodes| && Chaining(nodes[k])
    ensures k % 2 == 1
  {
    AlternatingAt(nodes, k);
  }

  lemma NotUniform(nodes: seq<Node>) returns (last: nat)
    requires Alternating(nodes) && Runnable(nodes) && |nodes| % 2 == 1 && !Uniform(nodes)
    ensures MixedBehind(nodes, last)
  {
    var j, k :| && 0 < j < k < |nodes| && nodes[j - 1].Command?
                && Chaining(nodes[j]) && Chaining(nodes[k]) && nodes[k] != nodes[j];
    ChainingIsOdd(nodes, j);
    ChainingIsOdd(nodes, k);
    last := j - 1;
  }

  /** An operator behind a command, then one of the other kind: some statuses tell the groupings apart. */
  lemma MixedDiffers(nodes: seq<Node>) returns (status: Status)
    requires WellFormed(nodes) && Runnable(nodes) && !Uniform(nodes)
    ensures Alternating(nodes) && UnitAt(nodes, 0)
    ensures Value(ScriptOf(nodes), status) != Returned(LeftValue(nodes, status))
  {
    AlternatingExactly(nodes);
    var last := NotUniform(nodes);
    var v := if nodes[last + 1] == And then 1 else 0;
    MixedDiffersFrom(nodes, 0, [], None, last, v);
    status := HeldUp(nodes, last, v);
  }

  /**
   The run returns what the POSIX shell would, for all exit statuses, exactly if
   from the first `&&` or `||` behind a command on there is only one kind of them,
   those behind a `cd` included.
   */
  lemma PosixExactly(nodes: seq<Node>)
    requires WellFormed(nodes) && Runnable(nodes)
    ensures Alternating(nodes) && UnitAt(nodes, 0)
    ensures (forall status: Status :: Value(ScriptOf(nodes), status) == Returned(LeftValue(nodes, status)))
        <==> Uniform(nodes)
  {
    AlternatingExactly(nodes);
    if Uniform(nodes) {
      forall status: Status ensures Value(ScriptOf(nodes), status) == Returned(LeftValue(nodes, status)) {
        UniformAgrees(nodes, status);
      }
    } else {
      var status := MixedDiffers(nodes);
      assert Value(ScriptOf(nodes), status) != Returned(LeftValue(nodes, status));
    }
  }

  // ----- Command lines for which the groupings differ

  function Plain(name: string): Node {
    Command([name], None, Unchanged, Unchanged, map[])
  }

  lemma NotAssignments()
    ensures EnvVar("a") == EnvVar("b") == EnvVar("c") == None
  {
    assert "a"[1..] == "" && "b"[1..] == "" && "c"[1..] == "";
  }

  /** `x || y && z` for three units. */
  lemma OrThenAnd(x: Node, y: Node, z: Node)
    requires UnitOk(x, Some(Or)) && UnitOk(y, Some(And)) && UnitOk(z, None)
    ensures WellFormed([x, Or, y, And, z]) && Alternating([x, Or, y, And, z])
  {
    var nodes := [x, Or, y, And, z];
    assert nodes[2..] == [y, And, z] && nodes[2..][2..] == [z];
    assert Alternating(nodes[2..][2..]) && Alternating(nodes[2..]);
    AlternatingExactly(nodes);
  }

  /** `a || b && c`, where `a` succeeds and `c` fails: 0 here, and 1 in the POSIX shell. */
  lemma MixedOperators(status: Status)
    requires status(0) == 0 && status(4) == 1
    ensures var nodes := [Plain("a"), Or, Plain("b"), And, Plain("c")];
      && WellFormed(nodes) && Alternating(nodes) && Runnable(nodes)
      && Value(ScriptOf(nodes), status) == Returned(0) && LeftValue(nodes, status) == 1
  {
    var nodes := [Plain("a"), Or, Plain("b"), And, Plain("c")];
    NotAssignments();
    OrThenAnd(Plain("a"), Plain("b"), Plain("c"));
    assert ScriptFrom(nodes, 2, []).Chain? && ScriptOf(nodes).segment == [0];
    assert LeftFrom(nodes, 4, Some((0, And)), status) == 1;
    assert LeftFrom(nodes, 2, Some((0, Or)), status) == 1;
  }

  /** `a || cd d && b`, where `a` succeeds and `b` fails: 0 here, and 1 in the POSIX shell. */
  lemma MixedWithChdir(status: Status)
    requires status(0) == 0 && status(4) == 1
    ensures var nodes := [Plain("a"), Or, Chdir(Some("d")), And, Plain("b")];
      && WellFormed(nodes) && Alternating(nodes) && Runnable(nodes)
      && Value(ScriptOf(nodes), status) == Returned(0) && LeftValue(nodes, status) == 1
  {
    var nodes := [Plain("a"), Or, Chdir(Some("d")), And, Plain("b")];
    NotAssignments();
    assert "d" != "&&";
    OrThenAnd(Plain("a"), Chdir(Some("d")), Plain("b"));
    assert ScriptFrom(nodes, 2, []).Last? && ScriptOf(nodes).segment == [0];
    assert LeftFrom(nodes, 4, Some((0, And)), status) == 1;
    assert LeftFrom(nodes, 2, Some((0, Or)), status) == 1;
  }
}

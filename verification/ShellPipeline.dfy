/** The command line interpreter: a parser and a runner that share a list of nodes. */
module ShellPipeline {
  import opened Common
  import opened ShellMeaning
  import opened ShellSyntax
  import opened ShellProcesses

  // ----- The stages of a run

  /** At node `i`, `done` has been waited for and `piped` has not. */
  ghost predicate Running(nodes: seq<Node>, i: nat, piped: seq<nat>, done: seq<nat>, status: Status) {
    && Alternating(nodes) && i <= |nodes| && i % 2 == 0
    && Commands(nodes, done + piped)
    && PipeSource(nodes, i) == (if piped == [] then None else Some(piped[|piped| - 1]))
    && Solid(ScriptFrom(nodes, i, piped))
    && Value(ScriptOf(nodes), status) == Value(ScriptFrom(nodes, i, piped), status)
    && Started(ScriptOf(nodes), status) == done + Started(ScriptFrom(nodes, i, piped), status)
  }

  /** The run is over. */
  ghost predicate Finished(nodes: seq<Node>, value: Outcome, positions: seq<nat>, status: Status) {
    && Alternating(nodes)
    && Commands(nodes, positions)
    && value == Value(ScriptOf(nodes), status)
    && positions == Started(ScriptOf(nodes), status)
  }

  lemma RunStarts(nodes: seq<Node>, status: Status)
    requires Alternating(nodes)
    ensures Running(nodes, 0, [], [], status)
  {
    ScriptIsSolid(nodes, 0, []);
    assert [] + Started(ScriptOf(nodes), status) == Started(ScriptOf(nodes), status);
  }

  lemma PassChdir(nodes: seq<Node>, i: nat, piped: seq<nat>, done: seq<nat>, status: Status)
    requires Running(nodes, i, piped, done, status)
    requires i < |nodes| && nodes[i].Chdir? && i + 1 < |nodes| && nodes[i].dir.Some?
    ensures Running(nodes, i + 2, piped, done, status)
  {
    AlternatingShape(nodes);
    ScriptIsSolid(nodes, i + 2, piped);
  }

  lemma StopAtChdir(nodes: seq<Node>, i: nat, piped: seq<nat>, done: seq<nat>, status: Status)
    requires Running(nodes, i, piped, done, status)
    requires i < |nodes| && nodes[i].Chdir? && (i + 1 == |nodes| || nodes[i].dir.None?)
    ensures Finished(nodes, Raised, done + piped, status)
  {
  }

  lemma StopCutShort(nodes: seq<Node>, piped: seq<nat>, done: seq<nat>, status: Status)
    requires Running(nodes, |nodes|, piped, done, status)
    ensures Finished(nodes, ReturnedNothing, done + piped, status)
  {
  }

  lemma PassPipe(nodes: seq<Node>, i: nat, piped: seq<nat>, done: seq<nat>, status: Status)
    requires Running(nodes, i, piped, done, status)
    requires i < |nodes| && nodes[i].Command? && i + 1 < |nodes| && nodes[i + 1].Pipe?
    ensures Running(nodes, i + 2, piped + [i], done, status)
  {
    AlternatingShape(nodes);
    ScriptIsSolid(nodes, i + 2, piped + [i]);
    CommandsMore(nodes, done, piped, i);
  }

  lemma CommandsMore(nodes: seq<Node>, done: seq<nat>, piped: seq<nat>, i: nat)
    requires Commands(nodes, done + piped) && i < |nodes| && nodes[i].Command?
    ensures done + (piped + [i]) == done + piped + [i]
    ensures Commands(nodes, done + (piped + [i]))
  {
    OneProcessMore(nodes, done + piped, i);
  }

  lemma StopAtEnd(nodes: seq<Node>, i: nat, piped: seq<nat>, done: seq<nat>, status: Status)
    requires Running(nodes, i, piped, done, status)
    requires i < |nodes| && nodes[i].Command? && i + 1 == |nodes|
    ensures Finished(nodes, Returned(status(i)), done + (piped + [i]), status)
  {
    CommandsMore(nodes, done, piped, i);
  }

  lemma StopShort(nodes: seq<Node>, i: nat, piped: seq<nat>, done: seq<nat>, status: Status)
    requires Running(nodes, i, piped, done, status)
    requires i + 1 < |nodes| && nodes[i].Command? && !nodes[i + 1].Pipe? && !Proceeds(nodes[i + 1], status(i))
    ensures Finished(nodes, Returned(status(i)), done + (piped + [i]), status)
  {
    CommandsMore(nodes, done, piped, i);
    assert (piped + [i]) + [] == piped + [i];
  }

  lemma GoOn(nodes: seq<Node>, i: nat, piped: seq<nat>, done: seq<nat>, status: Status)
    requires Running(nodes, i, piped, done, status)
    requires i + 1 < |nodes| && nodes[i].Command? && !nodes[i + 1].Pipe? && Proceeds(nodes[i + 1], status(i))
    ensures Running(nodes, i + 2, [], done + (piped + [i]), status)
  {
    AlternatingShape(nodes);
    ScriptIsSolid(nodes, i + 2, []);
    CommandsMore(nodes, done, piped, i);
    assert done + (piped + [i]) + [] == done + (piped + [i]);
    var later := Started(ScriptFrom(nodes, i + 2, []), status);
    assert done + ((piped + [i]) + later) == done + (piped + [i]) + later;
  }

  /** Waits for the processes of a segment. */
  method ExecPipedCommands(commands: seq<nat>, status: Status) returns (retval: int)
    ensures retval == if commands == [] then 0 else SegmentStatus(commands, status)
  {
    var retvals: seq<int> := [];
    for k := 0 to |commands|
      invariant |retvals| == k && forall i :: 0 <= i < k ==> retvals[i] == status(commands[i])
    {
      retvals := retvals + [status(commands[k])];
    }
    retval := 0;
    for k := 0 to |retvals|
      invariant retval == 0 && forall i :: 0 <= i < k ==> retvals[i] == 0
    {
      if retvals[k] != 0 {
        retval := retvals[|retvals| - 1];
        break;
      }
    }
  }

  lemma ParseLeavesAlternating(tokens: seq<string>)
    ensures ShellSyntax.Parse(tokens).Some? ==> Alternating(ShellSyntax.Parse(tokens).value)
    ensures Alternating(ParseFrom(START, tokens).p.nodes)
  {
    if ShellSyntax.Parse(tokens).Some? {
      AcceptedIsWellFormed(tokens);
      AlternatingExactly(ShellSyntax.Parse(tokens).value);
    }
    RefusedIsCommitted(tokens);
    AlternatingExactly(ParseFrom(START, tokens).p.nodes);
  }

  class Pipeline {
    var currentCommand: Option<Node>
    var pipeline: seq<Node>

    constructor ()
      ensures currentCommand == None && pipeline == []
    {
      currentCommand := None;
      pipeline := [];
    }

    method CommitCommand()
      requires currentCommand.Some?
      modifies this
      ensures pipeline == old(pipeline) + [old(currentCommand).value]
      ensures currentCommand == None
    {
      pipeline := pipeline + [currentCommand.value];
      currentCommand := None;
    }

    method CommitWith(op: Node)
      requires currentCommand.Some?
      modifies this
      ensures pipeline == old(pipeline) + [old(currentCommand).value, op]
      ensures currentCommand == None
    {
      CommitCommand();
      pipeline := pipeline + [op];
    }

    /** Reads a command line; false is a failed assertion of the source. */
    method Parse(tokens: seq<string>) returns (ok: bool)
      modifies this
      ensures ok <==> ShellSyntax.Parse(tokens).Some?
      ensures ok ==> currentCommand == None && pipeline == ShellSyntax.Parse(tokens).value
      ensures !ok ==> currentCommand == ParseFrom(START, tokens).p.current
      ensures !ok ==> pipeline == ParseFrom(START, tokens).p.nodes
      ensures Alternating(pipeline)
    {
      ParseLeavesAlternating(tokens);
      currentCommand := None;
      pipeline := [];
      var state, envVars := Begin, map[];
      assert tokens[0..] == tokens;
      for i := 0 to |tokens|
        invariant ParserOk(Parser(state, currentCommand, pipeline, envVars))
        invariant ParseFrom(START, tokens) == ParseFrom(Parser(state, currentCommand, pipeline, envVars), tokens[i..])
      {
        ghost var before := Parser(state, currentCommand, pipeline, envVars);
        OneElementLess(tokens, i);
        var token := tokens[i];
        if state == Begin {
          var assignment := EnvVar(token);
          if assignment.Some? {
            envVars := envVars[assignment.value.0 := assignment.value.1];
          } else if token == "cd" {
            currentCommand := Some(Chdir(None));
            if envVars != map[] {
              return false;
            }
            state := InChdir;
          } else {
            currentCommand := Some(Command([token], None, Unchanged, Unchanged, envVars));
            envVars := map[];
            state := InCommand;
          }
        } else if state == InCommand {
          var command := currentCommand.value;
          if token == ">" {
            state := ToStdoutFile;
          } else if token == "2>" {
            state := ToStderrFile;
          } else if token == "2>&1" {
            if command.stderr != Unchanged {
              return false;
            }
            currentCommand := Some(command.(stderr := ToStdout));
          } else if token == "<" {
            state := FromStdinFile;
          } else if token == "|" {
            if command.stdout != Unchanged {
              return false;
            }
            currentCommand := Some(command.(stdout := ToPipe));
            CommitWith(Pipe);
            state := Begin;
          } else if token == "&&" {
            CommitWith(And);
            state := Begin;
          } else if token == "||" {
            CommitWith(Or);
            state := Begin;
          } else {
            currentCommand := Some(command.(argv := command.argv + [token]));
          }
        } else if state == InChdir {
          if token == "&&" {
            CommitWith(And);
            state := Begin;
          } else {
            if currentCommand.value.dir.Some? {
              return false;
            }
            currentCommand := Some(Chdir(Some(token)));
          }
        } else if state == ToStdoutFile {
          if currentCommand.value.stdout != Unchanged {
            return false;
          }
          currentCommand := Some(currentCommand.value.(stdout := ToFile(token)));
          state := InCommand;
        } else if state == ToStderrFile {
          if currentCommand.value.stderr != Unchanged {
            return false;
          }
          currentCommand := Some(currentCommand.value.(stderr := ToFile(token)));
          state := InCommand;
        } else {
          if currentCommand.value.stdin != None {
            return false;
          }
          currentCommand := Some(currentCommand.value.(stdin := Some(token)));
          state := InCommand;
        }
        assert Step(before, token) == Go(Parser(state, currentCommand, pipeline, envVars));
      }
      assert tokens[|tokens|..] == [];
      if currentCommand.None? {
        return false;
      }
      CommitCommand();
      return true;
    }

    /**
     Runs what a parse has left, even one that failed.  It raises an exception at a
     `cd` that is last or has no directory.
     */
    method Run(status: Status) returns (value: Outcome, started: seq<Process>)
      requires Alternating(pipeline)
      ensures Finished(pipeline, value, Started(ScriptOf(pipeline), status), status)
      ensures started == Processes(pipeline, Started(ScriptOf(pipeline), status))
      ensures RightProcesses(pipeline, status, started)
      ensures exists i: nat :: StopsAt(pipeline, status, 0, i, value)
    {
      value, started := RunNodes(status);
      ProcessesAreRight(pipeline, status);
      ValueExactly(pipeline, status, value);
    }

    /** The loop of a run. */
    method RunNodes(status: Status) returns (value: Outcome, started: seq<Process>)
      requires Alternating(pipeline)
      ensures Finished(pipeline, value, Started(ScriptOf(pipeline), status), status)
      ensures started == Processes(pipeline, Started(ScriptOf(pipeline), status))
    {
      var nodes := pipeline;
      var i: nat, cwd := 0, ".";
      var pipedCommands: seq<nat> := [];
      var fromPipe := false;
      ghost var done: seq<nat> := [];
      started := [];
      RunStarts(nodes, status);
      while i < |nodes|
        invariant Running(nodes, i, pipedCommands, done, status)
        invariant cwd == CwdAt(nodes, i)
        invariant fromPipe == (pipedCommands != [])
        invariant started == Processes(nodes, done + pipedCommands)
      {
        AlternatingAt(nodes, i);
        if nodes[i].Chdir? {
          if i + 1 == |nodes| || nodes[i].dir.None? {
            StopAtChdir(nodes, i, pipedCommands, done, status);
            return Raised, started;
          }
          PassChdir(nodes, i, pipedCommands, done, status);
          cwd := Join(cwd, nodes[i].dir.value);
        } else {
          var input := if fromPipe then FromPipe(pipedCommands[|pipedCommands| - 1])
                       else if nodes[i].stdin.Some? then FromFile(nodes[i].stdin.value)
                       else Inherited;
          OneProcessMore(nodes, done + pipedCommands, i);
          CommandsMore(nodes, done, pipedCommands, i);
          started := started + [Process(i, if cwd == "." then None else Some(cwd), input)];
          ghost var piped := pipedCommands;
          pipedCommands := pipedCommands + [i];
          if i + 1 == |nodes| {
            StopAtEnd(nodes, i, piped, done, status);
            var retval := ExecPipedCommands(pipedCommands, status);
            return Returned(retval), started;
          }
          if nodes[i + 1].Pipe? {
            PassPipe(nodes, i, piped, done, status);
            fromPipe := true;
          } else {
            var retval := ExecPipedCommands(pipedCommands, status);
            if (nodes[i + 1].Or? && retval == 0) || (nodes[i + 1].And? && retval != 0) {
              StopShort(nodes, i, piped, done, status);
              return Returned(retval), started;
            }
            GoOn(nodes, i, piped, done, status);
            done := done + pipedCommands;
            pipedCommands, fromPipe := [], false;
            assert done + [] == done;
          }
        }
        i := i + 2;
      }
      StopCutShort(nodes, pipedCommands, done, status);
      return ReturnedNothing, started;
    }
  }
}

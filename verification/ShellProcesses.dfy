/**
 The processes that a run of a pipeline starts: which commands, in which
 directory, and what they read.
 */
module ShellProcesses {
  import opened Common
  import opened ShellMeaning
  import opened ShellSyntax

  datatype Input = Inherited | FromPipe(position: nat) | FromFile(name: string)

  datatype Process = Process(position: nat, cwd: Option<string>, input: Input)

  /** `os.path.join` of two paths. */
  function Join(path: string, more: string): string {
    if "/" <= more then more
    else if path == "" || path[|path| - 1] == '/' then path + more
    else path + "/" + more
  }

  /** The directory after every `cd` in front of a position. */
  function CwdAt(nodes: seq<Node>, i: nat): string
    requires i <= |nodes|
  {
    if i < 2 then "."
    else if nodes[i - 2].Chdir? && nodes[i - 2].dir.Some? then Join(CwdAt(nodes, i - 2), nodes[i - 2].dir.value)
    else CwdAt(nodes, i - 2)
  }

  /** The command whose output the one at a position reads; a `cd` between the two is passed over. */
  function PipeSource(nodes: seq<Node>, i: nat): Option<nat>
    requires i <= |nodes|
  {
    if i < 2 then None
    else if nodes[i - 2].Chdir? then PipeSource(nodes, i - 2)
    else if nodes[i - 1].Pipe? then Some(i - 2)
    else None
  }

  function InputAt(nodes: seq<Node>, i: nat): Input
    requires i < |nodes| && nodes[i].Command?
  {
    if PipeSource(nodes, i).Some? then FromPipe(PipeSource(nodes, i).value)
    else if nodes[i].stdin.Some? then FromFile(nodes[i].stdin.value)
    else Inherited
  }

  function ProcessAt(nodes: seq<Node>, i: nat): Process
    requires i < |nodes| && nodes[i].Command?
  {
    Process(i, if CwdAt(nodes, i) == "." then None else Some(CwdAt(nodes, i)), InputAt(nodes, i))
  }

  predicate Commands(nodes: seq<Node>, positions: seq<nat>) {
    forall k :: 0 <= k < |positions| ==> positions[k] < |nodes| && nodes[positions[k]].Command?
  }

  function Processes(nodes: seq<Node>, positions: seq<nat>): (processes: seq<Process>)
    requires Commands(nodes, positions)
    ensures |processes| == |positions|
  {
    seq(|positions|, k requires 0 <= k < |positions| => ProcessAt(nodes, positions[k]))
  }

  lemma OneProcessMore(nodes: seq<Node>, positions: seq<nat>, i: nat)
    requires Commands(nodes, positions) && i < |nodes| && nodes[i].Command?
    ensures Commands(nodes, positions + [i])
    ensures Processes(nodes, positions + [i]) == Processes(nodes, positions) + [ProcessAt(nodes, i)]
  {
  }

  // ----- The directory of a process

  /** The directories of the `cd`s in front of a position. */
  function DirsBefore(nodes: seq<Node>, i: nat): seq<string>
    requires i <= |nodes|
  {
    if i == 0 then [] else
      var n := nodes[i - 1];
      DirsBefore(nodes, i - 1) + if n.Chdir? && n.dir.Some? then [n.dir.value] else []
  }

  predicate Absolute(dir: string) {
    dir != "" && dir[0] == '/'
  }

  predicate EndsInSlash(path: string) {
    path != "" && path[|path| - 1] == '/'
  }

  /** A relative directory behind one slash; `slash` says whether there is one already. */
  function Under(slash: bool, dir: string): string {
    if slash then dir else "/" + dir
  }

  /** Several relative directories, one below the other. */
  function Below(slash: bool, dirs: seq<string>): string
    decreases |dirs|
  {
    if dirs == [] then "" else Under(slash, dirs[0]) + Below(dirs[0] == "" || EndsInSlash(dirs[0]), dirs[1..])
  }

  /** The last `k` of the directories are relative, and the one before them, if any, is absolute. */
  predicate LastAbsolute(dirs: seq<string>, k: nat) {
    k <= |dirs| && (k == 0 || Absolute(dirs[k - 1])) && forall j :: k <= j < |dirs| ==> !Absolute(dirs[j])
  }

  /** Where the directories lead: from the last absolute one, or from ".", along the relative ones behind it. */
  predicate LeadTo(dirs: seq<string>, k: nat, path: string)
    requires k <= |dirs|
  {
    var base := if k == 0 then "." else dirs[k - 1];
    path == base + Below(EndsInSlash(base), dirs[k..])
  }

  ghost predicate Located(dirs: seq<string>, path: string) {
    exists k: nat :: LastAbsolute(dirs, k) && LeadTo(dirs, k, path)
  }

  function SlashAfter(slash: bool, dirs: seq<string>): bool
    decreases |dirs|
  {
    if dirs == [] then slash else SlashAfter(dirs[0] == "" || EndsInSlash(dirs[0]), dirs[1..])
  }

  lemma Associates(a: string, b: string, c: string)
    ensures a + (b + c) == a + b + c
  {
  }

  lemma {:induction false} BelowOneMore(slash: bool, dirs: seq<string>, d: string)
    ensures Below(slash, dirs + [d]) == Below(slash, dirs) + Under(SlashAfter(slash, dirs), d)
    decreases |dirs|
  {
    if dirs == [] {
      assert dirs + [d] == [d] && [d][1..] == [];
      assert Below(slash, [d]) == Under(slash, d) + "";
    } else {
      var next := dirs[0] == "" || EndsInSlash(dirs[0]);
      assert (dirs + [d])[0] == dirs[0] && (dirs + [d])[1..] == dirs[1..] + [d];
      BelowOneMore(next, dirs[1..], d);
      Associates(Under(slash, dirs[0]), Below(next, dirs[1..]), Under(SlashAfter(next, dirs[1..]), d));
    }
  }

  lemma StepEnds(path: string, dir: string)
    requires path != ""
    ensures EndsInSlash(path + Under(EndsInSlash(path), dir)) == (dir == "" || EndsInSlash(dir))
  {
  }

  lemma {:induction false} BelowEnds(path: string, dirs: seq<string>)
    requires path != ""
    ensures EndsInSlash(path + Below(EndsInSlash(path), dirs)) == SlashAfter(EndsInSlash(path), dirs)
    decreases |dirs|
  {
    if dirs == [] {
      assert path + "" == path;
    } else {
      var step := Under(EndsInSlash(path), dirs[0]);
      StepEnds(path, dirs[0]);
      BelowEnds(path + step, dirs[1..]);
      Associates(path, step, Below(EndsInSlash(path + step), dirs[1..]));
    }
  }

  lemma JoinIsStep(path: string, d: string)
    requires path != "" && !Absolute(d)
    ensures Join(path, d) == path + Under(EndsInSlash(path), d)
  {
    if "/" <= d {
      assert d[0] == "/"[0];
    }
    Associates(path, "/", d);
  }

  lemma JoinAbsolute(path: string, d: string)
    requires Absolute(d)
    ensures Join(path, d) == d
  {
    assert d[..1] == "/";
  }

  lemma JoinLeads(dirs: seq<string>, path: string, d: string)
    requires Located(dirs, path) && path != ""
    ensures Located(dirs + [d], Join(path, d)) && Join(path, d) != ""
  {
    var more := dirs + [d];
    if Absolute(d) {
      JoinAbsolute(path, d);
      assert LastAbsolute(more, |more|);
      assert more[|more|..] == [] && d + "" == d;
      assert LeadTo(more, |more|, d);
    } else {
      var k: nat :| LastAbsolute(dirs, k) && LeadTo(dirs, k, path);
      JoinIsStep(path, d);
      LeadsOn(dirs, k, path, d);
      assert LastAbsolute(more, k);
    }
  }

  lemma LeadsOn(dirs: seq<string>, k: nat, path: string, d: string)
    requires k <= |dirs| && (k > 0 ==> dirs[k - 1] != "") && LeadTo(dirs, k, path)
    ensures LeadTo(dirs + [d], k, path + Under(EndsInSlash(path), d))
  {
    var base := if k == 0 then "." else dirs[k - 1];
    var slash := EndsInSlash(base);
    assert (dirs + [d])[k..] == dirs[k..] + [d];
    assert k > 0 ==> (dirs + [d])[k - 1] == dirs[k - 1];
    BelowOneMore(slash, dirs[k..], d);
    BelowEnds(base, dirs[k..]);
    Associates(base, Below(slash, dirs[k..]), Under(SlashAfter(slash, dirs[k..]), d));
  }

  lemma ElsewhereThanHere(dirs: seq<string>, path: string)
    requires Located(dirs, path)
    ensures path == "." <==> dirs == []
  {
    var k: nat :| LastAbsolute(dirs, k) && LeadTo(dirs, k, path);
    if dirs == [] {
      assert path == "." + "";
    } else if k == 0 {
      assert Below(false, dirs) != "";
    } else {
      assert path[0] == '/';
    }
  }

  /** The directories in front of a position lead to the one that the run has gone to. */
  ghost predicate CwdRight(nodes: seq<Node>, i: nat)
    requires i <= |nodes|
  {
    Located(DirsBefore(nodes, i), CwdAt(nodes, i)) && CwdAt(nodes, i) != ""
  }

  lemma CwdRightAtStart(nodes: seq<Node>)
    ensures CwdRight(nodes, 0)
  {
    assert LastAbsolute([], 0) && LeadTo([], 0, ".");
  }

  lemma CwdRightNext(nodes: seq<Node>, i: nat)
    requires 2 <= i <= |nodes| && !nodes[i - 1].Chdir? && CwdRight(nodes, i - 2)
    ensures CwdRight(nodes, i)
  {
    DirsOfUnit(nodes, i);
    if nodes[i - 2].Chdir? && nodes[i - 2].dir.Some? {
      JoinLeads(DirsBefore(nodes, i - 2), CwdAt(nodes, i - 2), nodes[i - 2].dir.value);
    } else {
      assert DirsBefore(nodes, i) == DirsBefore(nodes, i - 2);
    }
  }

  lemma {:induction false} CwdIsRight(nodes: seq<Node>, i: nat)
    requires Alternating(nodes) && i <= |nodes| && i % 2 == 0
    ensures CwdRight(nodes, i)
    decreases i
  {
    if i == 0 {
      CwdRightAtStart(nodes);
    } else {
      CwdIsRight(nodes, i - 2);
      AlternatingAt(nodes, i - 1);
      CwdRightNext(nodes, i);
    }
  }

  lemma DirsOfUnit(nodes: seq<Node>, i: nat)
    requires 2 <= i <= |nodes| && !nodes[i - 1].Chdir?
    ensures DirsBefore(nodes, i) == DirsBefore(nodes, i - 2)
         + if nodes[i - 2].Chdir? && nodes[i - 2].dir.Some? then [nodes[i - 2].dir.value] else []
  {
    assert DirsBefore(nodes, i) == DirsBefore(nodes, i - 1) + [];
  }

  /** Each directory behind its slash. */
  function Slashed(dirs: seq<string>): (parts: seq<string>)
    ensures |parts| == |dirs|
  {
    seq(|dirs|, k requires 0 <= k < |dirs| => "/" + dirs[k])
  }

  lemma {:induction false} BelowPlain(dirs: seq<string>)
    requires forall k :: 0 <= k < |dirs| ==> dirs[k] != "" && !EndsInSlash(dirs[k])
    ensures Below(false, dirs) == Flatten(Slashed(dirs))
  {
    if dirs != [] {
      BelowPlain(dirs[1..]);
      assert Slashed(dirs)[1..] == Slashed(dirs[1..]);
    }
  }

  /** Relative directories that do not end in a slash lead to "." and then, behind a slash each, those directories. */
  lemma PlainPath(dirs: seq<string>, path: string)
    requires Located(dirs, path)
    requires forall k :: 0 <= k < |dirs| ==> dirs[k] != "" && dirs[k][0] != '/' && !EndsInSlash(dirs[k])
    ensures path == "." + Flatten(Slashed(dirs))
  {
    var k: nat :| LastAbsolute(dirs, k) && LeadTo(dirs, k, path);
    assert dirs[0..] == dirs;
    BelowPlain(dirs);
  }

  /** `cd d && b` starts `b` in `./d`. */
  lemma OneChdir(b: Node)
    requires b.Command?
    ensures ProcessAt([Chdir(Some("d")), And, b], 2).cwd == Some("./d")
  {
    JoinIsStep(".", "d");
    assert CwdAt([Chdir(Some("d")), And, b], 2) == "./d";
  }

  /** `cd a && cd b && c` starts `c` in `./a/b`. */
  lemma TwoChdirs(c: Node)
    requires c.Command?
    ensures ProcessAt([Chdir(Some("a")), And, Chdir(Some("b")), And, c], 4).cwd == Some("./a/b")
  {
    var nodes := [Chdir(Some("a")), And, Chdir(Some("b")), And, c];
    JoinIsStep(".", "a");
    assert CwdAt(nodes, 2) == "./a";
    JoinIsStep("./a", "b");
    assert CwdAt(nodes, 4) == "./a/b";
  }

  /** `cd a && cd /t && c` starts `c` in `/t`. */
  lemma AbsoluteChdir(c: Node)
    requires c.Command?
    ensures ProcessAt([Chdir(Some("a")), And, Chdir(Some("/t")), And, c], 4).cwd == Some("/t")
  {
    assert "/" <= "/t";
  }

  // ----- The input of a process

  /** The command at `j` writes into a pipe, and only `cd`s stand between the pipe and position `i`. */
  ghost predicate PipedInto(nodes: seq<Node>, j: nat, i: nat)
    requires i <= |nodes|
  {
    && j + 1 < i && j % 2 == 0 && nodes[j].Command? && nodes[j + 1].Pipe?
    && forall k :: j + 1 < k < i && k % 2 == 0 ==> nodes[k].Chdir?
  }

  lemma {:induction false} PipeSourceExactly(nodes: seq<Node>, i: nat, j: nat)
    requires Alternating(nodes) && i <= |nodes| && i % 2 == 0
    ensures PipedInto(nodes, j, i) <==> PipeSource(nodes, i) == Some(j)
    decreases i
  {
    AlternatingShape(nodes);
    if i >= 2 && nodes[i - 2].Chdir? {
      AlternatingAt(nodes, i - 2);
      PipeSourceExactly(nodes, i - 2, j);
    }
  }

  // ----- The processes of a run

  /** The command at a position is reached: no `cd` on the way fails, and every operator lets the run go on. */
  ghost predicate ReachedFrom(nodes: seq<Node>, status: Status, from: nat, i: nat) {
    i < |nodes| && nodes[i].Command? && Passed(nodes, status, from, i)
  }

  ghost predicate Passed(nodes: seq<Node>, status: Status, from: nat, i: nat) {
    && from <= i <= |nodes|
    && (forall j :: from <= j < i && nodes[j].Chdir? ==> nodes[j].dir.Some?)
    && (forall j :: from <= j < i && j + 1 < |nodes| && nodes[j].Command? && nodes[j + 1].And? ==> status(j) == 0)
    && (forall j :: from <= j < i && j + 1 < |nodes| && nodes[j].Command? && nodes[j + 1].Or? ==> status(j) != 0)
  }

  lemma PassedUnfolds(nodes: seq<Node>, status: Status, from: nat, i: nat)
    requires from + 1 < |nodes| && Operator(nodes[from + 1])
    ensures from + 1 < i ==>
      (Passed(nodes, status, from, i) <==>
        && Passed(nodes, status, from + 2, i)
        && (nodes[from].Chdir? ==> nodes[from].dir.Some?)
        && (nodes[from].Command? && nodes[from + 1].And? ==> status(from) == 0)
        && (nodes[from].Command? && nodes[from + 1].Or? ==> status(from) != 0))
  {
  }

  lemma ReachedUnfolds(nodes: seq<Node>, status: Status, from: nat, i: nat)
    requires from < |nodes| && (from + 1 < |nodes| ==> Operator(nodes[from + 1]))
    ensures ReachedFrom(nodes, status, from, i) <==>
      if i == from then nodes[from].Command?
      else
        && ReachedFrom(nodes, status, from + 2, i)
        && (nodes[from].Chdir? ==> nodes[from].dir.Some?)
        && (nodes[from].Command? && nodes[from + 1].And? ==> status(from) == 0)
        && (nodes[from].Command? && nodes[from + 1].Or? ==> status(from) != 0)
  {
  }

  ghost predicate Increasing(positions: seq<nat>) {
    forall a, b :: 0 <= a < b < |positions| ==> positions[a] < positions[b]
  }

  lemma {:induction false} StartedAreReached(nodes: seq<Node>, from: nat, segment: seq<nat>, status: Status, i: nat)
    requires Alternating(nodes) && from <= |nodes| && from % 2 == 0
    ensures Solid(ScriptFrom(nodes, from, segment))
    ensures i in Started(ScriptFrom(nodes, from, segment), status)
        <==> i in segment || ReachedFrom(nodes, status, from, i)
    decreases |nodes| - from
  {
    ScriptIsSolid(nodes, from, segment);
    AlternatingShape(nodes);
    if from < |nodes| {
      ReachedUnfolds(nodes, status, from, i);
      if from + 1 < |nodes| && !(nodes[from].Chdir? && nodes[from].dir.None?) {
        if nodes[from].Chdir? {
          StartedAreReached(nodes, from + 2, segment, status, i);
        } else if nodes[from + 1].Pipe? {
          StartedAreReached(nodes, from + 2, segment + [from], status, i);
        } else {
          StartedAreReached(nodes, from + 2, [], status, i);
        }
      }
    }
  }

  /** The positions of a segment lie in front of position `from`, in order. */
  ghost predicate InOrder(positions: seq<nat>, from: nat) {
    Increasing(positions) && forall k :: 0 <= k < |positions| ==> positions[k] < from
  }

  lemma {:induction false} LaterStarted(nodes: seq<Node>, from: nat, segment: seq<nat>, status: Status)
    requires Alternating(nodes) && from <= |nodes| && from % 2 == 0 && InOrder(segment, from)
    ensures Solid(ScriptFrom(nodes, from, segment))
    ensures Increasing(Started(ScriptFrom(nodes, from, segment), status))
    ensures segment == [] ==> forall i :: i in Started(ScriptFrom(nodes, from, segment), status) ==> i >= from
    decreases |nodes| - from
  {
    ScriptIsSolid(nodes, from, segment);
    AlternatingShape(nodes);
    if segment == [] {
      forall i | i in Started(ScriptFrom(nodes, from, segment), status) ensures i >= from {
        StartedAreReached(nodes, from, segment, status, i);
      }
    }
    if from + 1 < |nodes| && !(nodes[from].Chdir? && nodes[from].dir.None?) {
      if nodes[from].Chdir? {
        LaterStarted(nodes, from + 2, segment, status);
      } else if nodes[from + 1].Pipe? {
        LaterStarted(nodes, from + 2, segment + [from], status);
      } else {
        LaterStarted(nodes, from + 2, [], status);
        OneAfterTheOther(segment + [from], Started(ScriptFrom(nodes, from + 2, []), status), from + 2);
      }
    }
  }

  lemma OneAfterTheOther(before: seq<nat>, behind: seq<nat>, from: nat)
    requires InOrder(before, from) && Increasing(behind) && forall i :: i in behind ==> i >= from
    ensures Increasing(before + behind)
  {
    assert forall k :: 0 <= k < |behind| ==> behind[k] in behind;
  }

  /** The commands that are started are, in order, exactly those that are reached. */
  lemma StartedExactly(nodes: seq<Node>, status: Status, i: nat)
    requires Alternating(nodes)
    ensures i in Started(ScriptOf(nodes), status) <==> ReachedFrom(nodes, status, 0, i)
    ensures Increasing(Started(ScriptOf(nodes), status))
  {
    StartedAreReached(nodes, 0, [], status, i);
    LaterStarted(nodes, 0, [], status);
  }

  /** Without a `cd` in front a process is started where the caller is, else where the `cd`s lead. */
  ghost predicate RightDirectory(dirs: seq<string>, cwd: Option<string>) {
    if dirs == [] then cwd == None else cwd.Some? && Located(dirs, cwd.value)
  }

  /** A process reads from the command piped into it, else from the file that it names, else what the caller reads. */
  ghost predicate RightInput(nodes: seq<Node>, i: nat, input: Input)
    requires i < |nodes| && nodes[i].Command?
  {
    match input
    case FromPipe(j) => PipedInto(nodes, j, i)
    case FromFile(name) => nodes[i].stdin == Some(name) && forall j: nat :: !PipedInto(nodes, j, i)
    case Inherited => nodes[i].stdin == None && forall j: nat :: !PipedInto(nodes, j, i)
  }

  ghost predicate StartedRightly(nodes: seq<Node>, p: Process) {
    && p.position < |nodes| && nodes[p.position].Command?
    && RightDirectory(DirsBefore(nodes, p.position), p.cwd)
    && RightInput(nodes, p.position, p.input)
  }

  lemma ProcessIsRight(nodes: seq<Node>, i: nat)
    requires Alternating(nodes) && i < |nodes| && nodes[i].Command?
    ensures StartedRightly(nodes, ProcessAt(nodes, i))
  {
    AlternatingShape(nodes);
    CwdIsRight(nodes, i);
    ElsewhereThanHere(DirsBefore(nodes, i), CwdAt(nodes, i));
    forall j: nat ensures PipedInto(nodes, j, i) <==> PipeSource(nodes, i) == Some(j) {
      PipeSourceExactly(nodes, i, j);
    }
  }

  /** The processes are those of the commands reached, in order, each started rightly. */
  ghost predicate RightProcesses(nodes: seq<Node>, status: Status, started: seq<Process>) {
    && (forall i: nat ::
          ReachedFrom(nodes, status, 0, i) <==> exists k :: 0 <= k < |started| && started[k].position == i)
    && (forall a, b :: 0 <= a < b < |started| ==> started[a].position < started[b].position)
    && (forall k :: 0 <= k < |started| ==> StartedRightly(nodes, started[k]))
  }

  lemma ProcessesAreRight(nodes: seq<Node>, status: Status)
    requires Alternating(nodes) && Commands(nodes, Started(ScriptOf(nodes), status))
    ensures RightProcesses(nodes, status, Processes(nodes, Started(ScriptOf(nodes), status)))
  {
    var positions := Started(ScriptOf(nodes), status);
    var started := Processes(nodes, positions);
    StartedExactly(nodes, status, 0);
    forall i: nat
      ensures ReachedFrom(nodes, status, 0, i) <==> exists k :: 0 <= k < |started| && started[k].position == i
    {
      StartedExactly(nodes, status, i);
      if k :| 0 <= k < |positions| && positions[k] == i {
        assert started[k].position == i;
      }
    }
    forall k | 0 <= k < |started| ensures StartedRightly(nodes, started[k]) {
      ProcessIsRight(nodes, positions[k]);
    }
  }

  // ----- Where a run stops

  /**
   A run passes on to position `i`, where a unit is due, and stops there: at the end
   of the nodes with nothing to return, at a `cd` that cannot be carried out with an exception, or
   at a command that is last or whose operator ends the run, with its status.
   */
  ghost predicate StopsAt(nodes: seq<Node>, status: Status, from: nat, i: nat, value: Outcome) {
    && Passed(nodes, status, from, i) && i % 2 == 0
    && if i == |nodes| then value == ReturnedNothing
       else if nodes[i].Chdir? then (nodes[i].dir.None? || i + 1 == |nodes|) && value == Raised
       else
         && nodes[i].Command?
         && (i + 1 == |nodes| || (nodes[i + 1].And? && status(i) != 0) || (nodes[i + 1].Or? && status(i) == 0))
         && value == Returned(status(i))
  }

  lemma StopsLater(nodes: seq<Node>, status: Status, from: nat, i: nat, value: Outcome)
    requires from + 1 < |nodes| && Operator(nodes[from + 1]) && from + 2 <= i
    requires StopsAt(nodes, status, from + 2, i, value)
    requires nodes[from].Chdir? ==> nodes[from].dir.Some?
    requires nodes[from].Command? && !nodes[from + 1].Pipe? ==> Proceeds(nodes[from + 1], status(from))
    ensures StopsAt(nodes, status, from, i, value)
  {
    PassedUnfolds(nodes, status, from, i);
  }

  lemma {:induction false} ScriptStops(nodes: seq<Node>, from: nat, segment: seq<nat>, status: Status) returns (i: nat)
    requires Alternating(nodes) && from <= |nodes| && from % 2 == 0
    ensures Solid(ScriptFrom(nodes, from, segment)) && i >= from
    ensures StopsAt(nodes, status, from, i, Value(ScriptFrom(nodes, from, segment), status))
    decreases |nodes| - from
  {
    ScriptIsSolid(nodes, from, segment);
    AlternatingShape(nodes);
    i := from;
    if from + 1 < |nodes| && !(nodes[from].Chdir? && nodes[from].dir.None?) {
      var rest := if nodes[from].Chdir? then segment else if nodes[from + 1].Pipe? then segment + [from] else [];
      if nodes[from].Chdir? || nodes[from + 1].Pipe? || Proceeds(nodes[from + 1], status(from)) {
        i := ScriptStops(nodes, from + 2, rest, status);
        StopsLater(nodes, status, from, i, Value(ScriptFrom(nodes, from + 2, rest), status));
      }
    }
  }

  /** There is only one such place, and so only one value. */
  lemma StopsOnce(nodes: seq<Node>, status: Status, i: nat, v: Outcome, j: nat, w: Outcome)
    requires Alternating(nodes) && StopsAt(nodes, status, 0, i, v) && StopsAt(nodes, status, 0, j, w)
    ensures i == j && v == w
  {
    AlternatingShape(nodes);
  }

  /** The value of a run is that of the place where it stops. */
  lemma ValueExactly(nodes: seq<Node>, status: Status, value: Outcome)
    requires Alternating(nodes)
    ensures value == Value(ScriptOf(nodes), status) <==> exists i: nat :: StopsAt(nodes, status, 0, i, value)
  {
    var i := ScriptStops(nodes, 0, [], status);
    if j: nat :| StopsAt(nodes, status, 0, j, value) {
      StopsOnce(nodes, status, i, Value(ScriptOf(nodes), status), j, value);
    }
  }
}

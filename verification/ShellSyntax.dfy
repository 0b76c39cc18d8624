/** The nodes of a command line, and what the parser makes of a list of tokens. */
module ShellSyntax {
  import opened Common

  datatype Output = Unchanged | ToPipe | ToStdout | ToFile(name: string)

  datatype Node =
    | Command(argv: seq<string>, stdin: Option<string>, stdout: Output, stderr: Output, env: map<string, string>)
    | Chdir(dir: Option<string>)
    | Pipe
    | And
    | Or

  // ----- Words that set environment variables

  predicate WordChar(c: char) {
    'a' <= c <= 'z' || 'A' <= c <= 'Z' || '0' <= c <= '9' || c == '_'
  }

  predicate Space(c: char) {
    c == ' ' || 9 <= c as int <= 13
  }

  /** How many word characters come first. */
  function NameRun(s: string): (n: nat)
    ensures n <= |s|
  {
    if s == "" || !WordChar(s[0]) then 0 else 1 + NameRun(s[1..])
  }

  predicate IsName(s: string) {
    s != "" && forall k :: 0 <= k < |s| ==> WordChar(s[k])
  }

  predicate IsValue(s: string) {
    s != "" && forall k :: 0 <= k < |s| ==> !Space(s[k])
  }

  /** The end of the expression also matches in front of a last line end. */
  function ChopLineEnd(s: string): string {
    if s != "" && s[|s| - 1] == '\n' then s[..|s| - 1] else s
  }

  /** The name and the value that a word assigns. */
  function EnvVar(token: string): Option<(string, string)> {
    var k := NameRun(token);
    if k == 0 || k == |token| || token[k] != '=' then None else
      var value := ChopLineEnd(token[k + 1..]);
      if IsValue(value) then Some((token[..k], value)) else None
  }

  // ----- The parser

  datatype Mode = Begin | InCommand | InChdir | ToStderrFile | ToStdoutFile | FromStdinFile

  datatype Parser = Parser(mode: Mode, current: Option<Node>, nodes: seq<Node>, env: map<string, string>)

  /** The parser goes on, or an assertion of the source fails. */
  datatype Progress = Go(p: Parser) | Stop(p: Parser)

  /** There is a command to add to exactly when the mode says so. */
  predicate ParserOk(p: Parser) {
    match p.mode
    case Begin => p.current.None?
    case InChdir => p.current.Some? && p.current.value.Chdir?
    case _ => p.current.Some? && p.current.value.Command?
  }

  function Commit(p: Parser, op: Node): Parser
    requires p.current.Some?
  {
    p.(mode := Begin, current := None, nodes := p.nodes + [p.current.value, op])
  }

  function StepBegin(p: Parser, token: string): Progress
    requires p.mode == Begin && ParserOk(p)
  {
    match EnvVar(token)
    case Some((name, value)) => Go(p.(env := p.env[name := value]))
    case None =>
      if token == "cd" then
        var q := p.(current := Some(Chdir(None)));
        if p.env == map[] then Go(q.(mode := InChdir)) else Stop(q)
      else
        Go(Parser(InCommand, Some(Command([token], None, Unchanged, Unchanged, p.env)), p.nodes, map[]))
  }

  function StepCommand(p: Parser, token: string): Progress
    requires p.mode == InCommand && ParserOk(p)
  {
    var c := p.current.value;
    if token == ">" then Go(p.(mode := ToStdoutFile))
    else if token == "2>" then Go(p.(mode := ToStderrFile))
    else if token == "2>&1" then
      if c.stderr == Unchanged then Go(p.(current := Some(c.(stderr := ToStdout)))) else Stop(p)
    else if token == "<" then Go(p.(mode := FromStdinFile))
    else if token == "|" then
      if c.stdout == Unchanged then Go(Commit(p.(current := Some(c.(stdout := ToPipe))), Pipe)) else Stop(p)
    else if token == "&&" then Go(Commit(p, And))
    else if token == "||" then Go(Commit(p, Or))
    else Go(p.(current := Some(c.(argv := c.argv + [token]))))
  }

  function StepChdir(p: Parser, token: string): Progress
    requires p.mode == InChdir && ParserOk(p)
  {
    if token == "&&" then Go(Commit(p, And))
    else if p.current.value.dir.None? then Go(p.(current := Some(Chdir(Some(token)))))
    else Stop(p)
  }

  function StepFile(p: Parser, token: string): Progress
    requires p.mode.ToStdoutFile? || p.mode.ToStderrFile? || p.mode.FromStdinFile?
    requires ParserOk(p)
  {
    var c := p.current.value;
    if p.mode == ToStdoutFile then
      if c.stdout == Unchanged then Go(p.(mode := InCommand, current := Some(c.(stdout := ToFile(token))))) else Stop(p)
    else if p.mode == ToStderrFile then
      if c.stderr == Unchanged then Go(p.(mode := InCommand, current := Some(c.(stderr := ToFile(token))))) else Stop(p)
    else
      if c.stdin == None then Go(p.(mode := InCommand, current := Some(c.(stdin := Some(token))))) else Stop(p)
  }

  function Step(p: Parser, token: string): (next: Progress)
    requires ParserOk(p)
    ensures next.Go? ==> ParserOk(next.p)
  {
    match p.mode
    case Begin => StepBegin(p, token)
    case InCommand => StepCommand(p, token)
    case InChdir => StepChdir(p, token)
    case _ => StepFile(p, token)
  }

  function ParseFrom(p: Parser, tokens: seq<string>): (end: Progress)
    requires ParserOk(p)
    ensures end.Go? ==> ParserOk(end.p)
    decreases |tokens|
  {
    if tokens == [] then Go(p) else
      var next := Step(p, tokens[0]);
      if next.Stop? then next else ParseFrom(next.p, tokens[1..])
  }

  const START := Parser(Begin, None, [], map[])

  /** The nodes of an accepted command line; the last command is committed at the end. */
  function Parse(tokens: seq<string>): Option<seq<Node>> {
    var end := ParseFrom(START, tokens);
    if end.Go? && end.p.current.Some? then Some(end.p.nodes + [end.p.current.value]) else None
  }

  // ----- The pipelines that the parser accepts

  predicate Operator(n: Node) {
    n.Pipe? || n.And? || n.Or?
  }

  predicate OperatorWord(w: string) {
    w == ">" || w == "2>" || w == "2>&1" || w == "<" || w == "|" || w == "&&" || w == "||"
  }

  predicate EnvOk(env: map<string, string>) {
    forall name :: name in env ==> IsName(name) && IsValue(env[name])
  }

  /** A command as it can be while more of its words may follow. */
  predicate CommandOk(n: Node) {
    && n.Command?
    && n.argv != []
    && n.argv[0] != "cd"
    && EnvVar(n.argv[0]).None?
    && (forall k :: 1 <= k < |n.argv| ==> !OperatorWord(n.argv[k]))
    && n.stdout != ToStdout
    && n.stderr != ToPipe
    && EnvOk(n.env)
  }

  /** A command or a change of directory that is followed by `op`, or by nothing. */
  predicate UnitOk(n: Node, op: Option<Node>) {
    match n
    case Command(_, _, stdout, _, _) => CommandOk(n) && (stdout == ToPipe <==> op == Some(Pipe))
    case Chdir(dir) => dir != Some("&&") && (op == None || op == Some(And))
    case _ => false
  }

  /** What has been committed: units, each with its operator behind it. */
  predicate Committed(nodes: seq<Node>) {
    nodes == [] ||
    (|nodes| >= 2 && UnitOk(nodes[0], Some(nodes[1])) && Operator(nodes[1]) && Committed(nodes[2..]))
  }

  /** Units with operators between them. */
  predicate WellFormed(nodes: seq<Node>) {
    if |nodes| < 2 then |nodes| == 1 && UnitOk(nodes[0], None)
    else UnitOk(nodes[0], Some(nodes[1])) && Operator(nodes[1]) && WellFormed(nodes[2..])
  }

  /** Either of the two: what a parse leaves behind, whether it succeeds or fails. */
  predicate Alternating(nodes: seq<Node>) {
    if |nodes| < 2 then |nodes| == 1 ==> UnitOk(nodes[0], None)
    else UnitOk(nodes[0], Some(nodes[1])) && Operator(nodes[1]) && Alternating(nodes[2..])
  }

  lemma {:induction false} AlternatingExactly(nodes: seq<Node>)
    ensures WellFormed(nodes) <==> Alternating(nodes) && |nodes| % 2 == 1
    ensures Committed(nodes) <==> Alternating(nodes) && |nodes| % 2 == 0
  {
    if |nodes| >= 2 {
      AlternatingExactly(nodes[2..]);
    }
  }

  lemma {:induction false} CommitOne(nodes: seq<Node>, unit: Node, op: Node)
    requires Committed(nodes) && UnitOk(unit, Some(op)) && Operator(op)
    ensures Committed(nodes + [unit, op])
  {
    if nodes == [] {
      assert [] + [unit, op] == [unit, op] && [unit, op][2..] == [];
    } else {
      assert (nodes + [unit, op])[2..] == nodes[2..] + [unit, op];
      CommitOne(nodes[2..], unit, op);
    }
  }

  lemma {:induction false} CommitLast(nodes: seq<Node>, unit: Node)
    requires Committed(nodes) && UnitOk(unit, None)
    ensures WellFormed(nodes + [unit])
  {
    if nodes == [] {
      assert [] + [unit] == [unit];
    } else {
      assert (nodes + [unit])[2..] == nodes[2..] + [unit];
      CommitLast(nodes[2..], unit);
    }
  }

  // ----- Everything that is accepted is well formed

  lemma {:induction false} NameRunIsName(s: string)
    ensures forall k :: 0 <= k < NameRun(s) ==> WordChar(s[k])
    ensures NameRun(s) < |s| ==> !WordChar(s[NameRun(s)])
  {
    if s != "" && WordChar(s[0]) {
      NameRunIsName(s[1..]);
      assert s == [s[0]] + s[1..];
    }
  }

  lemma EnvVarOk(token: string)
    requires EnvVar(token).Some?
    ensures IsName(EnvVar(token).value.0) && IsValue(EnvVar(token).value.1)
  {
    NameRunIsName(token);
  }

  /** What holds of the parser between two tokens. */
  predicate Parsing(p: Parser) {
    && ParserOk(p)
    && Committed(p.nodes)
    && match p.mode
       case Begin => EnvOk(p.env)
       case InChdir => p.env == map[] && p.current.value.dir != Some("&&")
       case _ => p.env == map[] && CommandOk(p.current.value) && p.current.value.stdout != ToPipe
  }

  lemma StepKeepsParsing(p: Parser, token: string)
    requires Parsing(p) && Step(p, token).Go?
    ensures Parsing(Step(p, token).p)
  {
    match p.mode
    case Begin =>
      if EnvVar(token).Some? {
        EnvVarOk(token);
      }
    case InCommand =>
      var c := p.current.value;
      if token == "|" {
        CommitOne(p.nodes, c.(stdout := ToPipe), Pipe);
      } else if token == "&&" {
        CommitOne(p.nodes, c, And);
      } else if token == "||" {
        CommitOne(p.nodes, c, Or);
      }
    case InChdir =>
      if token == "&&" {
        CommitOne(p.nodes, p.current.value, And);
      }
    case _ =>
  }

  lemma {:induction false} ParseKeepsParsing(p: Parser, tokens: seq<string>)
    requires Parsing(p) && ParseFrom(p, tokens).Go?
    ensures Parsing(ParseFrom(p, tokens).p)
    decreases |tokens|
  {
    if tokens != [] {
      StepKeepsParsing(p, tokens[0]);
      ParseKeepsParsing(Step(p, tokens[0]).p, tokens[1..]);
    }
  }

  lemma {:induction false} StopKeepsCommitted(p: Parser, tokens: seq<string>)
    requires Parsing(p)
    ensures Committed(ParseFrom(p, tokens).p.nodes)
    decreases |tokens|
  {
    if tokens != [] {
      var next := Step(p, tokens[0]);
      if next.Go? {
        StepKeepsParsing(p, tokens[0]);
        StopKeepsCommitted(next.p, tokens[1..]);
      }
    }
  }

  /** A command line that is refused leaves the part that had been committed. */
  lemma RefusedIsCommitted(tokens: seq<string>)
    ensures Committed(ParseFrom(START, tokens).p.nodes)
  {
    StopKeepsCommitted(START, tokens);
  }

  lemma AcceptedIsWellFormed(tokens: seq<string>)
    requires Parse(tokens).Some?
    ensures WellFormed(Parse(tokens).value)
  {
    ParseKeepsParsing(START, tokens);
    var p := ParseFrom(START, tokens).p;
    CommitLast(p.nodes, p.current.value);
  }

  /** What follows the node at a position. */
  function After(nodes: seq<Node>, i: nat): Option<Node> {
    if i + 1 < |nodes| then Some(nodes[i + 1]) else None
  }

  lemma {:induction false} AlternatingAt(nodes: seq<Node>, i: nat)
    requires Alternating(nodes) && i < |nodes|
    ensures if i % 2 == 0 then UnitOk(nodes[i], After(nodes, i)) else Operator(nodes[i])
  {
    if i >= 2 {
      AlternatingAt(nodes[2..], i - 2);
      assert nodes[i] == nodes[2..][i - 2] && After(nodes, i) == After(nodes[2..], i - 2);
    }
  }

  /** Units and operators take turns; every `cd` is last or followed by `&&`. */
  lemma AlternatingShape(nodes: seq<Node>)
    requires Alternating(nodes)
    ensures forall i :: 0 <= i < |nodes| ==> (Operator(nodes[i]) <==> i % 2 == 1)
    ensures forall i :: 0 <= i < |nodes| && nodes[i].Chdir? ==> After(nodes, i) in {None, Some(And)}
    ensures forall i :: 0 <= i < |nodes| && nodes[i].Command? ==>
              (nodes[i].stdout == ToPipe <==> After(nodes, i) == Some(Pipe))
  {
    forall i | 0 <= i < |nodes|
      ensures if i % 2 == 0 then UnitOk(nodes[i], After(nodes, i)) else Operator(nodes[i])
    {
      AlternatingAt(nodes, i);
    }
  }

  /** The shape of an accepted pipeline, which has one unit more than it has operators. */
  lemma WellFormedShape(nodes: seq<Node>)
    requires WellFormed(nodes)
    ensures |nodes| % 2 == 1
    ensures forall i :: 0 <= i < |nodes| ==> (Operator(nodes[i]) <==> i % 2 == 1)
    ensures forall i :: 0 <= i < |nodes| && nodes[i].Chdir? ==> After(nodes, i) in {None, Some(And)}
    ensures forall i :: 0 <= i < |nodes| && nodes[i].Command? ==>
              (nodes[i].stdout == ToPipe <==> After(nodes, i) == Some(Pipe))
  {
    AlternatingExactly(nodes);
    AlternatingShape(nodes);
  }

  // ----- Everything that is well formed is accepted

  ghost function EnvWords(env: map<string, string>): seq<string> {
    if env == map[] then [] else
      var name :| name in env;
      [name + "=" + env[name]] + EnvWords(env - {name})
  }

  function InputWords(stdin: Option<string>): seq<string> {
    if stdin.Some? then ["<", stdin.value] else []
  }

  function StdoutWords(out: Output): seq<string> {
    if out.ToFile? then [">", out.name] else []
  }

  function StderrWords(out: Output): seq<string> {
    match out
    case ToFile(name) => ["2>", name]
    case ToStdout => ["2>&1"]
    case _ => []
  }

  function DirWords(dir: Option<string>): seq<string> {
    if dir.Some? then [dir.value] else []
  }

  /** A way to write a node. */
  ghost function Words(n: Node): seq<string> {
    match n
    case Command(argv, stdin, stdout, stderr, env) =>
      EnvWords(env) + argv + InputWords(stdin) + StdoutWords(stdout) + StderrWords(stderr)
    case Chdir(dir) => ["cd"] + DirWords(dir)
    case Pipe => ["|"]
    case And => ["&&"]
    case Or => ["||"]
  }

  ghost function NodeWords(nodes: seq<Node>): (parts: seq<seq<string>>)
    ensures |parts| == |nodes|
  {
    seq(|nodes|, i requires 0 <= i < |nodes| => Words(nodes[i]))
  }

  ghost function AllWords(nodes: seq<Node>): seq<string> {
    Flatten(NodeWords(nodes))
  }

  lemma {:induction false} ParseAppend(p: Parser, tokens: seq<string>, more: seq<string>)
    requires ParserOk(p) && ParseFrom(p, tokens).Go?
    ensures ParseFrom(p, tokens + more) == ParseFrom(ParseFrom(p, tokens).p, more)
    decreases |tokens|
  {
    if tokens == [] {
      assert tokens + more == more;
    } else {
      assert (tokens + more)[1..] == tokens[1..] + more;
      ParseAppend(Step(p, tokens[0]).p, tokens[1..], more);
    }
  }

  lemma ParseOne(p: Parser, token: string)
    requires ParserOk(p)
    ensures ParseFrom(p, [token]) == Step(p, token)
  {
    assert [token][1..] == [];
  }

  lemma ParseTwo(p: Parser, token: string, other: string)
    requires ParserOk(p) && Step(p, token).Go?
    ensures ParseFrom(p, [token, other]) == Step(Step(p, token).p, other)
  {
    assert [token, other][1..] == [other];
    ParseOne(Step(p, token).p, other);
  }

  lemma {:induction false} NameRunStops(name: string, rest: string)
    requires (forall k :: 0 <= k < |name| ==> WordChar(name[k])) && rest != "" && !WordChar(rest[0])
    ensures NameRun(name + rest) == |name|
  {
    if name == "" {
      assert name + rest == rest;
    } else {
      assert (name + rest)[1..] == name[1..] + rest;
      NameRunStops(name[1..], rest);
    }
  }

  lemma EnvWordRead(name: string, value: string)
    requires IsName(name) && IsValue(value)
    ensures EnvVar(name + "=" + value) == Some((name, value))
  {
    var token := name + "=" + value;
    assert token == name + ("=" + value);
    NameRunStops(name, "=" + value);
    assert token[|name|] == '=' && token[..|name|] == name && token[|name| + 1..] == value;
    assert Space('\n');
    assert ChopLineEnd(value) == value;
  }

  /** A name, an equals sign and a text that begins a value. */
  lemma NameTaken(name: string, text: string)
    requires IsName(name)
    ensures var token := name + "=" + text;
      && NameRun(token) == |name| < |token| && token[|name|] == '='
      && token[..|name|] == name && token[|name| + 1..] == text
  {
    assert name + "=" + text == name + ("=" + text);
    NameRunStops(name, "=" + text);
  }

  lemma ChoppedWord(name: string, value: string)
    requires IsName(name) && IsValue(value)
    ensures EnvVar(name + "=" + (value + "\n")) == Some((name, value))
  {
    var text := value + "\n";
    NameTaken(name, text);
    assert text[..|text| - 1] == value && text[|text| - 1] == '\n';
  }

  /**
   A word is an assignment exactly if it is a name of letters, digits and
   underscores, an equals sign and a value without white space, and then perhaps
   a line end.
   */
  lemma EnvVarExactly(token: string, name: string, value: string)
    ensures EnvVar(token) == Some((name, value)) <==>
      && name != "" && value != ""
      && (forall k :: 0 <= k < |name| ==>
            '0' <= name[k] <= '9' || 'A' <= name[k] <= 'Z' || name[k] == '_' || 'a' <= name[k] <= 'z')
      && (forall k :: 0 <= k < |value| ==> value[k] as int !in {9, 10, 11, 12, 13, 32})
      && (token == name + "=" + value || token == name + "=" + (value + "\n"))
  {
    if EnvVar(token) == Some((name, value)) {
      EnvVarOk(token);
      var rest := token[|name| + 1..];
      assert token == name + "=" + rest;
      if ChopLineEnd(rest) != rest {
        assert rest == rest[..|rest| - 1] + "\n";
      }
    } else if IsName(name) && IsValue(value) {
      EnvWordRead(name, value);
      ChoppedWord(name, value);
    }
  }

  lemma OneLess(env: map<string, string>, name: string)
    requires name in env
    ensures |env - {name}| < |env|
  {
    assert env == (env - {name})[name := env[name]];
  }

  lemma TakeOut(base: map<string, string>, env: map<string, string>, name: string)
    requires name in env
    ensures base[name := env[name]] + (env - {name}) == base + env
  {
    var left, right := base[name := env[name]] + (env - {name}), base + env;
    assert left.Keys == right.Keys;
    forall x | x in right ensures left[x] == right[x] {
    }
  }

  lemma {:induction false} EnvRead(p: Parser, env: map<string, string>)
    requires p.mode == Begin && p.current == None && EnvOk(env)
    ensures ParseFrom(p, EnvWords(env)) == Go(p.(env := p.env + env))
    decreases |env|
  {
    if env == map[] {
      assert p.env + env == p.env;
    } else {
      var name :| name in env && EnvWords(env) == [name + "=" + env[name]] + EnvWords(env - {name});
      EnvWordRead(name, env[name]);
      OneLess(env, name);
      TakeOut(p.env, env, name);
      EnvRead(p.(env := p.env[name := env[name]]), env - {name});
    }
  }

  lemma {:induction false} ArgumentsRead(p: Parser, words: seq<string>)
    requires p.mode == InCommand && ParserOk(p)
    requires forall k :: 0 <= k < |words| ==> !OperatorWord(words[k])
    ensures ParseFrom(p, words)
         == Go(p.(current := Some(p.current.value.(argv := p.current.value.argv + words))))
    decreases |words|
  {
    var c := p.current.value;
    if words == [] {
      assert c.argv + words == c.argv;
    } else {
      assert !OperatorWord(words[0]);
      var q := p.(current := Some(c.(argv := c.argv + [words[0]])));
      assert Step(p, words[0]) == Go(q);
      ArgumentsRead(q, words[1..]);
      assert c.argv + [words[0]] + words[1..] == c.argv + words;
    }
  }

  /** A command that is being read. */
  function Reading(nodes: seq<Node>, c: Node): Parser {
    Parser(InCommand, Some(c), nodes, map[])
  }

  /** A command without its redirections. */
  function Bare(c: Node): Node
    requires c.Command?
  {
    c.(stdin := None, stdout := Unchanged, stderr := Unchanged)
  }

  lemma RedirectionsRead(nodes: seq<Node>, c: Node)
    requires CommandOk(c)
    ensures ParseFrom(Reading(nodes, Bare(c)), InputWords(c.stdin) + StdoutWords(c.stdout) + StderrWords(c.stderr))
         == Go(Reading(nodes, if c.stdout == ToPipe then c.(stdout := Unchanged) else c))
  {
    var bare := Bare(c);
    InputRead(nodes, bare, c.stdin);
    var one := bare.(stdin := c.stdin);
    StdoutRead(nodes, one, c.stdout);
    var two := if c.stdout == ToPipe then one else one.(stdout := c.stdout);
    StderrRead(nodes, two, c.stderr);
    ParseAppend(Reading(nodes, bare), InputWords(c.stdin), StdoutWords(c.stdout));
    ParseAppend(Reading(nodes, bare), InputWords(c.stdin) + StdoutWords(c.stdout), StderrWords(c.stderr));
  }

  lemma InputRead(nodes: seq<Node>, c: Node, stdin: Option<string>)
    requires c.Command? && c.stdin == None
    ensures ParseFrom(Reading(nodes, c), InputWords(stdin)) == Go(Reading(nodes, c.(stdin := stdin)))
  {
    if stdin.Some? {
      ParseTwo(Reading(nodes, c), "<", stdin.value);
    }
  }

  lemma StdoutRead(nodes: seq<Node>, c: Node, out: Output)
    requires c.Command? && c.stdout == Unchanged && out != ToStdout
    ensures ParseFrom(Reading(nodes, c), StdoutWords(out))
         == Go(Reading(nodes, if out == ToPipe then c else c.(stdout := out)))
  {
    if out.ToFile? {
      ParseTwo(Reading(nodes, c), ">", out.name);
    }
  }

  lemma StderrRead(nodes: seq<Node>, c: Node, out: Output)
    requires c.Command? && c.stderr == Unchanged && out != ToPipe
    ensures ParseFrom(Reading(nodes, c), StderrWords(out)) == Go(Reading(nodes, c.(stderr := out)))
  {
    match out
    case ToFile(name) => ParseTwo(Reading(nodes, c), "2>", name);
    case ToStdout => ParseOne(Reading(nodes, c), "2>&1");
    case _ =>
  }

  /** The parser before a unit. */
  function Fresh(nodes: seq<Node>): Parser {
    Parser(Begin, None, nodes, map[])
  }

  lemma ArgvRead(nodes: seq<Node>, c: Node)
    requires CommandOk(c)
    ensures ParseFrom(Fresh(nodes), EnvWords(c.env) + c.argv)
         == Go(Reading(nodes, Bare(c)))
  {
    EnvRead(Fresh(nodes), c.env);
    assert map[] + c.env == c.env;
    ParseAppend(Fresh(nodes), EnvWords(c.env), c.argv);
    var begun := Reading(nodes, Command([c.argv[0]], None, Unchanged, Unchanged, c.env));
    assert StepBegin(Fresh(nodes).(env := c.env), c.argv[0]) == Go(begun);
    ArgumentsRead(begun, c.argv[1..]);
    assert [c.argv[0]] + c.argv[1..] == c.argv;
  }

  lemma CommandRead(nodes: seq<Node>, c: Node)
    requires CommandOk(c)
    ensures ParseFrom(Fresh(nodes), Words(c))
         == Go(Reading(nodes, if c.stdout == ToPipe then c.(stdout := Unchanged) else c))
  {
    ArgvRead(nodes, c);
    RedirectionsRead(nodes, c);
    var redirections := InputWords(c.stdin) + StdoutWords(c.stdout) + StderrWords(c.stderr);
    ParseAppend(Fresh(nodes), EnvWords(c.env) + c.argv, redirections);
    assert EnvWords(c.env) + c.argv + redirections == Words(c);
  }

  lemma ChdirRead(nodes: seq<Node>, dir: Option<string>)
    requires dir != Some("&&")
    ensures ParseFrom(Fresh(nodes), Words(Chdir(dir))) == Go(Parser(InChdir, Some(Chdir(dir)), nodes, map[]))
  {
    assert NameRun("cd") == 2 by {
      assert "cd"[1..] == "d" && "d"[1..] == "";
    }
    if dir.Some? {
      assert ["cd"] + [dir.value] == ["cd", dir.value];
      ParseTwo(Fresh(nodes), "cd", dir.value);
    } else {
      assert ["cd"] + [] == ["cd"];
      ParseOne(Fresh(nodes), "cd");
    }
  }

  lemma UnitRead(nodes: seq<Node>, unit: Node, op: Node)
    requires UnitOk(unit, Some(op)) && Operator(op)
    ensures ParseFrom(Fresh(nodes), Words(unit) + Words(op)) == Go(Fresh(nodes + [unit, op]))
  {
    if unit.Chdir? {
      ChdirRead(nodes, unit.dir);
    } else {
      CommandRead(nodes, unit);
    }
    ParseAppend(Fresh(nodes), Words(unit), Words(op));
    ParseOne(ParseFrom(Fresh(nodes), Words(unit)).p, Words(op)[0]);
  }

  lemma LastRead(nodes: seq<Node>, unit: Node)
    requires UnitOk(unit, None)
    ensures var end := ParseFrom(Fresh(nodes), Words(unit));
            end.Go? && end.p.nodes == nodes && end.p.current == Some(unit)
  {
    if unit.Chdir? {
      ChdirRead(nodes, unit.dir);
    } else {
      CommandRead(nodes, unit);
    }
  }

  lemma FirstWords(nodes: seq<Node>)
    requires |nodes| >= 2
    ensures AllWords(nodes) == (Words(nodes[0]) + Words(nodes[1])) + AllWords(nodes[2..])
  {
    FlattenTwo(NodeWords(nodes));
    assert NodeWords(nodes)[2..] == NodeWords(nodes[2..]);
  }

  lemma OnlyWords(nodes: seq<Node>)
    requires |nodes| == 1
    ensures AllWords(nodes) == Words(nodes[0])
  {
    assert NodeWords(nodes) == [Words(nodes[0])];
    FlattenOne(Words(nodes[0]));
  }

  lemma FirstUnitRead(before: seq<Node>, nodes: seq<Node>, later: seq<string>)
    requires |nodes| >= 2 && UnitOk(nodes[0], Some(nodes[1])) && Operator(nodes[1])
    ensures ParseFrom(Fresh(before), (Words(nodes[0]) + Words(nodes[1])) + later)
         == ParseFrom(Fresh(before + [nodes[0], nodes[1]]), later)
  {
    UnitRead(before, nodes[0], nodes[1]);
    ParseAppend(Fresh(before), Words(nodes[0]) + Words(nodes[1]), later);
  }

  lemma {:induction false} WellFormedRead(before: seq<Node>, nodes: seq<Node>)
    requires WellFormed(nodes)
    ensures var end := ParseFrom(Fresh(before), AllWords(nodes));
            end.Go? && end.p.current.Some? && end.p.nodes + [end.p.current.value] == before + nodes
    decreases |nodes|
  {
    if |nodes| == 1 {
      LastRead(before, nodes[0]);
      OnlyWords(nodes);
    } else {
      FirstWords(nodes);
      FirstUnitRead(before, nodes, AllWords(nodes[2..]));
      WellFormedRead(before + [nodes[0], nodes[1]], nodes[2..]);
      assert before + [nodes[0], nodes[1]] + nodes[2..] == before + nodes;
    }
  }

  /** The words of a pipeline are read back as that pipeline. */
  lemma WordsRoundTrip(nodes: seq<Node>)
    requires WellFormed(nodes)
    ensures Parse(AllWords(nodes)) == Some(nodes)
  {
    WellFormedRead([], nodes);
    assert [] + nodes == nodes;
  }

  /** The parser accepts the well-formed pipelines, and nothing else. */
  lemma AcceptedExactly(nodes: seq<Node>)
    ensures WellFormed(nodes) <==> exists tokens :: Parse(tokens) == Some(nodes)
  {
    if WellFormed(nodes) {
      WordsRoundTrip(nodes);
    }
    if tokens :| Parse(tokens) == Some(nodes) {
      AcceptedIsWellFormed(tokens);
    }
  }
}

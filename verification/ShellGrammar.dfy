/**
 The command lines that the parser accepts, as a grammar: clauses with operators
 between them, and what pipeline each stands for.
 */
module ShellGrammar {
  import opened Common
  import opened ShellSyntax

  /** What may follow the name of a command, in any order. */
  datatype Item =
    | Argument(word: string)
    | InputFrom(file: string)
    | OutputTo(file: string)
    | ErrorsTo(file: string)
    | ErrorsToOutput

  datatype Clause =
    | Call(assignments: seq<string>, name: string, items: seq<Item>)
    | Change(dir: Option<string>)

  /** The end of a line, which may be cut off anywhere. */
  datatype Part =
    | Assigning(assignments: seq<string>)
    | Whole(clause: Clause)
    | Dangling(call: Clause, sign: string)

  /** Clauses, each with the operator behind it, and the end. */
  datatype Line = Line(done: seq<(Clause, Node)>, part: Part)

  // ----- The words of a line

  function ItemWords(item: Item): seq<string> {
    match item
    case Argument(word) => [word]
    case InputFrom(file) => ["<", file]
    case OutputTo(file) => [">", file]
    case ErrorsTo(file) => ["2>", file]
    case ErrorsToOutput => ["2>&1"]
  }

  function ItemsWords(items: seq<Item>): seq<string> {
    if items == [] then [] else ItemsWords(items[..|items| - 1]) + ItemWords(items[|items| - 1])
  }

  function ClauseWords(c: Clause): seq<string> {
    match c
    case Call(assignments, name, items) => assignments + [name] + ItemsWords(items)
    case Change(None) => ["cd"]
    case Change(Some(dir)) => ["cd", dir]
  }

  function Sign(op: Node): string {
    if op.Pipe? then "|" else if op.And? then "&&" else "||"
  }

  function DoneWords(done: seq<(Clause, Node)>): seq<string> {
    if done == [] then [] else
      var last := done[|done| - 1];
      DoneWords(done[..|done| - 1]) + (ClauseWords(last.0) + [Sign(last.1)])
  }

  function PartWords(part: Part): seq<string> {
    match part
    case Assigning(assignments) => assignments
    case Whole(clause) => ClauseWords(clause)
    case Dangling(call, sign) => ClauseWords(call) + [sign]
  }

  function LineWords(l: Line): seq<string> {
    DoneWords(l.done) + PartWords(l.part)
  }

  // ----- What is allowed

  predicate Errors(item: Item) {
    item.ErrorsTo? || item.ErrorsToOutput?
  }

  /** No two items redirect the same stream. */
  predicate Apart(a: Item, b: Item) {
    !(a.InputFrom? && b.InputFrom?) && !(a.OutputTo? && b.OutputTo?) && !(Errors(a) && Errors(b))
  }

  predicate ItemsOk(items: seq<Item>) {
    && (forall i :: 0 <= i < |items| && items[i].Argument? ==> !OperatorWord(items[i].word))
    && (forall i, j :: 0 <= i < j < |items| ==> Apart(items[i], items[j]))
  }

  predicate AssignmentsOk(assignments: seq<string>) {
    forall k :: 0 <= k < |assignments| ==> EnvVar(assignments[k]).Some?
  }

  predicate ClauseOk(c: Clause) {
    match c
    case Call(assignments, name, items) =>
      AssignmentsOk(assignments) && EnvVar(name).None? && name != "cd" && ItemsOk(items)
    case Change(dir) => dir != Some("&&")
  }

  /** A `cd` is followed by `&&` only, and what goes into a pipe goes nowhere else. */
  predicate FollowedOk(c: Clause, op: Node) {
    && ClauseOk(c) && Operator(op)
    && (c.Change? ==> op.And?)
    && (c.Call? && op.Pipe? ==> forall i :: 0 <= i < |c.items| ==> !c.items[i].OutputTo?)
  }

  predicate PartOk(part: Part) {
    match part
    case Assigning(assignments) => AssignmentsOk(assignments)
    case Whole(clause) => ClauseOk(clause)
    case Dangling(call, sign) => call.Call? && ClauseOk(call) && sign in {"<", ">", "2>"}
  }

  predicate DoneOk(done: seq<(Clause, Node)>) {
    forall k :: 0 <= k < |done| ==> FollowedOk(done[k].0, done[k].1)
  }

  predicate LineOk(l: Line) {
    DoneOk(l.done) && PartOk(l.part)
  }

  // ----- What a line stands for

  function Arguments(items: seq<Item>): seq<string> {
    if items == [] then [] else
      var last := items[|items| - 1];
      Arguments(items[..|items| - 1]) + if last.Argument? then [last.word] else []
  }

  function InputOf(items: seq<Item>): Option<string> {
    if items == [] then None else
      var last := items[|items| - 1];
      if last.InputFrom? then Some(last.file) else InputOf(items[..|items| - 1])
  }

  function OutputOf(items: seq<Item>): Output {
    if items == [] then Unchanged else
      var last := items[|items| - 1];
      if last.OutputTo? then ToFile(last.file) else OutputOf(items[..|items| - 1])
  }

  function ErrorsOf(items: seq<Item>): Output {
    if items == [] then Unchanged else
      var last := items[|items| - 1];
      if last.ErrorsTo? then ToFile(last.file)
      else if last.ErrorsToOutput? then ToStdout
      else ErrorsOf(items[..|items| - 1])
  }

  /** Later assignments to the same name win. */
  function EnvOf(assignments: seq<string>): map<string, string>
    requires AssignmentsOk(assignments)
  {
    if assignments == [] then map[] else
      var last := EnvVar(assignments[|assignments| - 1]).value;
      EnvOf(assignments[..|assignments| - 1])[last.0 := last.1]
  }

  function NodeOf(c: Clause): (n: Node)
    requires ClauseOk(c)
    ensures if c.Call? then n.Command? else n.Chdir?
  {
    match c
    case Call(assignments, name, items) =>
      Command([name] + Arguments(items), InputOf(items), OutputOf(items), ErrorsOf(items), EnvOf(assignments))
    case Change(dir) => Chdir(dir)
  }

  function UnitOf(c: Clause, op: Node): Node
    requires ClauseOk(c)
  {
    var n := NodeOf(c);
    if n.Command? && op.Pipe? then n.(stdout := ToPipe) else n
  }

  function DoneNodes(done: seq<(Clause, Node)>): seq<Node>
    requires DoneOk(done)
  {
    if done == [] then [] else
      var last := done[|done| - 1];
      assert FollowedOk(last.0, last.1);
      DoneNodes(done[..|done| - 1]) + [UnitOf(last.0, last.1), last.1]
  }

  /** The state of the parser behind the words of a line. */
  function StateOf(l: Line): (p: Parser)
    requires LineOk(l)
    ensures ParserOk(p)
  {
    var nodes := DoneNodes(l.done);
    match l.part
    case Assigning(assignments) => Parser(Begin, None, nodes, EnvOf(assignments))
    case Whole(c) => Parser(if c.Call? then InCommand else InChdir, Some(NodeOf(c)), nodes, map[])
    case Dangling(call, sign) =>
      Parser(if sign == "<" then FromStdinFile else if sign == ">" then ToStdoutFile else ToStderrFile,
             Some(NodeOf(call)), nodes, map[])
  }

  // ----- Items, one more

  lemma ItemsOneMore(items: seq<Item>, x: Item)
    ensures ItemsWords(items + [x]) == ItemsWords(items) + ItemWords(x)
    ensures Arguments(items + [x]) == Arguments(items) + if x.Argument? then [x.word] else []
    ensures InputOf(items + [x]) == if x.InputFrom? then Some(x.file) else InputOf(items)
    ensures OutputOf(items + [x]) == if x.OutputTo? then ToFile(x.file) else OutputOf(items)
    ensures ErrorsOf(items + [x]) ==
      if x.ErrorsTo? then ToFile(x.file) else if x.ErrorsToOutput? then ToStdout else ErrorsOf(items)
  {
    assert (items + [x])[..|items|] == items;
  }

  lemma {:induction false} StreamsFree(items: seq<Item>)
    ensures InputOf(items) == None <==> forall i :: 0 <= i < |items| ==> !items[i].InputFrom?
    ensures OutputOf(items) == Unchanged <==> forall i :: 0 <= i < |items| ==> !items[i].OutputTo?
    ensures ErrorsOf(items) == Unchanged <==> forall i :: 0 <= i < |items| ==> !Errors(items[i])
  {
    if items != [] {
      StreamsFree(items[..|items| - 1]);
    }
  }

  /** An item may be added if its word is none of the operators and its stream is still free. */
  predicate Fits(items: seq<Item>, x: Item) {
    match x
    case Argument(word) => !OperatorWord(word)
    case InputFrom(_) => InputOf(items) == None
    case OutputTo(_) => OutputOf(items) == Unchanged
    case _ => ErrorsOf(items) == Unchanged
  }

  lemma FitsExactly(items: seq<Item>, x: Item)
    ensures ItemsOk(items + [x]) <==> ItemsOk(items) && Fits(items, x)
  {
    StreamsFree(items);
    var more := items + [x];
    assert forall i :: 0 <= i < |items| ==> more[i] == items[i];
    assert more[|items|] == x;
    if ItemsOk(more) {
      assert forall i :: 0 <= i < |items| ==> Apart(more[i], more[|items|]);
    }
  }

  lemma EnvOneMore(assignments: seq<string>, a: string)
    requires AssignmentsOk(assignments) && EnvVar(a).Some?
    ensures AssignmentsOk(assignments + [a])
    ensures EnvOf(assignments + [a]) == EnvOf(assignments)[EnvVar(a).value.0 := EnvVar(a).value.1]
  {
    assert (assignments + [a])[..|assignments|] == assignments;
  }

  lemma NoEnv(assignments: seq<string>)
    requires AssignmentsOk(assignments)
    ensures EnvOf(assignments) == map[] <==> assignments == []
  {
    if assignments != [] {
      assert EnvVar(assignments[|assignments| - 1]).value.0 in EnvOf(assignments);
    }
  }

  // ----- Lines, one more word

  function Redirected(sign: string, file: string): Item {
    if sign == "<" then InputFrom(file) else if sign == ">" then OutputTo(file) else ErrorsTo(file)
  }

  function OpOf(word: string): Node {
    if word == "|" then Pipe else if word == "&&" then And else Or
  }

  /** The line with one more item, if that may be added. */
  function WithItem(done: seq<(Clause, Node)>, c: Clause, x: Item): Option<Line>
    requires c.Call?
  {
    if Fits(c.items, x) then Some(Line(done, Whole(c.(items := c.items + [x])))) else None
  }

  function Closed(done: seq<(Clause, Node)>, c: Clause, word: string): Option<Line> {
    if c.Call? && word == "|" && OutputOf(c.items) != Unchanged then None
    else Some(Line(done + [(c, OpOf(word))], Assigning([])))
  }

  /** The line with one more word, if there is one. */
  function Extended(l: Line, word: string): Option<Line>
    requires LineOk(l)
  {
    match l.part
    case Assigning(assignments) =>
      if EnvVar(word).Some? then Some(l.(part := Assigning(assignments + [word])))
      else if word != "cd" then Some(l.(part := Whole(Call(assignments, word, []))))
      else if assignments == [] then Some(l.(part := Whole(Change(None))))
      else None
    case Whole(Change(dir)) =>
      if word == "&&" then Closed(l.done, Change(dir), word)
      else if dir == None then Some(l.(part := Whole(Change(Some(word)))))
      else None
    case Whole(call) =>
      if word in {"<", ">", "2>"} then Some(l.(part := Dangling(call, word)))
      else if word in {"|", "&&", "||"} then Closed(l.done, call, word)
      else WithItem(l.done, call, if word == "2>&1" then ErrorsToOutput else Argument(word))
    case Dangling(call, sign) => WithItem(l.done, call, Redirected(sign, word))
  }

  lemma Associates(a: seq<string>, b: seq<string>, c: seq<string>)
    ensures a + (b + c) == a + b + c
  {
  }

  // ----- The words of an extended line

  ghost predicate WordsFollow(l: Line, word: string)
    requires LineOk(l)
  {
    var m := Extended(l, word);
    m.Some? ==> LineWords(m.value) == LineWords(l) + [word]
  }

  lemma PartWordsFollow(l: Line, part: Part, word: string)
    requires PartWords(part) == PartWords(l.part) + [word]
    ensures LineWords(l.(part := part)) == LineWords(l) + [word]
  {
    Associates(DoneWords(l.done), PartWords(l.part), [word]);
  }

  lemma DoneWordsOneMore(done: seq<(Clause, Node)>, c: Clause, op: Node)
    ensures DoneWords(done + [(c, op)]) == DoneWords(done) + (ClauseWords(c) + [Sign(op)])
  {
    assert (done + [(c, op)])[..|done|] == done;
  }

  lemma ClosedWords(l: Line, c: Clause, op: Node)
    requires l.part == Whole(c)
    ensures LineWords(Line(l.done + [(c, op)], Assigning([]))) == LineWords(l) + [Sign(op)]
  {
    DoneWordsOneMore(l.done, c, op);
    Associates(DoneWords(l.done), ClauseWords(c), [Sign(op)]);
  }

  lemma CallWords(c: Clause, x: Item)
    requires c.Call?
    ensures ClauseWords(c.(items := c.items + [x])) == ClauseWords(c) + ItemWords(x)
  {
    ItemsOneMore(c.items, x);
    Associates(c.assignments + [c.name], ItemsWords(c.items), ItemWords(x));
  }

  lemma AssigningWords(l: Line, word: string)
    requires LineOk(l) && l.part.Assigning?
    ensures WordsFollow(l, word)
  {
    var assignments := l.part.assignments;
    if EnvVar(word).Some? {
      PartWordsFollow(l, Assigning(assignments + [word]), word);
    } else if word != "cd" {
      assert assignments + [word] + [] == assignments + [word];
      PartWordsFollow(l, Whole(Call(assignments, word, [])), word);
    } else if assignments == [] {
      assert [] + ["cd"] == ["cd"];
      PartWordsFollow(l, Whole(Change(None)), word);
    }
  }

  lemma ChangeWords(l: Line, c: Clause, word: string)
    requires LineOk(l) && l.part == Whole(c) && c.Change?
    ensures WordsFollow(l, word)
  {
    if word == "&&" {
      ClosedWords(l, c, And);
    } else if c.dir == None {
      assert ["cd"] + [word] == ["cd", word];
      PartWordsFollow(l, Whole(Change(Some(word))), word);
    }
  }

  lemma CallWordsFollow(l: Line, c: Clause, word: string)
    requires LineOk(l) && l.part == Whole(c) && c.Call?
    ensures WordsFollow(l, word)
  {
    if word in {"<", ">", "2>"} {
      PartWordsFollow(l, Dangling(c, word), word);
    } else if word in {"|", "&&", "||"} {
      assert Sign(OpOf(word)) == word;
      ClosedWords(l, c, OpOf(word));
    } else {
      var x := if word == "2>&1" then ErrorsToOutput else Argument(word);
      assert ItemWords(x) == [word];
      CallWords(c, x);
      PartWordsFollow(l, Whole(c.(items := c.items + [x])), word);
    }
  }

  lemma RedirectedWords(sign: string, word: string)
    requires sign in {"<", ">", "2>"}
    ensures ItemWords(Redirected(sign, word)) == [sign] + [word]
  {
  }

  lemma DanglingWords(l: Line, word: string)
    requires LineOk(l) && l.part.Dangling?
    ensures WordsFollow(l, word)
  {
    var c, x := l.part.call, Redirected(l.part.sign, word);
    RedirectedWords(l.part.sign, word);
    CallWords(c, x);
    Associates(ClauseWords(c), [l.part.sign], [word]);
    PartWordsFollow(l, Whole(c.(items := c.items + [x])), word);
  }

  lemma ExtendedWords(l: Line, word: string)
    requires LineOk(l)
    ensures WordsFollow(l, word)
  {
    match l.part
    case Assigning(_) => AssigningWords(l, word);
    case Dangling(_, _) => DanglingWords(l, word);
    case Whole(c) =>
      if c.Call? {
        CallWordsFollow(l, c, word);
      } else {
        ChangeWords(l, c, word);
      }
  }

  // ----- The state behind an extended line

  /** One more word in the text is one more step of the parser. */
  ghost predicate Follows(l: Line, word: string)
    requires LineOk(l)
  {
    match Extended(l, word)
    case None => Step(StateOf(l), word).Stop?
    case Some(m) => LineOk(m) && Step(StateOf(l), word) == Go(StateOf(m))
  }

  lemma AssigningFollows(l: Line, word: string)
    requires LineOk(l) && l.part.Assigning?
    ensures Follows(l, word)
  {
    if EnvVar(word).Some? {
      EnvOneMore(l.part.assignments, word);
    } else if word == "cd" {
      NoEnv(l.part.assignments);
    } else {
      assert [word] + [] == [word];
    }
  }

  lemma DoneOneMore(done: seq<(Clause, Node)>, c: Clause, op: Node)
    requires DoneOk(done) && FollowedOk(c, op)
    ensures DoneOk(done + [(c, op)])
    ensures DoneNodes(done + [(c, op)]) == DoneNodes(done) + [UnitOf(c, op), op]
  {
    assert (done + [(c, op)])[..|done|] == done;
  }

  lemma PipeFollows(l: Line, c: Clause)
    requires LineOk(l) && l.part == Whole(c) && c.Call?
    ensures Follows(l, "|")
  {
    StreamsFree(c.items);
    if OutputOf(c.items) == Unchanged {
      DoneOneMore(l.done, c, Pipe);
    }
  }

  lemma CallAndFollows(l: Line, c: Clause)
    requires LineOk(l) && l.part == Whole(c) && c.Call?
    ensures Follows(l, "&&")
  {
    DoneOneMore(l.done, c, And);
  }

  lemma ChangeAndFollows(l: Line, c: Clause)
    requires LineOk(l) && l.part == Whole(c) && c.Change?
    ensures Follows(l, "&&")
  {
    DoneOneMore(l.done, c, And);
  }

  lemma OrFollows(l: Line, c: Clause)
    requires LineOk(l) && l.part == Whole(c) && c.Call?
    ensures Follows(l, "||")
  {
    DoneOneMore(l.done, c, Or);
  }

  lemma ChangeFollows(l: Line, word: string)
    requires LineOk(l) && l.part.Whole? && l.part.clause.Change? && word != "&&"
    ensures Follows(l, word)
  {
  }

  /** A call with one more item, and the node that it stands for. */
  lemma CallOneMore(c: Clause, x: Item)
    requires c.Call? && ClauseOk(c) && Fits(c.items, x)
    ensures var d := c.(items := c.items + [x]);
      && ClauseOk(d)
      && NodeOf(d) == (match x
        case Argument(word) => NodeOf(c).(argv := NodeOf(c).argv + [word])
        case InputFrom(file) => NodeOf(c).(stdin := Some(file))
        case OutputTo(file) => NodeOf(c).(stdout := ToFile(file))
        case ErrorsTo(file) => NodeOf(c).(stderr := ToFile(file))
        case ErrorsToOutput => NodeOf(c).(stderr := ToStdout))
  {
    FitsExactly(c.items, x);
    ItemsOneMore(c.items, x);
    if x.Argument? {
      Associates([c.name], Arguments(c.items), [x.word]);
    }
  }

  lemma WordFollows(l: Line, word: string)
    requires LineOk(l) && l.part.Whole? && l.part.clause.Call?
    requires word !in {"<", ">", "2>"} && word !in {"|", "&&", "||"}
    ensures Follows(l, word)
  {
    var c, x := l.part.clause, if word == "2>&1" then ErrorsToOutput else Argument(word);
    if Fits(c.items, x) {
      CallOneMore(c, x);
    }
  }

  lemma SignFollows(l: Line, word: string)
    requires LineOk(l) && l.part.Whole? && l.part.clause.Call? && word in {"<", ">", "2>"}
    ensures Follows(l, word)
  {
  }

  /** The parser takes an item into the call exactly if its stream is still free. */
  ghost predicate Taken(l: Line, x: Item, next: Progress)
    requires LineOk(l) && l.part.Dangling?
  {
    if Fits(l.part.call.items, x) then
      var d := l.part.call.(items := l.part.call.items + [x]);
      ClauseOk(d) && next == Go(StateOf(Line(l.done, Whole(d))))
    else next.Stop?
  }

  lemma InputStep(l: Line, word: string)
    requires LineOk(l) && l.part.Dangling? && l.part.sign == "<"
    ensures Taken(l, InputFrom(word), Step(StateOf(l), word))
  {
    if Fits(l.part.call.items, InputFrom(word)) {
      CallOneMore(l.part.call, InputFrom(word));
    }
  }

  lemma OutputStep(l: Line, word: string)
    requires LineOk(l) && l.part.Dangling? && l.part.sign == ">"
    ensures Taken(l, OutputTo(word), Step(StateOf(l), word))
  {
    if Fits(l.part.call.items, OutputTo(word)) {
      CallOneMore(l.part.call, OutputTo(word));
    }
  }

  lemma ErrorsStep(l: Line, word: string)
    requires LineOk(l) && l.part.Dangling? && l.part.sign == "2>"
    ensures Taken(l, ErrorsTo(word), Step(StateOf(l), word))
  {
    if Fits(l.part.call.items, ErrorsTo(word)) {
      CallOneMore(l.part.call, ErrorsTo(word));
    }
  }

  lemma FileFollows(l: Line, word: string)
    requires LineOk(l) && l.part.Dangling?
    ensures Follows(l, word)
  {
    if l.part.sign == "<" {
      InputStep(l, word);
    } else if l.part.sign == ">" {
      OutputStep(l, word);
    } else {
      ErrorsStep(l, word);
    }
  }

  lemma ExtendedFollows(l: Line, word: string)
    requires LineOk(l)
    ensures Follows(l, word) && WordsFollow(l, word)
  {
    ExtendedWords(l, word);
    match l.part
    case Assigning(_) => AssigningFollows(l, word);
    case Dangling(_, _) => FileFollows(l, word);
    case Whole(c) =>
      if c.Change? && word == "&&" {
        ChangeAndFollows(l, c);
      } else if c.Change? {
        ChangeFollows(l, word);
      } else if word == "&&" {
        CallAndFollows(l, c);
      } else if word == "|" {
        PipeFollows(l, c);
      } else if word == "||" {
        OrFollows(l, c);
      } else if word in {"<", ">", "2>"} {
        SignFollows(l, word);
      } else {
        WordFollows(l, word);
      }
  }

  /** Every line is the extension of one that is a word shorter. */
  lemma Shortened(l: Line) returns (m: Line, word: string)
    requires LineOk(l) && LineWords(l) != []
    ensures LineOk(m) && Extended(m, word) == Some(l)
  {
    if l.part == Assigning([]) {
      m, word := ShortenedDone(l);
    } else if l.part.Assigning? {
      m, word := ShortenedAssignment(l);
    } else if l.part.Dangling? {
      m, word := l.(part := Whole(l.part.call)), l.part.sign;
    } else if l.part.clause.Change? {
      m, word := ShortenedChange(l);
    } else if l.part.clause.items == [] {
      m, word := l.(part := Assigning(l.part.clause.assignments)), l.part.clause.name;
    } else {
      m, word := ShortenedItem(l);
    }
  }

  lemma ShortenedAssignment(l: Line) returns (m: Line, word: string)
    requires LineOk(l) && l.part.Assigning? && l.part.assignments != []
    ensures LineOk(m) && Extended(m, word) == Some(l)
  {
    var n := |l.part.assignments| - 1;
    m, word := l.(part := Assigning(l.part.assignments[..n])), l.part.assignments[n];
    assert l.part.assignments[..n] + [word] == l.part.assignments;
  }

  lemma ShortenedChange(l: Line) returns (m: Line, word: string)
    requires LineOk(l) && l.part.Whole? && l.part.clause.Change?
    ensures LineOk(m) && Extended(m, word) == Some(l)
  {
    if l.part.clause.dir == None {
      NotAnAssignment();
      m, word := l.(part := Assigning([])), "cd";
    } else {
      m, word := l.(part := Whole(Change(None))), l.part.clause.dir.value;
    }
  }

  lemma NotAnAssignment()
    ensures EnvVar("cd").None?
  {
    assert NameRun("cd") == 2 by {
      assert "cd"[1..] == "d" && "d"[1..] == "";
    }
  }

  lemma ShortenedDone(l: Line) returns (m: Line, word: string)
    requires LineOk(l) && l.part == Assigning([]) && l.done != []
    ensures LineOk(m) && Extended(m, word) == Some(l)
  {
    var n := |l.done| - 1;
    var c, op := l.done[n].0, l.done[n].1;
    assert FollowedOk(c, op);
    if c.Call? {
      StreamsFree(c.items);
    }
    m, word := Line(l.done[..n], Whole(c)), Sign(op);
    assert l.done[..n] + [(c, op)] == l.done;
  }

  lemma ShortenedItem(l: Line) returns (m: Line, word: string)
    requires LineOk(l) && l.part.Whole? && l.part.clause.Call? && l.part.clause.items != []
    ensures LineOk(m) && Extended(m, word) == Some(l)
  {
    var c := l.part.clause;
    var n := |c.items| - 1;
    var d, x := c.(items := c.items[..n]), c.items[n];
    assert c.items[..n] + [x] == c.items;
    FitsExactly(c.items[..n], x);
    match x
    case Argument(w) => m, word := l.(part := Whole(d)), w;
    case ErrorsToOutput => m, word := l.(part := Whole(d)), "2>&1";
    case InputFrom(file) => m, word := l.(part := Dangling(d, "<")), file;
    case OutputTo(file) => m, word := l.(part := Dangling(d, ">")), file;
    case ErrorsTo(file) => m, word := l.(part := Dangling(d, "2>")), file;
  }

  // ----- The lines that are accepted

  lemma {:induction false} ParseOneMore(p: Parser, tokens: seq<string>, token: string)
    requires ParserOk(p)
    ensures ParseFrom(p, tokens + [token]) ==
      if ParseFrom(p, tokens).Stop? then ParseFrom(p, tokens) else Step(ParseFrom(p, tokens).p, token)
    decreases |tokens|
  {
    if tokens == [] {
      assert [] + [token] == [token];
      ParseOne(p, token);
    } else {
      assert (tokens + [token])[1..] == tokens[1..] + [token];
      if Step(p, tokens[0]).Go? {
        ParseOneMore(Step(p, tokens[0]).p, tokens[1..], token);
      }
    }
  }

  /** The words of a line take the parser to its state. */
  lemma {:induction false} LineIsRead(l: Line)
    requires LineOk(l)
    ensures ParseFrom(START, LineWords(l)) == Go(StateOf(l))
    decreases |LineWords(l)|
  {
    if LineWords(l) == [] {
      EmptyLine(l);
    } else {
      var m, word := Shortened(l);
      ExtendedFollows(m, word);
      LineIsRead(m);
      ParseOneMore(START, LineWords(m), word);
    }
  }

  lemma EmptyLine(l: Line)
    requires LineOk(l) && LineWords(l) == []
    ensures StateOf(l) == START
  {
  }

  /** Whatever the parser has read is a line. */
  lemma {:induction false} ReadIsLine(tokens: seq<string>) returns (l: Line)
    requires ParseFrom(START, tokens).Go?
    ensures LineOk(l) && LineWords(l) == tokens && StateOf(l) == ParseFrom(START, tokens).p
    decreases |tokens|
  {
    if tokens == [] {
      l := Line([], Assigning([]));
      assert [] + [] == tokens;
    } else {
      var n := |tokens| - 1;
      assert tokens == tokens[..n] + [tokens[n]];
      ParseOneMore(START, tokens[..n], tokens[n]);
      var before := ReadIsLine(tokens[..n]);
      ExtendedFollows(before, tokens[n]);
      l := Extended(before, tokens[n]).value;
    }
  }

  /** The pipeline that a line stands for, unless nothing has been begun at its end. */
  function NodesOf(l: Line): Option<seq<Node>>
    requires LineOk(l)
  {
    match l.part
    case Assigning(_) => None
    case Whole(c) => Some(DoneNodes(l.done) + [NodeOf(c)])
    case Dangling(c, _) => Some(DoneNodes(l.done) + [NodeOf(c)])
  }

  ghost predicate Spells(l: Line, tokens: seq<string>, nodes: seq<Node>) {
    LineOk(l) && LineWords(l) == tokens && NodesOf(l) == Some(nodes)
  }

  /**
   A list of tokens is accepted, and makes a pipeline, exactly if it is made of
   clauses: assignments, a name, then arguments and redirections in any order, no
   stream redirected twice; or a `cd` with at most one directory.  A redirection
   at the very end of the line may lack its file.
   */
  lemma AcceptsExactly(tokens: seq<string>, nodes: seq<Node>)
    ensures Parse(tokens) == Some(nodes) <==> exists l :: Spells(l, tokens, nodes)
  {
    if Parse(tokens) == Some(nodes) {
      var l := ReadIsLine(tokens);
      assert Spells(l, tokens, nodes);
    }
    if l :| Spells(l, tokens, nodes) {
      LineIsRead(l);
    }
  }
}

/**
 The worker pool that runs the tests: a main thread that feeds jobs and then
 poison pills into a queue, workers that take from it and answer into another
 queue, and an interrupt flag that may be raised at any moment.  Each step below
 is one atomic action; a run interleaves them in any order.
 */
module WorkerPool {
  import opened Common

  /** The jobs in the order of dispatch, each marked as to be skipped or not. */
  datatype Config = Config(skips: seq<bool>, processors: nat) {
    ghost function Total(): nat {
      |skips| + processors
    }

    /** The k-th thing put into the input queue: first the jobs, then the pills. */
    ghost function Item(k: nat): Job {
      if k < |skips| then Job(k, skips[k], false, 0) else Job(k, false, true, 0)
    }
  }

  datatype Job = Job(id: nat, isSkip: bool, isBreak: bool, returncode: int)

  /** Where a worker is in its loop. */
  datatype Worker = Getting | Got(job: Job) | Running(job: Job) | Putting(job: Job) | Exited(job: Job)

  datatype Main = Feeding | Collecting | Joining(joined: nat) | Finished(status: int)

  datatype Tally = Tally(passed: nat, failed: nat, valgrind: nat, crashed: nat, skipped: nat)

  datatype State = State(put: nat, input: seq<Job>, workers: seq<Worker>, output: seq<Job>,
                         collected: seq<Job>, tally: Tally, main: Main, threadExit: bool)

  ghost predicate Init(c: Config, s: State) {
    s == State(0, [], seq(c.processors, _ => Getting), [], [], Tally(0, 0, 0, 0, 0), Feeding, false)
  }

  // ----- The steps

  /** What a worker does with the job it has just got. */
  function Look(threadExit: bool, job: Job): Worker {
    if job.isBreak then Exited(job)
    else if threadExit then Putting(job.(isBreak := true))
    else if job.isSkip then Putting(job)
    else Running(job)
  }

  ghost predicate WorkerStep(s: State, i: nat, u: State)
    requires i < |s.workers|
  {
    match s.workers[i]
    case Getting => s.input != [] && u == s.(input := s.input[1..], workers := s.workers[i := Got(s.input[0])])
    case Got(job) => u == s.(workers := s.workers[i := Look(s.threadExit, job)])
    case Running(job) => Returns(s, i, u)
    case Putting(job) => u == s.(output := s.output + [job], workers := s.workers[i := Getting])
    case Exited(_) => false
  }

  /** The process that was run ends with some exit code. */
  ghost predicate Returns(s: State, i: nat, u: State)
    requires i < |s.workers| && s.workers[i].Running?
  {
    exists code: int :: u == s.(workers := s.workers[i := Putting(s.workers[i].job.(returncode := code))])
  }

  /** The bookkeeping for one answer; an answer marked as a break is ignored. */
  function Count(t: Tally, job: Job): Tally {
    if job.isBreak then t
    else if job.isSkip then t.(skipped := t.skipped + 1)
    else if job.returncode == 0 then t.(passed := t.passed + 1)
    else if job.returncode == 1 then t.(failed := t.failed + 1)
    else if job.returncode == 2 then t.(valgrind := t.valgrind + 1)
    else t.(crashed := t.crashed + 1)
  }

  ghost predicate MainStep(c: Config, s: State, u: State) {
    match s.main
    case Feeding =>
      if s.put < c.Total() then u == s.(input := s.input + [c.Item(s.put)], put := s.put + 1)
      else u == s.(main := Collecting)
    case Collecting =>
      if |s.collected| < |c.skips| then
        && s.output != []
        && u == s.(output := s.output[1..], collected := s.collected + [s.output[0]],
                   tally := Count(s.tally, s.output[0]))
      else u == s.(main := Joining(0))
    case Joining(k) =>
      if k < |s.workers| then s.workers[k].Exited? && u == s.(main := Joining(k + 1))
      else u == s.(main := Finished(if s.tally.passed + s.tally.skipped == |c.skips| then 0 else 1))
    case Finished(_) => false
  }

  ghost predicate Interrupt(s: State, u: State) {
    u == s.(threadExit := true)
  }

  /** A step of the program itself. */
  ghost predicate ProgramStep(c: Config, s: State, u: State) {
    MainStep(c, s, u) || exists i :: 0 <= i < |s.workers| && WorkerStep(s, i, u)
  }

  ghost predicate Run(c: Config, states: seq<State>) {
    && |states| > 0 && Init(c, states[0])
    && forall k :: 0 < k < |states| ==> ProgramStep(c, states[k - 1], states[k]) || Interrupt(states[k - 1], states[k])
  }

  // ----- Who holds which job

  ghost function CountIn(jobs: seq<Job>, id: nat): nat {
    if jobs == [] then 0 else CountIn(jobs[..|jobs| - 1], id) + if jobs[|jobs| - 1].id == id then 1 else 0
  }

  ghost function InHand(w: Worker, id: nat): nat {
    if !w.Getting? && w.job.id == id then 1 else 0
  }

  ghost function HeldCount(workers: seq<Worker>, id: nat): nat {
    if workers == [] then 0 else HeldCount(workers[..|workers| - 1], id) + InHand(workers[|workers| - 1], id)
  }

  /** How many times the number `id` is found in the queues, in the workers' hands and among the answers. */
  ghost function Everywhere(s: State, id: nat): nat {
    CountIn(s.input, id) + HeldCount(s.workers, id) + CountIn(s.output, id) + CountIn(s.collected, id)
  }

  lemma CountAppend(jobs: seq<Job>, job: Job, id: nat)
    ensures CountIn(jobs + [job], id) == CountIn(jobs, id) + if job.id == id then 1 else 0
  {
    assert (jobs + [job])[..|jobs|] == jobs;
  }

  lemma {:induction false} CountFront(jobs: seq<Job>, id: nat)
    requires jobs != []
    ensures CountIn(jobs, id) == CountIn(jobs[1..], id) + if jobs[0].id == id then 1 else 0
  {
    var n := |jobs| - 1;
    if n > 0 {
      CountFront(jobs[..n], id);
      assert jobs[..n][1..] == jobs[1..][..n - 1];
    }
  }

  lemma {:induction false} CountPositive(jobs: seq<Job>, id: nat)
    ensures CountIn(jobs, id) > 0 <==> exists i :: 0 <= i < |jobs| && jobs[i].id == id
  {
    if jobs != [] {
      var n := |jobs| - 1;
      CountPositive(jobs[..n], id);
      if i :| 0 <= i < n && jobs[i].id == id {
        assert jobs[..n][i].id == id;
      }
    }
  }

  lemma {:induction false} CountTwice(jobs: seq<Job>, i: nat, j: nat)
    requires i < j < |jobs| && jobs[i].id == jobs[j].id
    ensures CountIn(jobs, jobs[i].id) >= 2
  {
    var n := |jobs| - 1;
    if j < n {
      CountTwice(jobs[..n], i, j);
    } else {
      CountPositive(jobs[..n], jobs[i].id);
      assert jobs[..n][i].id == jobs[i].id;
    }
  }

  lemma {:induction false} HeldUpdate(workers: seq<Worker>, i: nat, w: Worker, id: nat)
    requires i < |workers|
    ensures HeldCount(workers[i := w], id) + InHand(workers[i], id) == HeldCount(workers, id) + InHand(w, id)
  {
    var n := |workers| - 1;
    if i < n {
      HeldUpdate(workers[..n], i, w, id);
      assert workers[i := w][..n] == workers[..n][i := w];
    } else {
      assert workers[i := w][..n] == workers[..n];
    }
  }

  lemma {:induction false} HeldPositive(workers: seq<Worker>, id: nat)
    ensures HeldCount(workers, id) > 0 <==> exists i :: 0 <= i < |workers| && InHand(workers[i], id) == 1
  {
    if workers != [] {
      var n := |workers| - 1;
      HeldPositive(workers[..n], id);
      if i :| 0 <= i < n && InHand(workers[i], id) == 1 {
        assert InHand(workers[..n][i], id) == 1;
      }
    }
  }

  lemma {:induction false} HeldTwice(workers: seq<Worker>, i: nat, j: nat, id: nat)
    requires i < j < |workers| && InHand(workers[i], id) == 1 == InHand(workers[j], id)
    ensures HeldCount(workers, id) >= 2
  {
    var n := |workers| - 1;
    if j < n {
      HeldTwice(workers[..n], i, j, id);
    } else {
      HeldPositive(workers[..n], id);
      assert InHand(workers[..n][i], id) == 1;
    }
  }

  // ----- The invariant

  /** Everything put is in exactly one place, and nothing else is anywhere. */
  ghost predicate OnceEach(s: State) {
    forall id: nat {:trigger Everywhere(s, id)} :: Everywhere(s, id) == if id < s.put then 1 else 0
  }

  /** The input queue holds what was put last, in order. */
  ghost predicate Fifo(c: Config, s: State) {
    && |s.input| <= s.put <= c.Total()
    && forall k :: 0 <= k < |s.input| ==> s.input[k] == c.Item(s.put - |s.input| + k)
  }

  /** A job keeps its number and its mark, and is broken off only by the interrupt. */
  ghost predicate Genuine(c: Config, threadExit: bool, job: Job) {
    job.id < |c.skips| && job.isSkip == c.skips[job.id] && (job.isBreak ==> threadExit)
  }

  /** `taken` is how many things have been taken from the input queue. */
  ghost predicate WorkerOk(c: Config, threadExit: bool, taken: nat, w: Worker) {
    match w
    case Getting => true
    case Got(job) => job.id < taken <= c.Total() && job == c.Item(job.id)
    case Running(job) => Genuine(c, threadExit, job) && !job.isBreak && !job.isSkip
    case Putting(job) => Genuine(c, threadExit, job)
    case Exited(job) => |c.skips| <= job.id < taken
  }

  ghost predicate WorkersOk(c: Config, s: State) {
    && |s.workers| == c.processors && |s.input| <= s.put
    && forall i :: 0 <= i < |s.workers| ==> WorkerOk(c, s.threadExit, s.put - |s.input|, s.workers[i])
  }

  ghost predicate AnswersOk(c: Config, threadExit: bool, answers: seq<Job>) {
    forall k :: 0 <= k < |answers| ==> Genuine(c, threadExit, answers[k])
  }

  ghost function TallyOf(jobs: seq<Job>): Tally {
    if jobs == [] then Tally(0, 0, 0, 0, 0) else Count(TallyOf(jobs[..|jobs| - 1]), jobs[|jobs| - 1])
  }

  ghost predicate MainOk(c: Config, s: State) {
    && (!s.main.Feeding? ==> s.put == c.Total())
    && (s.main.Joining? || s.main.Finished? ==> |s.collected| == |c.skips|)
    && (s.main.Joining? ==> s.main.joined <= |s.workers| && forall k :: 0 <= k < s.main.joined ==> s.workers[k].Exited?)
    && (s.main.Finished? ==> forall k :: 0 <= k < |s.workers| ==> s.workers[k].Exited?)
    && (s.main.Finished? ==> s.main.status == if s.tally.passed + s.tally.skipped == |c.skips| then 0 else 1)
    && |s.collected| <= |c.skips| && s.tally == TallyOf(s.collected)
  }

  ghost predicate Inv(c: Config, s: State) {
    && OnceEach(s) && Fifo(c, s) && WorkersOk(c, s) && MainOk(c, s)
    && AnswersOk(c, s.threadExit, s.output) && AnswersOk(c, s.threadExit, s.collected)
  }

  lemma {:induction false} HeldNobody(workers: seq<Worker>, id: nat)
    requires forall i :: 0 <= i < |workers| ==> workers[i].Getting?
    ensures HeldCount(workers, id) == 0
  {
    if workers != [] {
      HeldNobody(workers[..|workers| - 1], id);
    }
  }

  lemma InitInv(c: Config, s: State)
    requires Init(c, s)
    ensures Inv(c, s)
  {
    forall id: nat ensures Everywhere(s, id) == 0 {
      HeldNobody(s.workers, id);
    }
  }

  /** A step of a worker moves a job from one place to another. */
  lemma WorkerStepMoves(s: State, i: nat, u: State, id: nat)
    requires i < |s.workers| && WorkerStep(s, i, u)
    ensures Everywhere(u, id) == Everywhere(s, id) && u.put == s.put
  {
    HeldUpdate(s.workers, i, u.workers[i], id);
    match s.workers[i]
    case Getting => CountFront(s.input, id);
    case Got(job) => assert InHand(u.workers[i], id) == InHand(s.workers[i], id);
    case Running(job) => assert InHand(u.workers[i], id) == InHand(s.workers[i], id);
    case Putting(job) => CountAppend(s.output, job, id);
    case Exited(_) =>
  }

  lemma WorkerStepOnceEach(s: State, i: nat, u: State)
    requires OnceEach(s) && i < |s.workers| && WorkerStep(s, i, u)
    ensures OnceEach(u)
  {
    forall id: nat ensures Everywhere(u, id) == if id < u.put then 1 else 0 {
      WorkerStepMoves(s, i, u, id);
      assert Everywhere(s, id) == if id < s.put then 1 else 0;
    }
  }

  lemma WorkerStepWorkersOk(c: Config, s: State, i: nat, u: State)
    requires Fifo(c, s) && WorkersOk(c, s) && i < |s.workers| && WorkerStep(s, i, u)
    ensures WorkersOk(c, u)
  {
    assert WorkerOk(c, s.threadExit, s.put - |s.input|, s.workers[i]);
    if s.workers[i].Getting? {
      assert s.input[0] == c.Item(s.put - |s.input|);
    }
  }

  lemma WorkerStepInv(c: Config, s: State, i: nat, u: State)
    requires Inv(c, s) && i < |s.workers| && WorkerStep(s, i, u)
    ensures Inv(c, u)
  {
    WorkerStepOnceEach(s, i, u);
    WorkerStepWorkersOk(c, s, i, u);
    WorkerStepFifo(c, s, i, u);
    WorkerStepAnswersOk(c, s, i, u);
    WorkerStepMainOk(c, s, i, u);
  }

  lemma WorkerStepFifo(c: Config, s: State, i: nat, u: State)
    requires Fifo(c, s) && i < |s.workers| && WorkerStep(s, i, u)
    ensures Fifo(c, u)
  {
  }

  lemma WorkerStepAnswersOk(c: Config, s: State, i: nat, u: State)
    requires WorkersOk(c, s) && i < |s.workers| && WorkerStep(s, i, u)
    requires AnswersOk(c, s.threadExit, s.output) && AnswersOk(c, s.threadExit, s.collected)
    ensures AnswersOk(c, u.threadExit, u.output) && AnswersOk(c, u.threadExit, u.collected)
  {
    assert WorkerOk(c, s.threadExit, s.put - |s.input|, s.workers[i]);
  }

  /** Only a worker that has not left takes a step, so those waited for stay as they are. */
  lemma WorkerStepMainOk(c: Config, s: State, i: nat, u: State)
    requires MainOk(c, s) && i < |s.workers| && WorkerStep(s, i, u)
    ensures MainOk(c, u)
  {
  }

  lemma MainStepOnceEach(c: Config, s: State, u: State)
    requires OnceEach(s) && MainStep(c, s, u)
    ensures OnceEach(u)
  {
    forall id: nat ensures Everywhere(u, id) == if id < u.put then 1 else 0 {
      assert Everywhere(s, id) == if id < s.put then 1 else 0;
      if s.main.Feeding? && s.put < c.Total() {
        CountAppend(s.input, c.Item(s.put), id);
      } else if s.main.Collecting? && |s.collected| < |c.skips| {
        CountFront(s.output, id);
        CountAppend(s.collected, s.output[0], id);
      }
    }
  }

  lemma MainStepMainOk(c: Config, s: State, u: State)
    requires MainOk(c, s) && s.put <= c.Total() && MainStep(c, s, u)
    ensures MainOk(c, u)
  {
    if s.main.Collecting? && |s.collected| < |c.skips| {
      assert u.collected[..|s.collected|] == s.collected;
    }
  }

  lemma MainStepQueuesOk(c: Config, s: State, u: State)
    requires Fifo(c, s) && WorkersOk(c, s) && MainStep(c, s, u)
    ensures Fifo(c, u) && WorkersOk(c, u)
  {
    if s.main.Feeding? && s.put < c.Total() {
      FeedKeepsFifo(c, s, u);
    } else {
      assert u.input == s.input && u.put == s.put && u.workers == s.workers && u.threadExit == s.threadExit;
    }
  }

  lemma FeedKeepsFifo(c: Config, s: State, u: State)
    requires Fifo(c, s) && s.put < c.Total() && u == s.(input := s.input + [c.Item(s.put)], put := s.put + 1)
    ensures Fifo(c, u)
  {
  }

  lemma MainStepInv(c: Config, s: State, u: State)
    requires Inv(c, s) && MainStep(c, s, u)
    ensures Inv(c, u)
  {
    MainStepOnceEach(c, s, u);
    MainStepMainOk(c, s, u);
    MainStepQueuesOk(c, s, u);
  }

  lemma InterruptInv(c: Config, s: State, u: State)
    requires Inv(c, s) && Interrupt(s, u)
    ensures Inv(c, u)
  {
    forall id: nat ensures Everywhere(u, id) == Everywhere(s, id) {
    }
  }

  lemma {:induction false} RunInv(c: Config, states: seq<State>)
    requires Run(c, states)
    ensures Inv(c, states[|states| - 1])
  {
    var n := |states| - 1;
    if n == 0 {
      InitInv(c, states[0]);
    } else {
      RunInv(c, states[..n]);
      var s, u := states[n - 1], states[n];
      if MainStep(c, s, u) {
        MainStepInv(c, s, u);
      } else if Interrupt(s, u) {
        InterruptInv(c, s, u);
      } else {
        var i :| 0 <= i < |s.workers| && WorkerStep(s, i, u);
        WorkerStepInv(c, s, i, u);
      }
    }
  }

  // ----- No real job is left behind a pill

  /**
   Once any worker has met a pill, every job is out of the input queue, and
   what is left there are pills.
   */
  lemma NothingBehindAPill(c: Config, s: State, i: nat)
    requires Inv(c, s) && i < |s.workers|
    requires s.workers[i].Exited? || (s.workers[i].Got? && s.workers[i].job.isBreak)
    ensures s.put - |s.input| > |c.skips|
    ensures forall k :: 0 <= k < |s.input| ==> s.input[k].isBreak && s.input[k].id > |c.skips|
  {
    assert WorkerOk(c, s.threadExit, s.put - |s.input|, s.workers[i]);
  }

  // ----- Progress

  ghost function Range(lo: nat, hi: nat): (r: set<nat>)
    requires lo <= hi
    ensures |r| == hi - lo
    ensures forall x: nat :: x in r <==> lo <= x < hi
    decreases hi
  {
    if lo == hi then {} else Range(lo, hi - 1) + {hi - 1}
  }

  lemma HandIsUnique(s: State, i: nat, j: nat)
    requires OnceEach(s) && i < j < |s.workers| && !s.workers[i].Getting? && !s.workers[j].Getting?
    ensures s.workers[i].job.id != s.workers[j].job.id
  {
    var id := s.workers[i].job.id;
    assert Everywhere(s, id) <= 1;
    if id == s.workers[j].job.id {
      HeldTwice(s.workers, i, j, id);
    }
  }

  /** When all the workers have left, they have taken all the pills with them. */
  lemma AllExited(c: Config, s: State)
    requires Inv(c, s) && c.processors > 0 && forall i :: 0 <= i < |s.workers| ==> s.workers[i].Exited?
    ensures s.put == c.Total() && s.input == []
  {
    var n, taken := |c.skips|, s.put - |s.input|;
    assert WorkerOk(c, s.threadExit, taken, s.workers[0]);
    var ids := seq(|s.workers|, i requires 0 <= i < |s.workers| => s.workers[i].job.id);
    forall i, j | 0 <= i < j < |ids| ensures ids[i] != ids[j] {
      HandIsUnique(s, i, j);
    }
    forall i | 0 <= i < |ids| ensures ids[i] in Range(n, taken) {
      assert WorkerOk(c, s.threadExit, taken, s.workers[i]);
    }
    DistinctBound(ids, Range(n, taken));
  }

  /** A job that is nowhere else is in the hands of a worker that is still at it. */
  lemma UncollectedJobIsHeld(c: Config, s: State) returns (i: nat)
    requires Inv(c, s) && s.put == c.Total() && |s.collected| < |c.skips|
    requires s.output == [] && s.input == []
    ensures i < |s.workers| && !s.workers[i].Getting? && !s.workers[i].Exited?
  {
    var n := |c.skips|;
    var ids := seq(|s.collected|, k requires 0 <= k < |s.collected| => s.collected[k].id);
    if forall x :: x in Range(0, n) ==> x in ids {
      CoverBound(ids, Range(0, n));
    }
    var id :| id in Range(0, n) && id !in ids;
    assert Everywhere(s, id) == 1;
    assert forall k :: 0 <= k < |s.collected| ==> ids[k] == s.collected[k].id;
    CountPositive(s.collected, id);
    HeldPositive(s.workers, id);
    i :| 0 <= i < |s.workers| && InHand(s.workers[i], id) == 1;
    assert WorkerOk(c, s.threadExit, s.put, s.workers[i]);
  }

  /** The pills are as many as the workers, so a worker without one means that one is left. */
  lemma PillLeftFor(c: Config, s: State, j: nat)
    requires Inv(c, s) && s.put == c.Total() && j < |s.workers| && s.workers[j].Getting?
    ensures s.input != []
  {
    var n, others := |c.skips|, s.workers[..j] + s.workers[j + 1..];
    var ids := seq(|others|, k requires 0 <= k < |others| => if others[k].Getting? then 0 else others[k].job.id);
    if s.input == [] {
      forall x | x in Range(n, c.Total()) ensures x in ids {
        assert Everywhere(s, x) == 1;
        NoPillAnswered(c, s.threadExit, s.output, x);
        NoPillAnswered(c, s.threadExit, s.collected, x);
        HeldPositive(s.workers, x);
        var i :| 0 <= i < |s.workers| && InHand(s.workers[i], x) == 1;
        assert ids[if i < j then i else i - 1] == x;
      }
      CoverBound(ids, Range(n, c.Total()));
    }
  }

  lemma NoPillAnswered(c: Config, threadExit: bool, answers: seq<Job>, id: nat)
    requires AnswersOk(c, threadExit, answers) && id >= |c.skips|
    ensures CountIn(answers, id) == 0
  {
    CountPositive(answers, id);
  }

  /** A worker with something in hand, or with something to get, can go on. */
  lemma WorkerCanStep(s: State, i: nat)
    requires i < |s.workers| && !s.workers[i].Exited? && (s.workers[i].Getting? ==> s.input != [])
    ensures exists u :: WorkerStep(s, i, u)
  {
    match s.workers[i]
    case Getting => assert WorkerStep(s, i, s.(input := s.input[1..], workers := s.workers[i := Got(s.input[0])]));
    case Got(job) => assert WorkerStep(s, i, s.(workers := s.workers[i := Look(s.threadExit, job)]));
    case Running(job) =>
      var u := s.(workers := s.workers[i := Putting(job.(returncode := 0))]);
      assert Returns(s, i, u);
      assert WorkerStep(s, i, u);
    case Putting(job) => assert WorkerStep(s, i, s.(output := s.output + [job], workers := s.workers[i := Getting]));
  }

  ghost predicate CanStep(c: Config, s: State) {
    exists u :: ProgramStep(c, s, u)
  }

  lemma WorkerMakesProgress(c: Config, s: State, i: nat)
    requires i < |s.workers| && !s.workers[i].Exited? && (s.workers[i].Getting? ==> s.input != [])
    ensures CanStep(c, s)
  {
    WorkerCanStep(s, i);
    var u :| WorkerStep(s, i, u);
    assert ProgramStep(c, s, u);
  }

  lemma MainMakesProgress(c: Config, s: State, u: State)
    requires MainStep(c, s, u)
    ensures CanStep(c, s)
  {
    assert ProgramStep(c, s, u);
  }

  /** No reachable state is stuck before the main thread has finished. */
  lemma NeverStuck(c: Config, s: State)
    requires Inv(c, s) && c.processors > 0 && !s.main.Finished?
    ensures CanStep(c, s)
  {
    match s.main
    case Feeding =>
      if s.put < c.Total() {
        MainMakesProgress(c, s, s.(input := s.input + [c.Item(s.put)], put := s.put + 1));
      } else {
        MainMakesProgress(c, s, s.(main := Collecting));
      }
    case Collecting =>
      if |s.collected| >= |c.skips| {
        MainMakesProgress(c, s, s.(main := Joining(0)));
      } else if s.output != [] {
        MainMakesProgress(c, s, s.(output := s.output[1..], collected := s.collected + [s.output[0]],
                                   tally := Count(s.tally, s.output[0])));
      } else if s.input == [] {
        var i := UncollectedJobIsHeld(c, s);
        WorkerMakesProgress(c, s, i);
      } else if i :| 0 <= i < |s.workers| && !s.workers[i].Exited? {
        WorkerMakesProgress(c, s, i);
      } else {
        AllExited(c, s);
      }
    case Joining(k) =>
      if k == |s.workers| {
        MainMakesProgress(c, s, s.(main := Finished(if s.tally.passed + s.tally.skipped == |c.skips| then 0 else 1)));
      } else if s.workers[k].Exited? {
        MainMakesProgress(c, s, s.(main := Joining(k + 1)));
      } else {
        if s.workers[k].Getting? {
          PillLeftFor(c, s, k);
        }
        WorkerMakesProgress(c, s, k);
      }
  }

  // ----- Termination

  ghost function WorkerWork(w: Worker): nat {
    match w
    case Getting => 0
    case Got(_) => 4
    case Running(_) => 3
    case Putting(_) => 2
    case Exited(_) => 0
  }

  ghost function WorkersWork(workers: seq<Worker>): nat {
    if workers == [] then 0 else WorkersWork(workers[..|workers| - 1]) + WorkerWork(workers[|workers| - 1])
  }

  ghost function MainWork(s: State): int {
    match s.main
    case Feeding => |s.workers| + 3
    case Collecting => |s.workers| + 2
    case Joining(k) => |s.workers| - k + 1
    case Finished(_) => 0
  }

  /** How many steps the program can still make, at most. */
  ghost function WorkLeft(c: Config, s: State): int {
    6 * (c.Total() - s.put) + 5 * |s.input| + WorkersWork(s.workers) + |s.output| + MainWork(s)
  }

  lemma {:induction false} WorkUpdate(workers: seq<Worker>, i: nat, w: Worker)
    requires i < |workers|
    ensures WorkersWork(workers[i := w]) + WorkerWork(workers[i]) == WorkersWork(workers) + WorkerWork(w)
  {
    var n := |workers| - 1;
    if i < n {
      WorkUpdate(workers[..n], i, w);
      assert workers[i := w][..n] == workers[..n][i := w];
    } else {
      assert workers[i := w][..n] == workers[..n];
    }
  }

  lemma WorkerStepUsesWork(c: Config, s: State, i: nat, u: State)
    requires Inv(c, s) && Inv(c, u) && i < |s.workers| && WorkerStep(s, i, u)
    ensures 0 <= WorkLeft(c, u) < WorkLeft(c, s)
  {
    WorkUpdate(s.workers, i, u.workers[i]);
    assert u.put == s.put && u.main == s.main && |u.workers| == |s.workers|;
  }

  /** Every step of the program uses up some of the work that is left. */
  lemma StepUsesWork(c: Config, s: State, u: State)
    requires Inv(c, s) && Inv(c, u) && ProgramStep(c, s, u)
    ensures 0 <= WorkLeft(c, u) < WorkLeft(c, s)
  {
    if !MainStep(c, s, u) {
      var i :| 0 <= i < |s.workers| && WorkerStep(s, i, u);
      WorkerStepUsesWork(c, s, i, u);
    }
  }

  /** The steps of the program in a run; raising the flag is none. */
  ghost function ProgramSteps(c: Config, states: seq<State>): nat {
    if |states| <= 1 then 0 else
      ProgramSteps(c, states[..|states| - 1]) +
      if ProgramStep(c, states[|states| - 2], states[|states| - 1]) then 1 else 0
  }

  lemma {:induction false} NobodyWorks(workers: seq<Worker>)
    requires forall i :: 0 <= i < |workers| ==> workers[i].Getting?
    ensures WorkersWork(workers) == 0
  {
    if workers != [] {
      NobodyWorks(workers[..|workers| - 1]);
    }
  }

  /**
   Every run comes to an end: whatever the interleaving, the program makes at
   most six steps for each job and seven for each worker, and three more.
   */
  lemma {:induction false} RunIsBounded(c: Config, states: seq<State>)
    requires Run(c, states)
    ensures ProgramSteps(c, states) <= 6 * |c.skips| + 7 * c.processors + 3 - WorkLeft(c, states[|states| - 1])
    ensures WorkLeft(c, states[|states| - 1]) >= 0
  {
    var n := |states| - 1;
    if n == 0 {
      NobodyWorks(states[0].workers);
    } else {
      RunIsBounded(c, states[..n]);
      LastStepUsesWork(c, states);
    }
  }

  lemma LastStepUsesWork(c: Config, states: seq<State>)
    requires Run(c, states) && |states| > 1
    ensures var s, u := states[|states| - 2], states[|states| - 1];
      (if ProgramStep(c, s, u) then 1 else 0) + WorkLeft(c, u) <= WorkLeft(c, s) && WorkLeft(c, u) >= 0
  {
    var s, u := states[|states| - 2], states[|states| - 1];
    RunInv(c, states);
    ShorterRunInv(c, states);
    assert ProgramStep(c, s, u) || Interrupt(s, u);
    NextUsesWork(c, s, u);
  }

  lemma ShorterRunInv(c: Config, states: seq<State>)
    requires Run(c, states) && |states| > 1
    ensures Inv(c, states[|states| - 2])
  {
    RunInv(c, states[..|states| - 1]);
  }

  lemma NextUsesWork(c: Config, s: State, u: State)
    requires Inv(c, s) && Inv(c, u) && (ProgramStep(c, s, u) || Interrupt(s, u))
    ensures (if ProgramStep(c, s, u) then 1 else 0) + WorkLeft(c, u) <= WorkLeft(c, s)
    ensures WorkLeft(c, u) >= 0
  {
    if ProgramStep(c, s, u) {
      StepUsesWork(c, s, u);
    }
  }

  // ----- What has been done when the main thread finishes

  /**
   Each job that was dispatched has been answered exactly once, the queues are
   empty and all the workers have left.
   */
  lemma FinishedExactlyOnce(c: Config, states: seq<State>, id: nat)
    requires Run(c, states) && states[|states| - 1].main.Finished? && c.processors > 0
    ensures var s := states[|states| - 1];
      && CountIn(s.collected, id) == (if id < |c.skips| then 1 else 0)
      && s.input == [] && s.output == []
      && forall i :: 0 <= i < |s.workers| ==> s.workers[i].Exited?
  {
    var s := states[|states| - 1];
    RunInv(c, states);
    AllExited(c, s);
    AllCollected(c, s, id);
    if s.output != [] {
      var x := s.output[0].id;
      assert Genuine(c, s.threadExit, s.output[0]) && Everywhere(s, x) <= 1;
      AllCollected(c, s, x);
      CountPositive(s.output, x);
    }
  }

  lemma CollectedDiffer(s: State)
    requires OnceEach(s)
    ensures forall i, j :: 0 <= i < j < |s.collected| ==> s.collected[i].id != s.collected[j].id
  {
    forall i, j | 0 <= i < j < |s.collected| ensures s.collected[i].id != s.collected[j].id {
      assert Everywhere(s, s.collected[i].id) <= 1;
      if s.collected[i].id == s.collected[j].id {
        CountTwice(s.collected, i, j);
      }
    }
  }

  /** With one job missing fewer have been collected than there are. */
  lemma FewerCollected(c: Config, s: State, id: nat)
    requires OnceEach(s) && AnswersOk(c, s.threadExit, s.collected)
    requires id < |c.skips| && CountIn(s.collected, id) == 0
    ensures |s.collected| < |c.skips|
  {
    var others := Range(0, |c.skips|) - {id};
    var ids := seq(|s.collected|, k requires 0 <= k < |s.collected| => s.collected[k].id);
    CountPositive(s.collected, id);
    CollectedDiffer(s);
    forall k | 0 <= k < |ids| ensures ids[k] in others {
      assert Genuine(c, s.threadExit, s.collected[k]);
    }
    DistinctBound(ids, others);
  }

  lemma AllCollected(c: Config, s: State, id: nat)
    requires Inv(c, s) && |s.collected| == |c.skips|
    ensures CountIn(s.collected, id) == if id < |c.skips| then 1 else 0
  {
    assert Everywhere(s, id) <= 1;
    if id >= |c.skips| {
      NoPillAnswered(c, s.threadExit, s.collected, id);
    } else if CountIn(s.collected, id) == 0 {
      FewerCollected(c, s, id);
    }
  }

  /** A job did well if it was skipped, or was run and returned 0. */
  predicate DidWell(job: Job) {
    !job.isBreak && (job.isSkip || job.returncode == 0)
  }

  lemma {:induction false} TallyBound(jobs: seq<Job>)
    ensures var t := TallyOf(jobs);
      && t.passed + t.skipped <= |jobs|
      && (t.passed + t.skipped == |jobs| <==> forall k :: 0 <= k < |jobs| ==> DidWell(jobs[k]))
  {
    if jobs != [] {
      var n := |jobs| - 1;
      TallyBound(jobs[..n]);
      assert forall k :: 0 <= k < n ==> jobs[..n][k] == jobs[k];
    }
  }

  /** The exit status is 0 exactly when every job that was dispatched did well. */
  lemma Verdict(c: Config, states: seq<State>)
    requires Run(c, states) && states[|states| - 1].main.Finished?
    ensures var s := states[|states| - 1];
      && (s.main.status == 0 <==> forall k :: 0 <= k < |s.collected| ==> DidWell(s.collected[k]))
      && (forall k :: 0 <= k < |s.collected| ==>
            && s.collected[k].id < |c.skips|
            && s.collected[k].isSkip == c.skips[s.collected[k].id]
            && (s.collected[k].isBreak ==> s.threadExit))
  {
    RunInv(c, states);
    TallyBound(states[|states| - 1].collected);
  }

  /** How many of the jobs are of some kind. */
  ghost function HowMany(jobs: seq<Job>, kind: Job -> bool): nat {
    if jobs == [] then 0 else HowMany(jobs[..|jobs| - 1], kind) + if kind(jobs[|jobs| - 1]) then 1 else 0
  }

  /** A job that was run, by what its program returned. */
  ghost predicate Returned(job: Job, code: int) {
    !job.isBreak && !job.isSkip && job.returncode == code
  }

  ghost predicate Tallied(jobs: seq<Job>, t: Tally) {
    && t.passed == HowMany(jobs, (job: Job) => Returned(job, 0))
    && t.failed == HowMany(jobs, (job: Job) => Returned(job, 1))
    && t.valgrind == HowMany(jobs, (job: Job) => Returned(job, 2))
    && t.crashed == HowMany(jobs, (job: Job) =>
         !job.isBreak && !job.isSkip && job.returncode !in {0, 1, 2})
    && t.skipped == HowMany(jobs, (job: Job) => !job.isBreak && job.isSkip)
  }

  lemma {:induction false} TallyOfCounts(jobs: seq<Job>)
    ensures Tallied(jobs, TallyOf(jobs))
  {
    if jobs != [] {
      TallyOfCounts(jobs[..|jobs| - 1]);
    }
  }

  /** At every moment of a run each counter is the number of the answers of its kind collected so far. */
  lemma TallyExactly(c: Config, states: seq<State>)
    requires Run(c, states)
    ensures Tallied(states[|states| - 1].collected, states[|states| - 1].tally)
  {
    RunInv(c, states);
    TallyOfCounts(states[|states| - 1].collected);
  }

  // ----- The answers are collected in the order in which they are given

  /** Everything that has been put on the output queue, in order. */
  function Answers(s: State): seq<Job> {
    s.collected + s.output
  }

  lemma StepKeepsAnswers(c: Config, s: State, u: State)
    requires ProgramStep(c, s, u) || Interrupt(s, u)
    ensures Answers(s) <= Answers(u)
  {
    if i :| 0 <= i < |s.workers| && WorkerStep(s, i, u) {
      if s.workers[i].Putting? {
        assert Answers(u) == Answers(s) + [s.workers[i].job];
      }
    } else if MainStep(c, s, u) && s.main.Collecting? && |s.collected| < |c.skips| {
      assert s.output == [s.output[0]] + s.output[1..];
      assert Answers(u) == Answers(s);
    }
  }

  lemma RunKeepsAnswers(c: Config, states: seq<State>, j: nat)
    requires Run(c, states) && 0 < j < |states|
    ensures Answers(states[j - 1]) <= Answers(states[j])
  {
    StepKeepsAnswers(c, states[j - 1], states[j]);
  }

  /**
   In every interleaving what has been answered stays, in its place: later
   answers come behind it, and collecting only moves the border.
   */
  lemma {:induction false} AnswersKeepOrder(c: Config, states: seq<State>, i: nat, j: nat)
    requires Run(c, states) && i <= j < |states|
    ensures Answers(states[i]) <= Answers(states[j])
    decreases j
  {
    if i < j {
      AnswersKeepOrder(c, states, i, j - 1);
      RunKeepsAnswers(c, states, j);
      PrefixTransitive(Answers(states[i]), Answers(states[j - 1]), Answers(states[j]));
    }
  }
}

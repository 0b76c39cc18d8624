/** Which of the jobs are run in a run of the worker pool, how often, and with what result. */
module WorkerLaunches {
  import opened WorkerPool

  /** Worker `i` runs the program of job `id` at point `n` of a run. */
  ghost predicate RunsAt(states: seq<State>, n: nat, i: nat, id: nat) {
    n < |states| && i < |states[n].workers| && states[n].workers[i].Running? && states[n].workers[i].job.id == id
  }

  /** The program ends right after point `n`, and `job` is what its worker then holds. */
  ghost predicate EndsAt(states: seq<State>, n: nat, i: nat, job: Job) {
    && RunsAt(states, n, i, job.id) && n + 1 < |states|
    && states[n + 1].workers == states[n].workers[i := Putting(job)]
  }

  /** The job comes from the end of its program. */
  ghost predicate RanTo(states: seq<State>, job: Job) {
    exists n: nat, i: nat :: EndsAt(states, n, i, job)
  }

  /** Worker `i` is about to answer with the job. */
  ghost predicate PutsAt(states: seq<State>, n: nat, i: nat, job: Job) {
    n < |states| && i < |states[n].workers| && states[n].workers[i] == Putting(job)
  }

  ghost predicate PassedOn(states: seq<State>, job: Job) {
    exists n: nat, i: nat :: PutsAt(states, n, i, job)
  }

  /** An answer that is not broken off has been run, or has been passed on if it is to be skipped. */
  ghost predicate Earned(states: seq<State>, job: Job) {
    job.isBreak || if job.isSkip then PassedOn(states, job) else RanTo(states, job)
  }

  ghost predicate HandsEarned(states: seq<State>, workers: seq<Worker>) {
    forall i :: 0 <= i < |workers| && workers[i].Putting? ==> Earned(states, workers[i].job)
  }

  ghost predicate AnswersEarned(states: seq<State>, answers: seq<Job>) {
    forall k :: 0 <= k < |answers| ==> Earned(states, answers[k])
  }

  ghost predicate AllEarned(states: seq<State>, s: State) {
    HandsEarned(states, s.workers) && AnswersEarned(states, Answers(s))
  }

  lemma EarnedLater(states: seq<State>, u: State, job: Job)
    requires Earned(states, job)
    ensures Earned(states + [u], job)
  {
    if n: nat, i: nat :| EndsAt(states, n, i, job) {
      assert EndsAt(states + [u], n, i, job);
    }
    if n: nat, i: nat :| PutsAt(states, n, i, job) {
      assert PutsAt(states + [u], n, i, job);
    }
  }

  lemma AllEarnedLater(states: seq<State>, s: State, u: State)
    requires AllEarned(states, s)
    ensures AllEarned(states + [u], s)
  {
    forall job | Earned(states, job) ensures Earned(states + [u], job) {
      EarnedLater(states, u, job);
    }
  }

  /** The worker that takes a step holds something earned afterwards. */
  lemma StepEarns(states: seq<State>, s: State, i: nat, u: State)
    requires states != [] && s == states[|states| - 1] && AllEarned(states, s)
    requires i < |s.workers| && WorkerStep(s, i, u)
    ensures AllEarned(states + [u], u)
  {
    var more := states + [u];
    AllEarnedLater(states, s, u);
    if s.workers[i].Running? {
      var job := u.workers[i].job;
      assert EndsAt(more, |states| - 1, i, job);
      assert PutsAt(more, |states|, i, job);
      assert Answers(u) == Answers(s);
    } else if s.workers[i].Putting? {
      assert Answers(u) == Answers(s) + [s.workers[i].job];
    } else {
      assert PutsAt(more, |states|, i, u.workers[i].job) <==> u.workers[i].Putting?;
      assert Answers(u) == Answers(s);
    }
  }

  lemma OtherStepKeepsEarned(c: Config, states: seq<State>, s: State, u: State)
    requires AllEarned(states, s) && (MainStep(c, s, u) || Interrupt(s, u))
    ensures AllEarned(states + [u], u)
  {
    AllEarnedLater(states, s, u);
    if MainStep(c, s, u) && s.main.Collecting? && |s.collected| < |c.skips| {
      assert s.output == [s.output[0]] + s.output[1..];
    }
    assert Answers(u) == Answers(s) && u.workers == s.workers;
  }

  lemma {:induction false} RunEarns(c: Config, states: seq<State>)
    requires Run(c, states)
    ensures AllEarned(states, states[|states| - 1])
  {
    var n := |states| - 1;
    if n > 0 {
      RunEarns(c, states[..n]);
      var s, u := states[n - 1], states[n];
      assert states == states[..n] + [u];
      if i :| 0 <= i < |s.workers| && WorkerStep(s, i, u) {
        StepEarns(states[..n], s, i, u);
      } else {
        OtherStepKeepsEarned(c, states[..n], s, u);
      }
    }
  }

  // ----- A job that was run is not broken off

  /** The job has been run or skipped, or, when `running` counts too, is being run. */
  ghost predicate Launched(s: State, id: nat, running: bool) {
    || (exists i :: 0 <= i < |s.workers| && HasRun(s.workers[i], id, running))
    || (exists k :: 0 <= k < |Answers(s)| && Answered(Answers(s)[k], id))
  }

  ghost predicate HasRun(w: Worker, id: nat, running: bool) {
    ((running && w.Running?) || w.Putting?) && Answered(w.job, id)
  }

  ghost predicate Answered(job: Job, id: nat) {
    job.id == id && !job.isBreak
  }

  lemma WorkerKeepsLaunched(s: State, i: nat, u: State, id: nat, running: bool)
    requires i < |s.workers| && WorkerStep(s, i, u) && Launched(s, id, running)
    ensures Launched(u, id, running)
  {
    if s.workers[i].Putting? {
      assert Answers(u) == Answers(s) + [s.workers[i].job];
    } else {
      assert Answers(u) == Answers(s);
    }
    if j :| 0 <= j < |s.workers| && HasRun(s.workers[j], id, running) {
      if j == i && s.workers[i].Putting? {
        assert Answered(Answers(u)[|Answers(s)|], id);
      } else {
        assert HasRun(u.workers[j], id, running);
      }
    } else {
      var k :| 0 <= k < |Answers(s)| && Answered(Answers(s)[k], id);
      assert Answered(Answers(u)[k], id);
    }
  }

  lemma StepKeepsLaunched(c: Config, s: State, u: State, id: nat, running: bool)
    requires (ProgramStep(c, s, u) || Interrupt(s, u)) && Launched(s, id, running)
    ensures Launched(u, id, running)
  {
    if i :| 0 <= i < |s.workers| && WorkerStep(s, i, u) {
      WorkerKeepsLaunched(s, i, u, id, running);
    } else {
      if s.main.Collecting? && |s.collected| < |c.skips| && MainStep(c, s, u) {
        assert s.output == [s.output[0]] + s.output[1..];
      }
      assert Answers(u) == Answers(s) && u.workers == s.workers;
    }
  }

  lemma RunInvAt(c: Config, states: seq<State>, n: nat)
    requires Run(c, states) && n < |states|
    ensures Inv(c, states[n])
  {
    RunInv(c, states[..n + 1]);
  }

  lemma RunningIsLaunched(c: Config, states: seq<State>, n: nat, i: nat, id: nat)
    requires Run(c, states) && RunsAt(states, n, i, id)
    ensures Launched(states[n], id, true) && id < |c.skips| && !c.skips[id]
  {
    RunInvAt(c, states, n);
    assert WorkerOk(c, states[n].threadExit, states[n].put - |states[n].input|, states[n].workers[i]);
    assert HasRun(states[n].workers[i], id, true);
  }

  lemma {:induction false} LaunchedStays(c: Config, states: seq<State>, m: nat, n: nat, id: nat, running: bool)
    requires Run(c, states) && m <= n < |states| && Launched(states[m], id, running)
    ensures Launched(states[n], id, running)
    decreases n
  {
    if m < n {
      LaunchedStays(c, states, m, n - 1, id, running);
      StepKeepsLaunched(c, states[n - 1], states[n], id, running);
    }
  }

  /** A collected job is nowhere else, and has been collected once. */
  lemma CollectedIsLaunched(c: Config, s: State, k: nat)
    requires OnceEach(s) && k < |s.collected| && Launched(s, s.collected[k].id, true)
    ensures !s.collected[k].isBreak
  {
    var id := s.collected[k].id;
    assert Everywhere(s, id) <= 1;
    CountPositive(s.collected, id);
    CountPositive(s.output, id);
    HeldPositive(s.workers, id);
    assert forall i :: 0 <= i < |s.workers| && HasRun(s.workers[i], id, true) ==> InHand(s.workers[i], id) == 1;
    var j :| 0 <= j < |Answers(s)| && Answered(Answers(s)[j], id);
    assert j >= |s.collected| ==> Answers(s)[j] == s.output[j - |s.collected|];
    CollectedDiffer(s);
  }

  /** A job that is being run has not been run before. */
  lemma RunningIsNotDone(s: State, i: nat)
    requires OnceEach(s) && i < |s.workers| && s.workers[i].Running?
    ensures !Launched(s, s.workers[i].job.id, false)
  {
    var id := s.workers[i].job.id;
    assert Everywhere(s, id) <= 1 && InHand(s.workers[i], id) == 1;
    HeldPositive(s.workers, id);
    CountPositive(s.collected, id);
    CountPositive(s.output, id);
    assert forall k :: 0 <= k < |Answers(s)| ==>
      Answers(s)[k] == if k < |s.collected| then s.collected[k] else s.output[k - |s.collected|];
    forall j | 0 <= j < |s.workers| ensures !HasRun(s.workers[j], id, false) {
      if j < i && InHand(s.workers[j], id) == 1 {
        HandIsUnique(s, j, i);
      } else if i < j && InHand(s.workers[j], id) == 1 {
        HandIsUnique(s, i, j);
      }
    }
  }

  lemma EndedIsDone(c: Config, states: seq<State>, n: nat, i: nat, job: Job)
    requires Run(c, states) && EndsAt(states, n, i, job)
    ensures Launched(states[n + 1], job.id, false)
  {
    RunInvAt(c, states, n);
    assert WorkerOk(c, states[n].threadExit, states[n].put - |states[n].input|, states[n].workers[i]);
    var s, u := states[n], states[n + 1];
    assert ProgramStep(c, s, u) || Interrupt(s, u);
    assert u.workers[i] == Putting(job) != s.workers[i];
    assert HasRun(u.workers[i], job.id, false);
  }

  /** No job is run twice, be it by the same worker or by another. */
  lemma RunsOnce(c: Config, states: seq<State>, m: nat, i: nat, job: Job, n: nat, j: nat)
    requires Run(c, states) && EndsAt(states, m, i, job) && RunsAt(states, n, j, job.id)
    ensures n <= m
  {
    if m < n {
      EndedIsDone(c, states, m, i, job);
      LaunchedStays(c, states, m + 1, n, job.id, false);
      RunInvAt(c, states, n);
      RunningIsNotDone(states[n], j);
    }
  }

  /**
   In every interleaving, a job that has been collected was run by some worker
   exactly if it is neither to be skipped nor marked as broken off, and then
   the answer is the one with which its program ended.
   */
  lemma CollectedRanExactly(c: Config, states: seq<State>, k: nat)
    requires Run(c, states) && k < |states[|states| - 1].collected|
    ensures var job := states[|states| - 1].collected[k];
      && ((exists n: nat, i: nat :: RunsAt(states, n, i, job.id)) <==> !job.isSkip && !job.isBreak)
      && (!job.isSkip && !job.isBreak ==> exists n: nat, i: nat :: EndsAt(states, n, i, job))
  {
    var s := states[|states| - 1];
    var job := s.collected[k];
    RunEarns(c, states);
    assert Answers(s)[k] == job;
    RunInv(c, states);
    if n: nat, i: nat :| RunsAt(states, n, i, job.id) {
      RunningIsLaunched(c, states, n, i, job.id);
      LaunchedStays(c, states, n, |states| - 1, job.id, true);
      CollectedIsLaunched(c, s, k);
    }
    if !job.isSkip && !job.isBreak {
      var n: nat, i: nat :| EndsAt(states, n, i, job);
      assert RunsAt(states, n, i, job.id);
    }
  }

  /** An interrupt stops new work: with the flag raised no worker begins to run a job. */
  lemma NoLaunchAfterInterrupt(c: Config, states: seq<State>, n: nat, i: nat, id: nat)
    requires Run(c, states) && 0 < n && RunsAt(states, n, i, id) && states[n - 1].threadExit
    ensures RunsAt(states, n - 1, i, id)
  {
    var s, u := states[n - 1], states[n];
    assert ProgramStep(c, s, u) || Interrupt(s, u);
  }

  // ----- What the exit status says about the programs

  /** The job was to be skipped and was, or was to be run and its program ended with 0. */
  ghost predicate WentWell(c: Config, states: seq<State>, id: nat)
    requires id < |c.skips|
  {
    if c.skips[id] then exists rc: int :: PassedOn(states, Job(id, true, false, rc))
    else RanTo(states, Job(id, false, false, 0))
  }

  lemma HolderIsUnique(s: State, i: nat, j: nat)
    requires OnceEach(s) && i < |s.workers| && j < |s.workers|
    requires !s.workers[i].Getting? && !s.workers[j].Getting? && s.workers[i].job.id == s.workers[j].job.id
    ensures i == j
  {
    if i < j {
      HandIsUnique(s, i, j);
    }
    if j < i {
      HandIsUnique(s, j, i);
    }
  }

  /** Two ends of the same job are one. */
  lemma EndsTheSame(c: Config, states: seq<State>, m: nat, i: nat, a: Job, n: nat, j: nat, b: Job)
    requires Run(c, states) && EndsAt(states, m, i, a) && EndsAt(states, n, j, b) && a.id == b.id
    ensures a == b
  {
    RunsOnce(c, states, m, i, a, n, j);
    RunsOnce(c, states, n, j, b, m, i);
    RunInvAt(c, states, m);
    HolderIsUnique(states[m], i, j);
    assert states[m + 1].workers[i] == Putting(a) && states[n + 1].workers[j] == Putting(b);
  }

  lemma PutIsLaunched(states: seq<State>, n: nat, i: nat, job: Job)
    requires PutsAt(states, n, i, job) && !job.isBreak
    ensures Launched(states[n], job.id, true)
  {
    assert HasRun(states[n].workers[i], job.id, true);
  }

  lemma CollectedWell(c: Config, states: seq<State>, k: nat)
    requires Run(c, states) && k < |states[|states| - 1].collected|
    ensures var job := states[|states| - 1].collected[k];
      job.id < |c.skips| && (DidWell(job) <==> WentWell(c, states, job.id))
  {
    var s := states[|states| - 1];
    var job := s.collected[k];
    RunInv(c, states);
    assert Genuine(c, s.threadExit, job);
    RunEarns(c, states);
    assert Answers(s)[k] == job;
    if DidWell(job) {
      assert job == Job(job.id, job.isSkip, false, job.returncode);
      assert WentWell(c, states, job.id);
    } else if WentWell(c, states, job.id) {
      if job.isSkip {
        var rc: int :| PassedOn(states, Job(job.id, true, false, rc));
        var n: nat, i: nat :| PutsAt(states, n, i, Job(job.id, true, false, rc));
        PutIsLaunched(states, n, i, Job(job.id, true, false, rc));
        LaunchedStays(c, states, n, |states| - 1, job.id, true);
      } else {
        var n: nat, i: nat :| EndsAt(states, n, i, Job(job.id, false, false, 0));
        RunningIsLaunched(c, states, n, i, job.id);
        LaunchedStays(c, states, n, |states| - 1, job.id, true);
        CollectedIsLaunched(c, s, k);
        var m: nat, j: nat :| EndsAt(states, m, j, job);
        EndsTheSame(c, states, n, i, Job(job.id, false, false, 0), m, j, job);
      }
      CollectedIsLaunched(c, s, k);
    }
  }

  /**
   The exit status of a finished run is 0 exactly if every job that was to be
   run was run by some worker with the exit code 0, and every job that was to be
   skipped was passed on before any interrupt reached it.
   */
  lemma StatusExactly(c: Config, states: seq<State>)
    requires Run(c, states) && states[|states| - 1].main.Finished?
    ensures states[|states| - 1].main.status == 0 <==> forall id :: 0 <= id < |c.skips| ==> WentWell(c, states, id)
  {
    var s := states[|states| - 1];
    RunInv(c, states);
    Verdict(c, states);
    if forall k :: 0 <= k < |s.collected| ==> DidWell(s.collected[k]) {
      forall id | 0 <= id < |c.skips| ensures WentWell(c, states, id) {
        AllCollected(c, s, id);
        CountPositive(s.collected, id);
        var k :| 0 <= k < |s.collected| && s.collected[k].id == id;
        CollectedWell(c, states, k);
      }
    }
    if forall id :: 0 <= id < |c.skips| ==> WentWell(c, states, id) {
      forall k | 0 <= k < |s.collected| ensures DidWell(s.collected[k]) {
        CollectedWell(c, states, k);
      }
    }
  }
}

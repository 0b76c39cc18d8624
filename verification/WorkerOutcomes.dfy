/** Whatever the programs return, some run of the worker pool collects exactly that. */
module WorkerOutcomes {
  import opened WorkerPool

  /** Without an interrupt so far, and with every program that has ended having returned its code. */
  ghost predicate Honest(s: State, codes: seq<int>) {
    && !s.threadExit
    && (forall i :: 0 <= i < |s.workers| && s.workers[i].Putting? ==> Told(s.workers[i].job, codes))
    && (forall k :: 0 <= k < |Answers(s)| ==> Told(Answers(s)[k], codes))
  }

  ghost predicate Told(job: Job, codes: seq<int>) {
    job.id < |codes| && (!job.isSkip ==> job.returncode == codes[job.id])
  }

  /** Any running program may end with any code. */
  lemma AnyCodeMayReturn(s: State, i: nat, code: int) returns (u: State)
    requires i < |s.workers| && s.workers[i].Running?
    ensures WorkerStep(s, i, u)
    ensures u == s.(workers := s.workers[i := Putting(s.workers[i].job.(returncode := code))])
  {
    u := s.(workers := s.workers[i := Putting(s.workers[i].job.(returncode := code))]);
    assert Returns(s, i, u);
  }

  lemma StepAnswers(c: Config, s: State, u: State)
    requires MainStep(c, s, u)
    ensures Answers(u) == Answers(s) && u.workers == s.workers && u.threadExit == s.threadExit
  {
    if s.main.Collecting? && |s.collected| < |c.skips| {
      assert s.output == [s.output[0]] + s.output[1..];
    }
  }

  lemma WorkerStaysHonest(c: Config, s: State, i: nat, u: State, codes: seq<int>)
    requires Inv(c, s) && Honest(s, codes) && |codes| == |c.skips|
    requires i < |s.workers| && WorkerStep(s, i, u) && !s.workers[i].Running?
    ensures Honest(u, codes)
  {
    assert WorkerOk(c, s.threadExit, s.put - |s.input|, s.workers[i]);
    if s.workers[i].Putting? {
      assert Answers(u) == Answers(s) + [s.workers[i].job];
    } else {
      assert Answers(u) == Answers(s);
    }
  }

  lemma ReturnStaysHonest(c: Config, s: State, i: nat, codes: seq<int>) returns (u: State)
    requires Inv(c, s) && Honest(s, codes) && |codes| == |c.skips|
    requires i < |s.workers| && s.workers[i].Running?
    ensures WorkerStep(s, i, u) && Honest(u, codes)
  {
    assert WorkerOk(c, s.threadExit, s.put - |s.input|, s.workers[i]);
    u := AnyCodeMayReturn(s, i, codes[s.workers[i].job.id]);
    assert Answers(u) == Answers(s);
  }

  /** The program goes on, each program that ends with its own code. */
  lemma HonestStep(c: Config, s: State, codes: seq<int>) returns (u: State)
    requires Inv(c, s) && Honest(s, codes) && |codes| == |c.skips| && c.processors > 0 && !s.main.Finished?
    ensures ProgramStep(c, s, u) && Honest(u, codes)
  {
    NeverStuck(c, s);
    u :| ProgramStep(c, s, u);
    if MainStep(c, s, u) {
      StepAnswers(c, s, u);
    } else {
      var i :| 0 <= i < |s.workers| && WorkerStep(s, i, u);
      if s.workers[i].Running? {
        u := ReturnStaysHonest(c, s, i, codes);
      } else {
        WorkerStaysHonest(c, s, i, u, codes);
      }
    }
  }

  lemma RunOneMore(c: Config, states: seq<State>, u: State)
    requires Run(c, states) && ProgramStep(c, states[|states| - 1], u)
    ensures Run(c, states + [u])
  {
  }

  lemma {:induction false} HonestToTheEnd(c: Config, states: seq<State>, codes: seq<int>) returns (all: seq<State>)
    requires Run(c, states) && Honest(states[|states| - 1], codes) && |codes| == |c.skips| && c.processors > 0
    ensures Run(c, all) && all[|all| - 1].main.Finished? && Honest(all[|all| - 1], codes)
    decreases WorkLeft(c, states[|states| - 1])
  {
    var s := states[|states| - 1];
    RunInv(c, states);
    if s.main.Finished? {
      all := states;
    } else {
      var u := HonestStep(c, s, codes);
      RunOneMore(c, states, u);
      RunInv(c, states + [u]);
      StepUsesWork(c, s, u);
      all := HonestToTheEnd(c, states + [u], codes);
    }
  }

  /** Nobody's job was broken off, and each that was to be run has returned its code. */
  ghost predicate AsTold(c: Config, jobs: seq<Job>, codes: seq<int>)
    requires |codes| == |c.skips|
  {
    forall k :: 0 <= k < |jobs| ==>
      && jobs[k].id < |codes| && !jobs[k].isBreak
      && (!c.skips[jobs[k].id] ==> jobs[k].returncode == codes[jobs[k].id])
  }

  /**
   For every list of exit codes there is a run that comes to its end with all the
   jobs collected, each that was to be run with its own code, and none broken off.
   */
  lemma EveryOutcomeHappens(c: Config, codes: seq<int>) returns (states: seq<State>)
    requires |codes| == |c.skips| && c.processors > 0
    ensures Run(c, states) && states[|states| - 1].main.Finished?
    ensures |states[|states| - 1].collected| == |c.skips| && AsTold(c, states[|states| - 1].collected, codes)
  {
    var start := State(0, [], seq(c.processors, _ => Getting), [], [], Tally(0, 0, 0, 0, 0), Feeding, false);
    states := HonestToTheEnd(c, [start], codes);
    var s := states[|states| - 1];
    RunInv(c, states);
    Verdict(c, states);
    forall k | 0 <= k < |s.collected| ensures Told(s.collected[k], codes) {
      assert Answers(s)[k] == s.collected[k];
    }
  }
}

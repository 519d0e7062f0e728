/** A periodic job runs twice. */
module Periodic {
  import opened Scheduler
  import opened Jobs

  /** A periodic job stops after its second run: its wrapper schedules the bare job, once. In this run of one worker it
      is left without an instance while the pool is still on. */
  lemma PeriodicJobRunsOut(id: JobId) returns (b: seq<State>)
    ensures Behaviour(b)
    ensures var s := b[|b| - 1];
            && !s.stop && id in s.issued && s.issued[id] && id in s.runs && s.runs[id] == 2
            && forall job :: job in Instances(s) ==> job.id != id
  {
    var first, second := Job(id, 0, Wrapper(0)), Job(id, 0, Plain);
    var issued, runs0 := map[id := true], map[id := 0];
    var runs1 := runs0[id := 1];
    var s0, end := Alone(multiset{}, Ready, map[], map[]), Alone(multiset{}, Ready, issued, runs1[id := 2]);
    var b1, steps1 := RunAlone(first, issued, runs0);
    var b2, steps2 := RunAlone(second, issued, runs1);
    ScheduleAlone(id);
    Concat([s0, b1[0]], [SchedulePeriodic(id, 0)], b1, steps1);
    b := [s0, b1[0]] + b1[1..];
    var steps := [SchedulePeriodic(id, 0)] + steps1;
    Concat(b, steps, b2, steps2);
    StepsAreBehaviour(b + b2[1..], steps + steps2);
    b := b + b2[1..];
    assert b[|b| - 1] == end;
    NobodyRuns(end.workers);
  }

  lemma ScheduleAlone(id: JobId)
    ensures NextStep(Alone(multiset{}, Ready, map[], map[]),
                     Alone(multiset{Job(id, 0, Wrapper(0))}, Ready, map[id := true], map[id := 0]),
                     SchedulePeriodic(id, 0))
  {}

  lemma StartAlone(job: Job, issued: Issued, runs: Runs)
    requires job.time <= 0
    ensures NextStep(Alone(multiset{job}, Ready, issued, runs), Alone(multiset{}, Running(job), issued, runs), Work(0))
  {
    var s, s' := Alone(multiset{job}, Ready, issued, runs), Alone(multiset{}, Running(job), issued, runs);
    assert Earliest(job, s.queue);
    assert PopStep(s, s', 0, job, s.workers);
  }

  /** The state after the end of `job`. */
  function Ran(job: Job, issued: Issued, runs: Runs): State
    requires job.id in runs
  {
    Alone(Again(job, if job.kind.Wrapper? then job.kind.interval else 0), Ready, issued,
      runs[job.id := runs[job.id] + 1])
  }

  lemma FinishAlone(job: Job, issued: Issued, runs: Runs)
    requires job.id in runs
    ensures NextStep(Alone(multiset{}, Running(job), issued, runs), Ran(job, issued, runs), Finish(0))
  {
    var s := Alone(multiset{}, Running(job), issued, runs);
    assert s.workers[0 := Ready] == [Ready];
    assert FinishStep(s, Ran(job, issued, runs), 0, job);
  }

  lemma RunAlone(job: Job, issued: Issued, runs: Runs) returns (b: seq<State>, steps: seq<Step>)
    requires job.time <= 0 && job.id in runs
    ensures Steps(b, steps) && |b| == 3
    ensures b[0] == Alone(multiset{job}, Ready, issued, runs) && b[2] == Ran(job, issued, runs)
  {
    b := [Alone(multiset{job}, Ready, issued, runs), Alone(multiset{}, Running(job), issued, runs),
      Ran(job, issued, runs)];
    steps := [Work(0), Finish(0)];
    StartAlone(job, issued, runs);
    FinishAlone(job, issued, runs);
  }
}

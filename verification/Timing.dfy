/** When jobs are run, and how long a leader waits. */
module Timing {
  import opened Scheduler
  import opened Jobs
  import opened Dispatch

  // ---- Running jobs are due ----

  lemma PoolStays(s: State, s': State, step: Step)
    requires NextStep(s, s', step)
    ensures |s'.workers| == |s.workers| && s.now <= s'.now
  {
    match step {
      case Work(v) => IterateStays(s, s', v);
      case WakeTimed(v) => IterateStays(LeaveTimed(s, v), s', v);
      case WakeLeader(v) => IterateStays(LeaveTimed(s, v), s', v);
      case _ =>
    }
  }

  lemma IterateStays(s: State, s': State, v: nat)
    requires v < |s.workers| && Iterate(s, s', v)
    ensures |s'.workers| == |s.workers| && s'.now == s.now
  {
    if !s.stop && Due(s) {
      var job, ws: seq<Phase> :| PopStep(s, s', v, job, ws);
    }
  }

  ghost predicate RunningIsDue(s: State) {
    forall w :: 0 <= w < |s.workers| && s.workers[w].Running? ==> s.workers[w].job.time <= s.now
  }

  lemma StepKeepsDue(s: State, s': State, step: Step)
    requires RunningIsDue(s) && NextStep(s, s', step)
    ensures RunningIsDue(s')
  {
    PoolStays(s, s', step);
    forall w: nat | w < |s'.workers| && s'.workers[w].Running? ensures s'.workers[w].job.time <= s'.now {
      if s'.workers[w] != s.workers[w] {
        StartsEarliestDueJob(s, s', step, w);
      }
    }
  }

  lemma {:induction false} AlwaysDue(b: seq<State>, i: nat)
    requires Behaviour(b) && i < |b|
    ensures RunningIsDue(b[i])
  {
    if i > 0 {
      AlwaysDue(b, i - 1);
      assert Next(b[i - 1], b[i - 1 + 1]);
      var step :| NextStep(b[i - 1], b[i], step);
      StepKeepsDue(b[i - 1], b[i], step);
    }
  }

  // ---- No job runs ahead of its time ----

  /** No instance of the job is due before `time`. */
  ghost predicate NotBefore(s: State, id: JobId, time: int) {
    id in s.issued && forall job :: job in Instances(s) && job.id == id ==> time <= job.time
  }

  lemma {:induction false} RunningIsInstance(ws: seq<Phase>, w: nat)
    requires w < |ws| && ws[w].Running?
    ensures ws[w].job in RunningJobs(ws)
  {
    if w > 0 {
      RunningIsInstance(ws[1..], w - 1);
    }
  }

  lemma IssueAdds(s: State, s': State, job: Job)
    requires NotifyQueue(s.workers, s'.workers) && s'.queue == s.queue + multiset{job}
    ensures Instances(s') == Instances(s) + multiset{job}
  {
    NotifyKeepsRunning(s.workers, s'.workers);
  }

  /** Whatever the instance has come from is due no later: it has been there, its job is new, or it is the second run of
      a periodic one. */
  ghost predicate Comes(s: State, other: Job) {
    || other in Instances(s) || other.id !in s.issued
    || exists job :: job in Instances(s) && job.id == other.id && job.time <= other.time
  }

  lemma EndComes(s: State, s': State, job: Job, time: int, other: Job)
    requires Ended(s, s', job, time) && other in Instances(s') && job.time <= time
    ensures Comes(s, other)
  {
    if other !in Instances(s) {
      assert other in Again(job, time);
    }
  }

  lemma FinishComes(s: State, s': State, w: nat, job: Job, other: Job)
    requires w < |s.workers| && s.workers[w] == Running(job) && job.id in s.runs && FinishStep(s, s', w, job)
    requires job.time <= s.now && other in Instances(s')
    ensures Comes(s, other)
  {
    var time := FinishEnds(s, s', w, job);
    assert s.now <= time;
    EndComes(s, s', job, time, other);
  }

  lemma IssueComes(s: State, s': State, job: Job, other: Job)
    requires NotifyQueue(s.workers, s'.workers) && s'.queue == s.queue + multiset{job}
    requires job.id !in s.issued && other in Instances(s')
    ensures Comes(s, other)
  {
    IssueAdds(s, s', job);
  }

  lemma InstanceComes(s: State, s': State, step: Step, other: Job)
    requires RunningIsDue(s) && NextStep(s, s', step) && other in Instances(s')
    ensures Comes(s, other)
  {
    match step {
      case Schedule(id, time) => IssueComes(s, s', Job(id, time, Plain), other);
      case SchedulePeriodic(id, interval) =>
        IssueComes(s, s', Job(id, s.now + interval, Wrapper(interval)), other);
      case Finish(w) => FinishComes(s, s', w, s.workers[w].job, other);
      case _ => StepMovesInstances(s, s', step);
    }
  }

  lemma StepKeepsNotBefore(s: State, s': State, step: Step, id: JobId, time: int)
    requires RunningIsDue(s) && NextStep(s, s', step) && NotBefore(s, id, time)
    ensures NotBefore(s', id, time)
  {
    forall other | other in Instances(s') && other.id == id ensures time <= other.time {
      InstanceComes(s, s', step, other);
    }
    StepKeepsIssued(s, s', step);
  }

  lemma {:induction false} NeverBefore(b: seq<State>, i: nat, j: nat, id: JobId, time: int)
    requires Behaviour(b) && i <= j < |b| && NotBefore(b[i], id, time)
    ensures NotBefore(b[j], id, time)
    decreases j
  {
    if i < j {
      NeverBefore(b, i, j - 1, id, time);
      AlwaysDue(b, j - 1);
      assert Next(b[j - 1], b[j - 1 + 1]);
      var step :| NextStep(b[j - 1], b[j], step);
      StepKeepsNotBefore(b[j - 1], b[j], step, id, time);
    }
  }

  lemma StepKeepsIssued(s: State, s': State, step: Step)
    requires NextStep(s, s', step)
    ensures s.issued.Keys <= s'.issued.Keys
  {}

  /** A job of which no instance is due before some time is not run before that. */
  lemma NotRunBefore(b: seq<State>, i: nat, j: nat, id: JobId, time: int, w: nat)
    requires Behaviour(b) && i <= j < |b| && NotBefore(b[i], id, time)
    requires w < |b[j].workers| && b[j].workers[w].Running? && b[j].workers[w].job.id == id
    ensures time <= b[j].now
  {
    NeverBefore(b, i, j, id, time);
    AlwaysDue(b, j);
    RunningIsInstance(b[j].workers, w);
    assert b[j].workers[w].job in Instances(b[j]);
  }

  // ---- Which time that is ----

  /** The job has one instance, which is due at `time`. */
  ghost predicate DueAt(s: State, id: JobId, time: int) {
    && id in s.issued && OneInstance(Instances(s), id)
    && forall job :: job in Instances(s) && job.id == id ==> job.time == time
  }

  lemma NoInstanceYet(s: State, id: JobId)
    requires JobsAccounted(s) && id !in s.issued
    ensures forall job :: job in Instances(s) ==> job.id != id
  {
    forall job | job in Instances(s) ensures job.id != id {
      assert Fits(job, s.issued, s.runs);
    }
  }

  lemma IssuedIsDue(s: State, s': State, job: Job)
    requires JobsAccounted(s) && job.id !in s.issued && job.id in s'.issued
    requires NotifyQueue(s.workers, s'.workers) && s'.queue == s.queue + multiset{job}
    ensures DueAt(s', job.id, job.time)
  {
    IssueAdds(s, s', job);
    NoInstanceYet(s, job.id);
    assert job in Instances(s') && Instances(s')[job] == 1;
  }

  /** When a scheduled job is due: at its time, or, if it is periodic, one interval ahead. */
  function FirstTime(s: State, step: Step): int
    requires step.Schedule? || step.SchedulePeriodic?
  {
    if step.Schedule? then step.time else s.now + step.interval
  }

  lemma FirstRunIsDue(s: State, s': State, step: Step)
    requires JobsAccounted(s) && NextStep(s, s', step) && (step.Schedule? || step.SchedulePeriodic?)
    ensures DueAt(s', step.id, FirstTime(s, step))
  {
    match step
    case Schedule(id, time) => IssuedIsDue(s, s', Job(id, time, Plain));
    case SchedulePeriodic(id, interval) => IssuedIsDue(s, s', Job(id, s.now + interval, Wrapper(interval)));
  }

  /** At the end of its first run a periodic job is due again one interval later. */
  lemma SecondRunIsDue(s: State, s': State, w: nat)
    requires JobsAccounted(s) && NextStep(s, s', Finish(w)) && s.workers[w].job.kind.Wrapper?
    ensures DueAt(s', s.workers[w].job.id, s.now + s.workers[w].job.kind.interval)
  {
    var job := s.workers[w].job;
    var time := FinishEnds(s, s', w, job);
    var next := Job(job.id, time, Plain);
    OnlyInstance(Instances(s), s.issued, s.runs, job);
    assert Fits(job, s.issued, s.runs);
    assert next in Instances(s') && Instances(s')[next] == 1;
  }

  /** In every interleaving: a scheduled job gets one instance, for its time or one interval ahead, and is not run
      before that. */
  lemma FirstRunIsNotEarly(b: seq<State>, i: nat, j: nat, step: Step, w: nat)
    requires Behaviour(b) && i < j < |b| && NextStep(b[i], b[i + 1], step) && (step.Schedule? || step.SchedulePeriodic?)
    requires w < |b[j].workers| && b[j].workers[w].Running? && b[j].workers[w].job.id == step.id
    ensures DueAt(b[i + 1], step.id, FirstTime(b[i], step)) && b[j].now >= FirstTime(b[i], step)
  {
    Safety(b, i);
    FirstRunIsDue(b[i], b[i + 1], step);
    NotRunBefore(b, i + 1, j, step.id, FirstTime(b[i], step), w);
  }

  /** In every interleaving: after its first run a periodic job has one instance, for one interval after the end of that
      run, and is not run before that. */
  lemma SecondRunIsNotEarly(b: seq<State>, i: nat, j: nat, v: nat, w: nat)
    requires Behaviour(b) && i < j < |b| && NextStep(b[i], b[i + 1], Finish(v))
    requires b[i].workers[v].job.kind.Wrapper?
    requires w < |b[j].workers| && b[j].workers[w].Running? && b[j].workers[w].job.id == b[i].workers[v].job.id
    ensures var job := b[i].workers[v].job;
            DueAt(b[i + 1], job.id, b[i].now + job.kind.interval) && b[j].now >= b[i].now + job.kind.interval
  {
    var job := b[i].workers[v].job;
    Safety(b, i);
    SecondRunIsDue(b[i], b[i + 1], v);
    NotRunBefore(b, i + 1, j, job.id, b[i].now + job.kind.interval, w);
  }

  // ---- The deadline of the leader ----

  predicate WaitsUntil(p: Phase, time: int) {
    p.TimedWait? && p.deadline == time
  }

  /** The time of the earliest job, which is not due yet. */
  ghost predicate NextTime(s: State, time: int) {
    s.now < time && exists job :: Earliest(job, s.queue) && job.time == time
  }

  lemma PopKeepsDeadlines(s: State, s': State, v: nat, job: Job, ws: seq<Phase>, w: nat)
    requires v < |s.workers| && PopStep(s, s', v, job, ws) && w < |s.workers| && s'.workers[w].TimedWait?
    ensures WaitsUntil(s.workers[w], s'.workers[w].deadline)
  {}

  lemma IterateWaits(s: State, s': State, v: nat, w: nat)
    requires v < |s.workers| && Iterate(s, s', v) && w < |s.workers| == |s'.workers| && s'.workers[w].TimedWait?
    ensures WaitsUntil(s.workers[w], s'.workers[w].deadline) || NextTime(s, s'.workers[w].deadline)
  {
    if !s.stop {
      if Due(s) {
        var job, ws: seq<Phase> :| PopStep(s, s', v, job, ws);
        PopKeepsDeadlines(s, s', v, job, ws, w);
      } else if s.queue != multiset{} && !s.task {
        assert w != v ==> s'.workers[w] == s.workers[w];
      }
    }
  }

  /** A worker that begins to wait for a deadline, or for another one than before, waits for the time of the earliest
      job, which is not due yet. */
  lemma WaitsForEarliest(s: State, s': State, step: Step, w: nat)
    requires NextStep(s, s', step) && w < |s.workers| == |s'.workers| && s'.workers[w].TimedWait?
    ensures WaitsUntil(s.workers[w], s'.workers[w].deadline) || NextTime(s, s'.workers[w].deadline)
  {
    match step {
      case Work(v) => IterateWaits(s, s', v, w);
      case WakeTimed(v) => TimedWaits(s, s', v, w);
      case WakeLeader(v) => TimedWaits(s, s', v, w);
      case _ =>
    }
  }

  lemma TimedWaits(s: State, s': State, v: nat, w: nat)
    requires v < |s.workers| && Iterate(LeaveTimed(s, v), s', v) && w < |s.workers| == |s'.workers|
    requires s'.workers[w].TimedWait?
    ensures WaitsUntil(s.workers[w], s'.workers[w].deadline) || NextTime(s, s'.workers[w].deadline)
  {
    var s1 := LeaveTimed(s, v);
    IterateWaits(s1, s', v, w);
    assert s1.queue == s.queue && s1.now == s.now;
  }

  /** Some queued job has that time. */
  ghost predicate Awaited(s: State, time: int) {
    exists job :: job in s.queue && job.time == time
  }

  /** A leader that is ahead of its deadline waits for the time of some queued job. */
  ghost predicate DeadlineIsQueued(s: State) {
    forall w :: 0 <= w < |s.workers| && s.workers[w].TimedWait? && s.now < s.workers[w].deadline ==>
                  Awaited(s, s.workers[w].deadline)
  }

  lemma IterateKeepsAwaited(s: State, s': State, v: nat, time: int)
    requires v < |s.workers| && Iterate(s, s', v) && Awaited(s, time) && s.now < time
    ensures Awaited(s', time)
  {
    if !s.stop && Due(s) {
      var taken, ws: seq<Phase> :| PopStep(s, s', v, taken, ws);
      var job :| job in s.queue && job.time == time;
      assert job in s.queue - multiset{taken};
    }
  }

  /** No step takes a job off the queue that is not due. */
  lemma StepKeepsAwaited(s: State, s': State, step: Step, time: int)
    requires NextStep(s, s', step) && Awaited(s, time) && s.now < time
    ensures Awaited(s', time)
  {
    match step {
      case Work(v) => IterateKeepsAwaited(s, s', v, time);
      case WakeTimed(v) => IterateKeepsAwaited(LeaveTimed(s, v), s', v, time);
      case WakeLeader(v) => IterateKeepsAwaited(LeaveTimed(s, v), s', v, time);
      case Finish(w) => FinishKeepsAwaited(s, s', w, time);
      case _ =>
    }
  }

  lemma FinishKeepsAwaited(s: State, s': State, w: nat, time: int)
    requires NextStep(s, s', Finish(w)) && Awaited(s, time)
    ensures Awaited(s', time)
  {
    var job :| job in s.queue && job.time == time;
    assert job in s'.queue;
  }

  lemma StepKeepsDeadline(s: State, s': State, step: Step, w: nat)
    requires DeadlineIsQueued(s) && NextStep(s, s', step) && w < |s.workers| == |s'.workers| && s.now <= s'.now
    requires s'.workers[w].TimedWait? && s'.now < s'.workers[w].deadline
    ensures Awaited(s', s'.workers[w].deadline)
  {
    WaitsForEarliest(s, s', step, w);
    StepKeepsAwaited(s, s', step, s'.workers[w].deadline);
  }

  /** In every state of every interleaving: a leader ahead of its deadline is not waiting for a job that is gone. */
  lemma {:induction false} LeaderAwaitsQueuedJob(b: seq<State>, i: nat)
    requires Behaviour(b) && i < |b|
    ensures DeadlineIsQueued(b[i])
  {
    if i > 0 {
      LeaderAwaitsQueuedJob(b, i - 1);
      assert Next(b[i - 1], b[i - 1 + 1]);
      var step :| NextStep(b[i - 1], b[i], step);
      DeadlineStaysQueued(b[i - 1], b[i], step);
    }
  }

  lemma DeadlineStaysQueued(s: State, s': State, step: Step)
    requires DeadlineIsQueued(s) && NextStep(s, s', step)
    ensures DeadlineIsQueued(s')
  {
    PoolStays(s, s', step);
    forall w: nat | w < |s'.workers| && s'.workers[w].TimedWait? && s'.now < s'.workers[w].deadline
      ensures Awaited(s', s'.workers[w].deadline)
    {
      StepKeepsDeadline(s, s', step, w);
    }
  }
}

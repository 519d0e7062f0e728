/** Who starts which job, and when a due job has to wait. */
module Dispatch {
  import opened Scheduler
  import opened Jobs

  lemma PopStarts(s: State, s': State, v: nat, w: nat, job: Job, ws: seq<Phase>)
    requires v < |s.workers| && PopStep(s, s', v, job, ws) && w < |s.workers|
    requires s'.workers[w].Running? && s'.workers[w] != s.workers[w]
    ensures s'.workers[w].job == job
  {}

  lemma PopTakesEarliest(s: State, s': State, v: nat, w: nat)
    requires v < |s.workers| && Iterate(s, s', v) && w < |s.workers| == |s'.workers|
    requires s'.workers[w].Running? && s'.workers[w] != s.workers[w]
    ensures var job := s'.workers[w].job;
            Earliest(job, s.queue) && job.time <= s.now && s'.queue == s.queue - multiset{job} && !s.stop
  {
    if !s.stop && Due(s) {
      var job, ws :| PopStep(s, s', v, job, ws);
      PopStarts(s, s', v, w, job, ws);
    }
  }

  lemma TimedTakesEarliest(s: State, s': State, v: nat, w: nat)
    requires v < |s.workers| && Iterate(LeaveTimed(s, v), s', v) && w < |s.workers| == |s'.workers|
    requires s'.workers[w].Running? && s'.workers[w] != s.workers[w]
    ensures var job := s'.workers[w].job;
            Earliest(job, s.queue) && job.time <= s.now && s'.queue == s.queue - multiset{job} && !s.stop
  {
    PopTakesEarliest(LeaveTimed(s, v), s', v, w);
  }

  /** A worker that starts to run a job takes the earliest one off the queue, and not before its time. */
  lemma StartsEarliestDueJob(s: State, s': State, step: Step, w: nat)
    requires NextStep(s, s', step) && w < |s.workers| == |s'.workers|
    requires s'.workers[w].Running? && s'.workers[w] != s.workers[w]
    ensures var job := s'.workers[w].job;
            Earliest(job, s.queue) && job.time <= s.now && s'.queue == s.queue - multiset{job} && !s.stop
  {
    match step {
      case Work(v) => PopTakesEarliest(s, s', v, w);
      case WakeTimed(v) => TimedTakesEarliest(s, s', v, w);
      case WakeLeader(v) => TimedTakesEarliest(s, s', v, w);
      case _ =>
    }
  }

  predicate Spurious(step: Step) {
    step.WakeQueue? || step.WakeLeader?
  }

  /** Worker `w` can start a job in the next step, without a spurious wakeup. */
  ghost predicate CanStart(s: State, w: nat)
    requires w < |s.workers|
  {
    !s.workers[w].Running? &&
    exists s', step :: NextStep(s, s', step) && !Spurious(step) && w < |s'.workers| == |s.workers| &&
      s'.workers[w].Running?
  }

  /** The worker runs a job or looks at the queue next: it wants the mutex, or has been woken from the timed wait. */
  predicate Available(s: State, w: nat)
    requires w < |s.workers|
  {
    var p := s.workers[w];
    p.Running? || p.Ready? || (p.TimedWait? && (p.signalled || p.deadline <= s.now))
  }

  lemma AvailableCanStart(s: State, w: nat)
    requires !s.stop && Due(s) && w < |s.workers| && Available(s, w) && !s.workers[w].Running?
    ensures CanStart(s, w)
  {
    var job :| Earliest(job, s.queue) && job.time <= s.now;
    var s1 := if s.workers[w].TimedWait? then LeaveTimed(s, w) else s;
    var ws := Notified(s1);
    var s' := s1.(queue := s1.queue - multiset{job}, workers := ws[w := Running(job)]);
    assert PopStep(s1, s', w, job, ws);
    assert NextStep(s, s', if s.workers[w].TimedWait? then WakeTimed(w) else Work(w));
    assert s'.workers[w].Running?;
  }

  /** A worker that starts a job without a spurious wakeup was available. */
  lemma StarterWasAvailable(s: State, s': State, step: Step, w: nat)
    requires NextStep(s, s', step) && !Spurious(step) && w < |s.workers| == |s'.workers|
    requires s'.workers[w].Running? && !s.workers[w].Running?
    ensures Available(s, w)
  {
    match step {
      case Work(v) => OnlyStarterRuns(s, s', v, w);
      case WakeTimed(v) => OnlyStarterRuns(LeaveTimed(s, v), s', v, w);
      case _ =>
    }
  }

  lemma OnlyStarterRuns(s: State, s': State, v: nat, w: nat)
    requires v < |s.workers| && Iterate(s, s', v) && w < |s.workers| == |s'.workers|
    requires s'.workers[w].Running? && !s.workers[w].Running?
    ensures v == w
  {
    if !s.stop && Due(s) {
      var job, ws :| PopStep(s, s', v, job, ws);
    }
  }

  /** While a job is due, some worker is running one or can start one without a spurious wakeup if and only if some
      worker is available. */
  lemma DueJobCanStart(s: State)
    requires !s.stop && Due(s)
    ensures (exists w: nat :: w < |s.workers| && (s.workers[w].Running? || CanStart(s, w)))
            <==> exists w: nat :: w < |s.workers| && Available(s, w)
  {
    if w: nat :| w < |s.workers| && Available(s, w) {
      if !s.workers[w].Running? {
        AvailableCanStart(s, w);
      }
      assert s.workers[w].Running? || CanStart(s, w);
    }
    if w: nat :| w < |s.workers| && (s.workers[w].Running? || CanStart(s, w)) {
      if !s.workers[w].Running? {
        var s', step :| NextStep(s, s', step) && !Spurious(step) && w < |s'.workers| == |s.workers| &&
          s'.workers[w].Running?;
        StarterWasAvailable(s, s', step, w);
      }
      assert Available(s, w);
    }
  }

  /** If no worker is available for a pending job, that is because of a leader that has not been woken and is still
      ahead of its own deadline. */
  lemma OnlyTheLeaderDelays(b: seq<State>, i: nat)
    requires Behaviour(b) && i < |b| && !b[i].stop && b[i].queue != multiset{}
    ensures (exists w: nat :: w < |b[i].workers| && Available(b[i], w))
            || exists w :: 0 <= w < |b[i].workers| && b[i].workers[w].TimedWait? && b[i].now < b[i].workers[w].deadline
  {
    Safety(b, i);
    var s := b[i];
    var w :| 0 <= w < |s.workers| && Awake(s.workers[w]);
    if !Available(s, w) {
      assert s.workers[w].TimedWait? && s.now < s.workers[w].deadline;
    }
  }

  /** Some outcome of the notification after a pop. */
  ghost function Notified(s: State): (ws: seq<Phase>)
    ensures |ws| == |s.workers| && if s.task then NotifyTask(s.workers, ws) else NotifyQueue(s.workers, ws)
  {
    if s.task then
      if w :| 0 <= w < |s.workers| && s.workers[w].TimedWait?
      then s.workers[w := s.workers[w].(signalled := true)]
      else s.workers
    else
      if w :| 0 <= w < |s.workers| && s.workers[w].QueueWait? then s.workers[w := Ready] else s.workers
  }

  // ---- A due job that waits ----

  /** The only worker waits for a job at `late` when one at `early` is scheduled. From then on until `late` a job is due
      while nobody is available, and only a spurious wakeup can help. */
  lemma DueJobMayWait(early: int, late: int, now: int) returns (b: seq<State>)
    requires 0 < early <= now < late
    ensures Behaviour(b)
    ensures var s := b[|b| - 1];
            !s.stop && s.now == now && Due(s) && forall w: nat :: w < |s.workers| ==> !Available(s, w)
  {
    var first, second := Job(0, late, Plain), Job(1, early, Plain);
    var one, two := multiset{first}, multiset{first} + multiset{second};
    var i1, r1 := map[0 := false], map[0 := 0];
    var i2, r2 := i1[1 := false], r1[1 := 0];
    var s0, s1 := Alone(multiset{}, Ready, map[], map[]), Alone(one, Ready, i1, r1);
    var s2 := Alone(one, TimedWait(late, false), i1, r1).(task := true);
    var s3 := Alone(two, TimedWait(late, false), i2, r2).(task := true);
    var s4 := s3.(now := now);
    b := [s0, s1, s2, s3, s4];
    assert NextStep(s0, s1, Schedule(0, late));
    LeaderWaits(s1, s2, first);
    assert NextStep(s2, s3, Schedule(1, early));
    assert NextStep(s3, s4, Tick(now));
    StepsAreBehaviour(b, [Schedule(0, late), Work(0), Schedule(1, early), Tick(now)]);
    assert Earliest(second, s4.queue);
  }

  lemma LeaderWaits(s: State, s': State, job: Job)
    requires !s.stop && !s.task && s.queue == multiset{job} && s.now < job.time && s.workers == [Ready]
    requires s' == s.(task := true, workers := [TimedWait(job.time, false)])
    ensures NextStep(s, s', Work(0))
  {
    assert Earliest(job, s.queue);
  }
}

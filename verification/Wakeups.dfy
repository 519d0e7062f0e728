/** Whom a step of the thread pool wakes up. */
module Wakeups {
  import opened Scheduler
  import opened Jobs
  import opened Dispatch

  /** A worker other than `w` is in the timed wait. */
  ghost predicate AnotherLeads(ws: seq<Phase>, w: int) {
    exists v :: 0 <= v < |ws| && v != w && ws[v].TimedWait?
  }

  /** A worker other than `w` waits for the queue. */
  ghost predicate AnotherQueues(ws: seq<Phase>, w: int) {
    exists v :: 0 <= v < |ws| && v != w && ws[v].QueueWait?
  }

  /** All leaders other than `w` have been signalled, and nobody else has changed. */
  ghost predicate LeaderWoken(ws: seq<Phase>, ws': seq<Phase>, w: int) {
    |ws'| == |ws| && forall v :: 0 <= v < |ws| && v != w ==>
      ws'[v] == if ws[v].TimedWait? then ws[v].(signalled := true) else ws[v]
  }

  /** Exactly one worker other than `w` has been woken from waiting for the queue, if there is any. */
  ghost predicate OneWoken(ws: seq<Phase>, ws': seq<Phase>, w: int) {
    && |ws'| == |ws|
    && if AnotherQueues(ws, w) then
         exists v :: 0 <= v < |ws| && v != w && ws[v].QueueWait? && Woken(ws, ws', w, v)
       else forall x :: 0 <= x < |ws| && x != w ==> ws'[x] == ws[x]
  }

  ghost predicate Woken(ws: seq<Phase>, ws': seq<Phase>, w: int, v: int)
    requires |ws'| == |ws|
  {
    forall x :: 0 <= x < |ws| && x != w ==> ws'[x] == if x == v then Ready else ws[x]
  }

  lemma NotifyQueueWakesOne(ws: seq<Phase>, ws': seq<Phase>, w: int)
    requires NotifyQueue(ws, ws') && (0 <= w < |ws| ==> !ws[w].QueueWait?)
    ensures OneWoken(ws, ws', w)
  {
    if v :| 0 <= v < |ws| && ws[v].QueueWait? && ws' == ws[v := Ready] {
      assert Woken(ws, ws', w, v);
    }
  }

  /** What the pop by worker `w` does to the others. */
  lemma PopWakes(s: State, s': State, w: nat, job: Job, ws: seq<Phase>)
    requires OneLeader(s) && w < |s.workers| && s.workers[w].Ready? && PopStep(s, s', w, job, ws)
    ensures if AnotherLeads(s.workers, w) then LeaderWoken(s.workers, s'.workers, w)
            else OneWoken(s.workers, s'.workers, w)
  {
    if s.task {
      NotifyTaskEffect(s.workers, ws);
      var v :| 0 <= v < |s.workers| && s.workers[v].TimedWait?;
      assert AnotherLeads(s.workers, w);
    } else {
      NotifyQueueWakesOne(s.workers, ws, w);
      if AnotherQueues(s.workers, w) {
        var v :| 0 <= v < |s.workers| && v != w && s.workers[v].QueueWait? && Woken(s.workers, ws, w, v);
        assert Woken(s.workers, s'.workers, w, v);
      }
    }
  }

  lemma IterateWakes(s: State, s': State, v: nat, w: nat)
    requires OneLeader(s) && v < |s.workers| && s.workers[v].Ready? && Iterate(s, s', v)
    requires w < |s.workers| == |s'.workers| && s'.workers[w].Running? && !s.workers[w].Running?
    ensures v == w && if AnotherLeads(s.workers, w) then LeaderWoken(s.workers, s'.workers, w)
                      else OneWoken(s.workers, s'.workers, w)
  {
    OnlyStarterRuns(s, s', v, w);
    var job, ws :| PopStep(s, s', w, job, ws);
    PopWakes(s, s', w, job, ws);
  }

  lemma TimedWakes(s: State, s': State, v: nat, w: nat)
    requires Waiting(s) && v < |s.workers| && s.workers[v].TimedWait? && Iterate(LeaveTimed(s, v), s', v)
    requires w < |s.workers| == |s'.workers| && s'.workers[w].Running? && !s.workers[w].Running?
    ensures if AnotherLeads(s.workers, w) then LeaderWoken(s.workers, s'.workers, w)
            else OneWoken(s.workers, s'.workers, w)
  {
    var s1 := LeaveTimed(s, v);
    LeaveTimedKeepsWaiting(s, v);
    IterateWakes(s1, s', v, w);
    assert !AnotherLeads(s.workers, w) && !AnotherLeads(s1.workers, w);
    if AnotherQueues(s.workers, w) {
      var x :| 0 <= x < |s.workers| && x != w && s.workers[x].QueueWait?;
      assert s1.workers[x].QueueWait?;
      var y :| 0 <= y < |s1.workers| && y != w && s1.workers[y].QueueWait? && Woken(s1.workers, s'.workers, w, y);
      assert Woken(s.workers, s'.workers, w, y);
    } else {
      assert !AnotherQueues(s1.workers, w);
    }
  }

  /** A worker that starts a job wakes another one: the leader, if there is another, and else exactly one of those that
      wait for the queue. */
  lemma StartWakes(s: State, s': State, step: Step, w: nat)
    requires Waiting(s) && NextStep(s, s', step) && w < |s.workers| == |s'.workers|
    requires s'.workers[w].Running? && !s.workers[w].Running?
    ensures if AnotherLeads(s.workers, w) then LeaderWoken(s.workers, s'.workers, w)
            else OneWoken(s.workers, s'.workers, w)
  {
    match step {
      case Work(v) => IterateWakes(s, s', v, w);
      case WakeTimed(v) => TimedWakes(s, s', v, w);
      case WakeLeader(v) => TimedWakes(s, s', v, w);
      case _ =>
    }
  }

  /** A step that queues a job, be it a new one or the second run of a periodic one, wakes exactly one of the workers
      that wait for the queue. */
  lemma NewJobWakes(s: State, s': State, step: Step)
    requires NextStep(s, s', step) && |s'.queue| > |s.queue|
    ensures OneWoken(s.workers, s'.workers, if step.Finish? then step.w else -1)
  {
    match step {
      case Schedule(_, _) => NotifyQueueWakesOne(s.workers, s'.workers, -1);
      case SchedulePeriodic(_, _) => NotifyQueueWakesOne(s.workers, s'.workers, -1);
      case Finish(w) =>
        var ws := s.workers[w := Ready];
        NotifyQueueWakesOne(ws, s'.workers, w);
        if AnotherQueues(s.workers, w) {
          var x :| 0 <= x < |ws| && x != w && s.workers[x].QueueWait?;
          assert ws[x].QueueWait?;
          var y :| 0 <= y < |ws| && y != w && ws[y].QueueWait? && Woken(ws, s'.workers, w, y);
          assert Woken(s.workers, s'.workers, w, y);
        } else {
          assert !AnotherQueues(ws, w);
        }
      case _ => IterateQueue(s, s', step);
    }
  }

  lemma IterateQueue(s: State, s': State, step: Step)
    requires NextStep(s, s', step) && !step.Schedule? && !step.SchedulePeriodic? && !step.Finish?
    ensures |s'.queue| <= |s.queue|
  {}

  /** Some idle worker is available after the wakeup by `w`. */
  lemma WokenIsAvailable(s: State, s': State, w: nat, idle: nat) returns (v: nat)
    requires |s'.workers| == |s.workers| && idle < |s.workers| && idle != w
    requires !s.workers[idle].Running? && !s.workers[idle].Exited?
    requires if AnotherLeads(s.workers, w) then LeaderWoken(s.workers, s'.workers, w)
             else OneWoken(s.workers, s'.workers, w)
    ensures v < |s'.workers| && v != w && !s'.workers[v].Running? && Available(s', v)
  {
    if AnotherLeads(s.workers, w) {
      v :| v < |s.workers| && v != w && s.workers[v].TimedWait?;
    } else if s.workers[idle].Ready? {
      v := idle;
    } else {
      assert AnotherQueues(s.workers, w);
      v :| v < |s.workers| && v != w && s.workers[v].QueueWait? && Woken(s.workers, s'.workers, w, v);
    }
  }

  /** That is what the wakeups are for: when worker `w` has started a job while another one was idle, and a further job
      is due, then another worker can start that one at once. */
  lemma NextJobCanStart(b: seq<State>, i: nat, step: Step, w: nat, idle: nat) returns (v: nat)
    requires Behaviour(b) && i + 1 < |b| && NextStep(b[i], b[i + 1], step) && w < |b[i].workers| == |b[i + 1].workers|
    requires b[i + 1].workers[w].Running? && !b[i].workers[w].Running?
    requires idle < |b[i].workers| && idle != w && !b[i].workers[idle].Running? && Due(b[i + 1])
    ensures v < |b[i + 1].workers| && v != w && CanStart(b[i + 1], v)
  {
    Safety(b, i);
    StartWakes(b[i], b[i + 1], step, w);
    StartsEarliestDueJob(b[i], b[i + 1], step, w);
    StartStopsNothing(b[i], b[i + 1], step, w);
    v := WokenIsAvailable(b[i], b[i + 1], w, idle);
    AvailableCanStart(b[i + 1], v);
  }

  lemma StartStopsNothing(s: State, s': State, step: Step, w: nat)
    requires NextStep(s, s', step) && w < |s.workers| == |s'.workers| && !s.stop
    requires s'.workers[w].Running? && !s.workers[w].Running?
    ensures !s'.stop
  {}

  // ---- Workers that find nothing to do ----

  /** A worker that finds no due job goes to wait: as the leader if a job is pending and nobody else leads, and for the
      queue otherwise. Nobody else changes. */
  lemma IdleWorkerWaits(s: State, s': State, w: nat)
    requires Waiting(s) && NextStep(s, s', Work(w)) && !s.stop && !Due(s)
    ensures s'.workers == s.workers[w := s'.workers[w]] && s'.queue == s.queue
    ensures if s.queue != multiset{} && !AnotherLeads(s.workers, w) then s'.workers[w].TimedWait?
            else s'.workers[w].QueueWait?
  {
    if s.task {
      var v :| 0 <= v < |s.workers| && s.workers[v].TimedWait?;
      assert v != w;
    }
  }

  /** A leader that was woken in vain keeps its deadline, and is not available until that or the next wakeup. */
  lemma WokenInVain(s: State, s': State, w: nat)
    requires NextStep(s, s', Recheck(w)) && s.now < s.workers[w].deadline
    ensures w < |s'.workers| && !Available(s', w)
    ensures s'.workers == s.workers[w := TimedWait(s.workers[w].deadline, false)] && s'.queue == s.queue
  {}
}

/** After a shutdown every worker leaves. */
module Shutdown {
  import opened Scheduler
  import opened Jobs

  /** The steps that a worker has left to take after a shutdown. */
  function StepsLeft(p: Phase): nat {
    match p
    case Running(_) => 2
    case Ready => 1
    case TimedWait(_, _) => 1
    case QueueWait => 1
    case Exited => 0
  }

  function Left(ws: seq<Phase>): (r: nat)
    ensures r <= 2 * |ws|
    ensures r == 0 <==> forall w :: 0 <= w < |ws| ==> ws[w].Exited?
  {
    if ws == [] then 0 else StepsLeft(ws[0]) + Left(ws[1..])
  }

  lemma {:induction false} LeftUpdate(ws: seq<Phase>, w: nat, p: Phase)
    requires w < |ws|
    ensures Left(ws[w := p]) + StepsLeft(ws[w]) == Left(ws) + StepsLeft(p)
  {
    var ws' := ws[w := p];
    if w == 0 {
      assert ws'[1..] == ws[1..];
    } else {
      LeftUpdate(ws[1..], w - 1, p);
      assert ws'[1..] == ws[1..][w - 1 := p];
    }
  }

  predicate ByWorker(step: Step) {
    step.Work? || step.WakeTimed? || step.WakeLeader? || step.Recheck? || step.WakeQueue? || step.Finish?
  }

  lemma NobodyWaitsForQueue(ws: seq<Phase>)
    requires forall w :: 0 <= w < |ws| ==> !ws[w].QueueWait?
    ensures WakeAll(ws) == ws && forall ws' :: NotifyQueue(ws, ws') ==> ws' == ws
  {}

  lemma IterateAfterShutdown(s: State, s': State, w: nat)
    requires s.stop && w < |s.workers| && s.workers[w].Ready? && Iterate(s, s', w)
    ensures s'.stop && Left(s'.workers) + 1 == Left(s.workers)
  {
    LeftUpdate(s.workers, w, Exited);
  }

  lemma FinishAfterShutdown(s: State, s': State, w: nat)
    requires Waiting(s) && s.stop && NextStep(s, s', Finish(w))
    ensures s'.stop && Left(s'.workers) + 1 == Left(s.workers)
  {
    var ws := s.workers[w := Ready];
    NobodyWaitsForQueue(ws);
    LeftUpdate(s.workers, w, Ready);
  }

  /** After a shutdown every step of a worker uses up one of its remaining steps, and no other step adds any. */
  lemma StepAfterShutdown(s: State, s': State, step: Step)
    requires Waiting(s) && s.stop && NextStep(s, s', step)
    ensures s'.stop
    ensures Left(s'.workers) + (if ByWorker(step) then 1 else 0) == Left(s.workers)
  {
    var ws := s.workers;
    NobodyWaitsForQueue(ws);
    match step
    case Tick(_) =>
    case Schedule(_, _) =>
    case SchedulePeriodic(_, _) =>
    case Work(w) => IterateAfterShutdown(s, s', w);
    case WakeTimed(w) =>
      LeftUpdate(ws, w, Ready);
      IterateAfterShutdown(LeaveTimed(s, w), s', w);
    case WakeLeader(w) =>
      LeftUpdate(ws, w, Ready);
      IterateAfterShutdown(LeaveTimed(s, w), s', w);
    case Recheck(_) =>
    case WakeQueue(_) =>
    case Finish(w) => FinishAfterShutdown(s, s', w);
    case Shutdown =>
      if w :| 0 <= w < |ws| && ws[w].TimedWait? && s'.workers == ws[w := ws[w].(signalled := true)] {
        LeftUpdate(ws, w, ws[w].(signalled := true));
      }
  }

  function StepsByWorkers(steps: seq<Step>): nat {
    if steps == [] then 0 else StepsByWorkers(steps[..|steps| - 1]) + if ByWorker(steps[|steps| - 1]) then 1 else 0
  }

  /** The workers take at most two steps each after a shutdown, and all of them are gone exactly when there are no more
      to take. */
  lemma {:induction false} WorkersRunOut(b: seq<State>, steps: seq<Step>)
    requires Steps(b, steps) && Waiting(b[0]) && b[0].stop
    ensures var last := b[|steps|];
            && Waiting(last) && last.stop
            && StepsByWorkers(steps) + Left(last.workers) == Left(b[0].workers) <= 2 * |b[0].workers|
            && ((forall w :: 0 <= w < |last.workers| ==> last.workers[w].Exited?) <==>
                StepsByWorkers(steps) == Left(b[0].workers))
  {
    if steps != [] {
      var n := |steps| - 1;
      forall i | 0 <= i < n ensures NextStep(b[..n + 1][i], b[..n + 1][i + 1], steps[..n][i]) {
        assert NextStep(b[i], b[i + 1], steps[i]);
      }
      WorkersRunOut(b[..n + 1], steps[..n]);
      assert NextStep(b[n], b[n + 1], steps[n]);
      StepKeepsWaiting(b[n], b[n + 1], steps[n]);
      StepAfterShutdown(b[n], b[n + 1], steps[n]);
    }
  }

  lemma StepsSplit(b: seq<State>, steps: seq<Step>)
    requires Steps(b, steps) && steps != []
    ensures NextStep(b[0], b[1], steps[0]) && Steps(b[1..], steps[1..])
  {
    assert NextStep(b[0], b[0 + 1], steps[0]);
    forall i | 0 <= i < |steps| - 1 ensures NextStep(b[1..][i], b[1..][i + 1], steps[1..][i]) {
      assert NextStep(b[i + 1], b[i + 1 + 1], steps[i + 1]);
    }
  }

  lemma {:induction false} CountSplit(steps: seq<Step>)
    requires steps != [] && !ByWorker(steps[0])
    ensures StepsByWorkers(steps) == StepsByWorkers(steps[1..])
    decreases |steps|
  {
    if |steps| > 1 {
      var before := steps[..|steps| - 1];
      CountSplit(before);
      assert before[1..] == steps[1..][..|steps| - 2];
    } else {
      assert steps[..0] == [];
    }
  }

  lemma ShutdownStops(s: State, s': State)
    requires Waiting(s) && NextStep(s, s', Step.Shutdown)
    ensures Waiting(s') && s'.stop
  {
    ShutdownKeepsWaiting(s, s');
  }

  /** From the call of `shutdown` on the workers take no more than two steps each, whatever is queued, and all of them
      have left exactly when each has taken its last. */
  lemma ShutdownEnds(b: seq<State>, steps: seq<Step>)
    requires Steps(b, steps) && Waiting(b[0]) && steps != [] && steps[0] == Step.Shutdown
    ensures var last := b[|steps|];
            && last.stop && StepsByWorkers(steps) + Left(last.workers) == Left(b[1].workers) <= 2 * |b[1].workers|
            && ((forall w :: 0 <= w < |last.workers| ==> last.workers[w].Exited?) <==>
                StepsByWorkers(steps) == Left(b[1].workers))
  {
    StepsSplit(b, steps);
    ShutdownStops(b[0], b[1]);
    WorkersRunOut(b[1..], steps[1..]);
    CountSplit(steps);
  }

  /** After a shutdown every worker that does not run a job has either left or can leave in its next step: it holds or
      wants the mutex, or it has been woken from the timed wait. */
  lemma ShutdownReleases(b: seq<State>, i: nat, w: nat)
    requires Behaviour(b) && i < |b| && b[i].stop && w < |b[i].workers| && !b[i].workers[w].Running?
    ensures var s, p := b[i], b[i].workers[w];
            || p.Exited?
            || ((p.Ready? || (p.TimedWait? && p.signalled))
                && exists s' ::
                     NextStep(s, s', if p.Ready? then Work(w) else WakeTimed(w)) &&
                     s'.workers == s.workers[w := Exited])
  {
    Safety(b, i);
    var s, p := b[i], b[i].workers[w];
    if p.Ready? {
      var s' := s.(workers := s.workers[w := Exited]);
      assert NextStep(s, s', Work(w)) && s'.workers == s.workers[w := Exited];
    } else if p.TimedWait? {
      var s' := s.(task := false, workers := s.workers[w := Exited]);
      assert s.workers[w := Ready][w := Exited] == s.workers[w := Exited];
      assert NextStep(s, s', WakeTimed(w)) && s'.workers == s.workers[w := Exited];
    }
  }
}

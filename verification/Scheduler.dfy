/** The thread pool: workers share a queue of timed jobs, one mutex and two condition variables. At most one worker, the
    leader, waits for the time of the earliest job; the others wait for the queue. A step is what happens between
    taking the mutex and giving it up, or one event outside of it. */
module Scheduler {

  type JobId = nat

  /** What a queue entry calls: the job itself, or the wrapper that calls a periodic job and schedules it again. */
  datatype Kind = Plain | Wrapper(interval: nat)

  datatype Job = Job(id: JobId, time: int, kind: Kind)

  /** Where a worker is. `Ready` workers want the mutex in order to look at the queue. */
  datatype Phase = Ready | Running(job: Job) | TimedWait(deadline: int, signalled: bool) | QueueWait | Exited

  /** `issued` tells for every scheduled job whether it is periodic, `runs` how often it has been run to its end. */
  datatype State = State(stop: bool, task: bool, now: int, queue: multiset<Job>, workers: seq<Phase>,
                         issued: map<JobId, bool>, runs: map<JobId, nat>)

  datatype Step =
    | Tick(time: int)
    | Schedule(id: JobId, time: int)
    | SchedulePeriodic(id: JobId, interval: nat)
    | Work(w: nat)
    | WakeTimed(w: nat)
    | WakeLeader(w: nat)
    | Recheck(w: nat)
    | WakeQueue(w: nat)
    | Finish(w: nat)
    | Shutdown

  ghost predicate Init(s: State) {
    && !s.stop && !s.task && s.queue == multiset{} && s.issued == map[] && s.runs == map[]
    && |s.workers| >= 1 && forall w :: 0 <= w < |s.workers| ==> s.workers[w] == Ready
  }

  ghost predicate Earliest(job: Job, queue: multiset<Job>) {
    job in queue && forall other :: other in queue ==> job.time <= other.time
  }

  /** `is_runnable`, apart from its test of `stop`. */
  ghost predicate Due(s: State) {
    exists job :: Earliest(job, s.queue) && job.time <= s.now
  }

  /** `queue_cv.notify_one()` */
  ghost predicate NotifyQueue(ws: seq<Phase>, ws': seq<Phase>) {
    || (ws' == ws && forall w :: 0 <= w < |ws| ==> !ws[w].QueueWait?)
    || exists w :: 0 <= w < |ws| && ws[w].QueueWait? && ws' == ws[w := Ready]
  }

  /** `task_cv.notify_one()` */
  ghost predicate NotifyTask(ws: seq<Phase>, ws': seq<Phase>) {
    || (ws' == ws && forall w :: 0 <= w < |ws| ==> !ws[w].TimedWait?)
    || exists w :: 0 <= w < |ws| && ws[w].TimedWait? && ws' == ws[w := ws[w].(signalled := true)]
  }

  /** One round of `loop` by worker `w`, which holds the mutex. */
  ghost predicate Iterate(s: State, s': State, w: nat)
    requires w < |s.workers|
  {
    if s.stop then s' == s.(workers := s.workers[w := Exited])
    else if Due(s) then
      exists job, ws :: PopStep(s, s', w, job, ws)
    else if s.queue != multiset{} && !s.task then
      exists job :: Earliest(job, s.queue) &&
        s' == s.(task := true, workers := s.workers[w := TimedWait(job.time, false)])
    else s' == s.(workers := s.workers[w := QueueWait])
  }

  /** Take the earliest job off the queue and wake another worker: the leader if there is one. */
  ghost predicate PopStep(s: State, s': State, w: nat, job: Job, ws: seq<Phase>)
    requires w < |s.workers|
  {
    && Earliest(job, s.queue) && job.time <= s.now
    && (if s.task then NotifyTask(s.workers, ws) else NotifyQueue(s.workers, ws))
    && |ws| == |s.workers|
    && s' == s.(queue := s.queue - multiset{job}, workers := ws[w := Running(job)])
  }

  /** The state in which a worker leaves the timed wait. */
  function LeaveTimed(s: State, w: nat): State
    requires w < |s.workers|
  {
    s.(task := false, workers := s.workers[w := Ready])
  }

  ghost predicate NextStep(s: State, s': State, step: Step) {
    match step
    case Tick(time) => s.now <= time && s' == s.(now := time)
    case Schedule(id, time) =>
      && id !in s.issued && NotifyQueue(s.workers, s'.workers)
      && s' == s.(queue := s.queue + multiset{Job(id, time, Plain)}, workers := s'.workers,
                  issued := s.issued[id := false], runs := s.runs[id := 0])
    case SchedulePeriodic(id, interval) =>
      && id !in s.issued && NotifyQueue(s.workers, s'.workers)
      && s' == s.(queue := s.queue + multiset{Job(id, s.now + interval, Wrapper(interval))}, workers := s'.workers,
                  issued := s.issued[id := true], runs := s.runs[id := 0])
    case Work(w) => w < |s.workers| && s.workers[w].Ready? && Iterate(s, s', w)
    // the deadline has passed, or the worker was woken and finds something to do
    case WakeTimed(w) =>
      && w < |s.workers| && s.workers[w].TimedWait?
      && (s.workers[w].deadline <= s.now || (s.workers[w].signalled && (s.stop || Due(s))))
      && Iterate(LeaveTimed(s, w), s', w)
    // a spurious wakeup, upon which there is something to do
    case WakeLeader(w) =>
      w < |s.workers| && s.workers[w].TimedWait? && (s.stop || Due(s)) && Iterate(LeaveTimed(s, w), s', w)
    // woken without anything to do: back to waiting
    case Recheck(w) =>
      && w < |s.workers| && s.workers[w].TimedWait? && s.workers[w].signalled && !s.stop && !Due(s)
      && s' == s.(workers := s.workers[w := s.workers[w].(signalled := false)])
    // a spurious wakeup
    case WakeQueue(w) =>
      w < |s.workers| && s.workers[w].QueueWait? && s' == s.(workers := s.workers[w := Ready])
    case Finish(w) =>
      && w < |s.workers| && s.workers[w].Running?
      && var job := s.workers[w].job;
         job.id in s.runs && FinishStep(s, s', w, job)
    case Shutdown =>
      && NotifyTask(WakeAll(s.workers), s'.workers)
      && s' == s.(stop := true, workers := s'.workers)
  }

  /** The job has been run to its end. A wrapper then schedules the bare job for the point in time one interval from
      now. */
  ghost predicate FinishStep(s: State, s': State, w: nat, job: Job)
    requires w < |s.workers| && job.id in s.runs
  {
    var ws, runs := s.workers[w := Ready], s.runs[job.id := s.runs[job.id] + 1];
    match job.kind
    case Plain => s' == s.(workers := ws, runs := runs)
    case Wrapper(interval) =>
      && NotifyQueue(ws, s'.workers)
      && s' == s.(queue := s.queue + multiset{Job(job.id, s.now + interval, Plain)}, workers := s'.workers,
         runs := runs)
  }

  /** `queue_cv.notify_all()` */
  function WakeAll(ws: seq<Phase>): (r: seq<Phase>)
    ensures |r| == |ws| && forall w :: 0 <= w < |ws| ==> r[w] == if ws[w].QueueWait? then Ready else ws[w]
  {
    seq(|ws|, w requires 0 <= w < |ws| => if ws[w].QueueWait? then Ready else ws[w])
  }

  ghost predicate Next(s: State, s': State) {
    exists step :: NextStep(s, s', step)
  }

  /** A run: any interleaving of steps from the start. */
  ghost predicate Behaviour(b: seq<State>) {
    && b != [] && Init(b[0])
    && forall i :: 0 <= i < |b| - 1 ==> Next(b[i], b[i + 1])
  }

  type Issued = map<JobId, bool>
  type Runs = map<JobId, nat>

  // ---- Sequences of steps ----

  /** Any number of steps, one after the other. */
  ghost predicate Steps(b: seq<State>, steps: seq<Step>) {
    |b| == |steps| + 1 && forall i :: 0 <= i < |steps| ==> NextStep(b[i], b[i + 1], steps[i])
  }

  lemma StepsAreBehaviour(b: seq<State>, steps: seq<Step>)
    requires Steps(b, steps) && Init(b[0])
    ensures Behaviour(b)
  {
    forall i | 0 <= i < |b| - 1 ensures Next(b[i], b[i + 1]) {
      assert NextStep(b[i], b[i + 1], steps[i]);
    }
  }

  lemma Concat(a: seq<State>, first: seq<Step>, b: seq<State>, second: seq<Step>)
    requires Steps(a, first) && Steps(b, second) && a[|a| - 1] == b[0]
    ensures Steps(a + b[1..], first + second)
  {
    var c, steps, n := a + b[1..], first + second, |first|;
    forall i | 0 <= i < |steps| ensures NextStep(c[i], c[i + 1], steps[i]) {
      if i < n {
        assert NextStep(a[i], a[i + 1], first[i]);
      } else {
        assert NextStep(b[i - n], b[i - n + 1], second[i - n]);
      }
    }
  }

  /** A pool of one worker. */
  function Alone(queue: multiset<Job>, worker: Phase, issued: Issued, runs: Runs): State {
    State(false, false, 0, queue, [worker], issued, runs)
  }

  // ---- Waiting ----

  /** `task` is set exactly while one worker is in the timed wait, and there is never a second one. */
  ghost predicate OneLeader(s: State) {
    && (s.task <==> exists w :: 0 <= w < |s.workers| && s.workers[w].TimedWait?)
    && forall v, w :: 0 <= v < w < |s.workers| ==> !(s.workers[v].TimedWait? && s.workers[w].TimedWait?)
  }

  predicate Awake(p: Phase) {
    p.Ready? || p.Running? || p.TimedWait?
  }

  /** Pending jobs are never left to workers that all wait for the queue. */
  ghost predicate NoLostWakeup(s: State) {
    && (!s.stop && s.queue != multiset{} ==> exists w :: 0 <= w < |s.workers| && Awake(s.workers[w]))
    && forall w :: 0 <= w < |s.workers| && s.workers[w].Exited? ==> s.stop
  }

  /** After a shutdown nobody waits any more without having been woken. */
  ghost predicate Released(s: State) {
    s.stop ==> forall w :: 0 <= w < |s.workers| ==>
                 !s.workers[w].QueueWait? && (s.workers[w].TimedWait? ==> s.workers[w].signalled)
  }

  ghost predicate Waiting(s: State) {
    |s.workers| >= 1 && OneLeader(s) && NoLostWakeup(s) && Released(s)
  }

  lemma NotifyQueueEffect(ws: seq<Phase>, ws': seq<Phase>)
    requires NotifyQueue(ws, ws')
    ensures |ws'| == |ws|
    ensures forall w :: 0 <= w < |ws| ==> ws'[w] == ws[w] || (ws[w].QueueWait? && ws'[w].Ready?)
    ensures (exists w :: 0 <= w < |ws| && ws[w].QueueWait?) ==> exists w :: 0 <= w < |ws'| && ws'[w].Ready?
  {}

  lemma NotifyTaskEffect(ws: seq<Phase>, ws': seq<Phase>)
    requires NotifyTask(ws, ws')
    requires forall v, w :: 0 <= v < w < |ws| ==> !(ws[v].TimedWait? && ws[w].TimedWait?)
    ensures |ws'| == |ws|
    ensures forall w :: 0 <= w < |ws| ==>
              if ws[w].TimedWait? then ws'[w] == ws[w].(signalled := true) else ws'[w] == ws[w]
  {}

  lemma NotifyTaskKeepsWaiting(s: State, ws: seq<Phase>)
    requires Waiting(s) && NotifyTask(s.workers, ws)
    ensures Waiting(s.(workers := ws))
  {
    NotifyTaskEffect(s.workers, ws);
    assert forall v :: 0 <= v < |ws| ==> (ws[v].TimedWait? <==> s.workers[v].TimedWait?);
    assert forall v :: 0 <= v < |ws| ==> (Awake(ws[v]) <==> Awake(s.workers[v]));
  }

  lemma StartKeepsWaiting(s: State, w: nat, job: Job)
    requires Waiting(s) && w < |s.workers| && s.workers[w].Ready? && !s.stop
    ensures Waiting(s.(queue := s.queue - multiset{job}, workers := s.workers[w := Running(job)]))
  {
    var ws := s.workers[w := Running(job)];
    assert forall v :: 0 <= v < |ws| ==> (ws[v].TimedWait? <==> s.workers[v].TimedWait?);
    assert ws[w].Running?;
  }

  lemma PopKeepsWaiting(s: State, s': State, w: nat, job: Job, ws: seq<Phase>)
    requires Waiting(s) && w < |s.workers| && s.workers[w].Ready? && !s.stop && PopStep(s, s', w, job, ws)
    ensures Waiting(s')
  {
    var s1 := s.(workers := ws);
    if s.task {
      NotifyTaskKeepsWaiting(s, ws);
    } else {
      NotifyKeepsWaiting(s, s1);
    }
    StartKeepsWaiting(s1, w, job);
  }

  lemma IterateKeepsWaiting(s: State, s': State, w: nat)
    requires Waiting(s) && w < |s.workers| && s.workers[w].Ready? && Iterate(s, s', w)
    ensures Waiting(s')
  {
    if s.stop {
      assert forall v :: 0 <= v < |s.workers| ==> (s'.workers[v].TimedWait? <==> s.workers[v].TimedWait?);
    } else if Due(s) {
      var job, ws :| PopStep(s, s', w, job, ws);
      PopKeepsWaiting(s, s', w, job, ws);
    } else if s.queue != multiset{} && !s.task {
      assert s'.workers[w].TimedWait?;
    } else {
      assert forall v :: 0 <= v < |s.workers| ==> (s'.workers[v].TimedWait? <==> s.workers[v].TimedWait?);
    }
  }

  lemma LeaveTimedKeepsWaiting(s: State, w: nat)
    requires Waiting(s) && w < |s.workers| && s.workers[w].TimedWait?
    ensures Waiting(LeaveTimed(s, w))
  {
    assert LeaveTimed(s, w).workers[w].Ready?;
  }

  lemma NotifyKeepsWaiting(s: State, s': State)
    requires Waiting(s) && NotifyQueue(s.workers, s'.workers) && s'.stop == s.stop && s'.task == s.task
    ensures Waiting(s')
  {
    NotifyQueueEffect(s.workers, s'.workers);
    if !s.stop {
      var p := s.workers[0];
      assert p.QueueWait? || Awake(p);
    }
  }

  lemma ShutdownKeepsWaiting(s: State, s': State)
    requires Waiting(s) && NextStep(s, s', Shutdown)
    ensures Waiting(s')
  {
    NotifyTaskEffect(WakeAll(s.workers), s'.workers);
    assert forall v :: 0 <= v < |s.workers| ==> (s'.workers[v].TimedWait? <==> s.workers[v].TimedWait?);
  }

  lemma FinishKeepsWaiting(s: State, s': State, w: nat)
    requires Waiting(s) && NextStep(s, s', Finish(w))
    ensures Waiting(s')
  {
    var s1 := s.(workers := s.workers[w := Ready]);
    assert s1.workers[w].Ready?;
    assert forall v :: 0 <= v < |s.workers| ==> (s1.workers[v].TimedWait? <==> s.workers[v].TimedWait?);
    assert Waiting(s1);
    if s.workers[w].job.kind.Wrapper? {
      NotifyKeepsWaiting(s1, s');
    }
  }

  /** Every step of any worker keeps the waiting discipline. */
  lemma StepKeepsWaiting(s: State, s': State, step: Step)
    requires Waiting(s) && NextStep(s, s', step)
    ensures Waiting(s')
  {
    match step
    case Tick(_) =>
    case Schedule(_, _) => NotifyKeepsWaiting(s, s');
    case SchedulePeriodic(_, _) => NotifyKeepsWaiting(s, s');
    case Work(w) => IterateKeepsWaiting(s, s', w);
    case WakeTimed(w) =>
      LeaveTimedKeepsWaiting(s, w);
      IterateKeepsWaiting(LeaveTimed(s, w), s', w);
    case WakeLeader(w) =>
      LeaveTimedKeepsWaiting(s, w);
      IterateKeepsWaiting(LeaveTimed(s, w), s', w);
    case Recheck(w) =>
      assert forall v :: 0 <= v < |s.workers| ==> (s'.workers[v].TimedWait? <==> s.workers[v].TimedWait?);
      assert s'.workers[w].TimedWait?;
    case WakeQueue(w) =>
      assert s'.workers[w].Ready?;
      assert forall v :: 0 <= v < |s.workers| ==> (s'.workers[v].TimedWait? <==> s.workers[v].TimedWait?);
    case Finish(w) => FinishKeepsWaiting(s, s', w);
    case Shutdown => ShutdownKeepsWaiting(s, s');
  }
}

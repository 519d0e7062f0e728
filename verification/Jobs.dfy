/** What becomes of the jobs: every one of them has a single instance, queued or running, until it has been run as often
    as the scheduler is going to. */
module Jobs {
  import opened Scheduler

  function JobOf(p: Phase): multiset<Job> {
    if p.Running? then multiset{p.job} else multiset{}
  }

  function RunningJobs(ws: seq<Phase>): multiset<Job> {
    if ws == [] then multiset{} else JobOf(ws[0]) + RunningJobs(ws[1..])
  }

  /** All instances of jobs, queued or running. */
  function Instances(s: State): multiset<Job> {
    s.queue + RunningJobs(s.workers)
  }

  function Promised(issued: Issued, id: JobId): nat
    requires id in issued
  {
    if issued[id] then 2 else 1
  }

  /** An instance fits the history of its job: a periodic job is in its wrapper the first time, and bare the second. */
  predicate Fits(job: Job, issued: Issued, runs: Runs) {
    && job.id in issued && job.id in runs && runs[job.id] < Promised(issued, job.id)
    && (job.kind.Wrapper? <==> issued[job.id] && runs[job.id] == 0)
  }

  /** The one instance of a job. */
  ghost predicate OneInstance(jobs: multiset<Job>, id: JobId) {
    exists job :: job in jobs && job.id == id && jobs[job] == 1 &&
      forall other :: other in jobs && other.id == id ==> other == job
  }

  /** Every job has exactly one instance until it has been run as often as promised, and none after that. */
  ghost predicate Accounted(jobs: multiset<Job>, issued: Issued, runs: Runs) {
    && runs.Keys == issued.Keys
    && (forall job {:trigger Fits(job, issued, runs)} :: job in jobs ==> Fits(job, issued, runs))
    && (forall id :: id in issued ==> runs[id] <= Promised(issued, id))
    && (forall id {:trigger OneInstance(jobs, id)} :: id in issued && runs[id] < Promised(issued, id) ==>
       OneInstance(jobs, id))
  }

  lemma AddBoth(a: multiset<Job>, x: multiset<Job>, y: multiset<Job>, r: multiset<Job>, z: multiset<Job>)
    requires x + y == r + z
    ensures a + x + y == a + r + z
  {
    assert a + (x + y) == a + x + y;
    assert a + (r + z) == a + r + z;
  }

  lemma {:induction false} RunningUpdate(ws: seq<Phase>, w: nat, p: Phase)
    requires w < |ws|
    ensures RunningJobs(ws[w := p]) + JobOf(ws[w]) == RunningJobs(ws) + JobOf(p)
  {
    var ws', rest := ws[w := p], ws[1..];
    if w == 0 {
      assert ws'[1..] == rest;
    } else {
      RunningUpdate(rest, w - 1, p);
      assert ws'[1..] == rest[w - 1 := p];
      AddBoth(JobOf(ws[0]), RunningJobs(ws'[1..]), JobOf(ws[w]), RunningJobs(rest), JobOf(p));
    }
  }

  lemma {:induction false} SameRunning(ws: seq<Phase>, ws': seq<Phase>)
    requires |ws'| == |ws| && forall w :: 0 <= w < |ws| ==> JobOf(ws'[w]) == JobOf(ws[w])
    ensures RunningJobs(ws') == RunningJobs(ws)
  {
    if ws != [] {
      assert JobOf(ws'[0]) == JobOf(ws[0]);
      forall w | 0 <= w < |ws| - 1 ensures JobOf(ws'[1..][w]) == JobOf(ws[1..][w]) {
        assert JobOf(ws'[w + 1]) == JobOf(ws[w + 1]);
      }
      SameRunning(ws[1..], ws'[1..]);
    }
  }

  lemma IssueKeepsAccount(jobs: multiset<Job>, issued: Issued, runs: Runs, job: Job)
    requires Accounted(jobs, issued, runs) && job.id !in issued
    ensures Accounted(jobs + multiset{job}, issued[job.id := job.kind.Wrapper?], runs[job.id := 0])
  {
    var jobs', issued', runs' := jobs + multiset{job}, issued[job.id := job.kind.Wrapper?], runs[job.id := 0];
    forall j | j in jobs ensures j.id in issued {
      assert Fits(j, issued, runs);
    }
    assert job !in jobs;
    assert jobs'[job] == 1;
    forall j | j in jobs' ensures Fits(j, issued', runs') {
      if j != job {
        assert j in jobs && Fits(j, issued, runs);
      }
    }
    forall id | id in issued' && runs'[id] < Promised(issued', id) ensures OneInstance(jobs', id) {
      if id != job.id {
        assert OneInstance(jobs, id);
        OtherInstance(jobs, jobs', id, job.id);
      }
    }
  }

  /** What happens to the instances of one job does not concern another. */
  lemma OtherInstance(jobs: multiset<Job>, jobs': multiset<Job>, id: JobId, ended: JobId)
    requires OneInstance(jobs, id) && ended != id
    requires forall j: Job :: j.id != ended ==> jobs'[j] == jobs[j]
    ensures OneInstance(jobs', id)
  {
    var j :| j in jobs && j.id == id && jobs[j] == 1 && forall other :: other in jobs && other.id == id ==> other == j;
    assert jobs'[j] == 1;
    forall other | other in jobs' && other.id == id ensures other == j {
      assert jobs'[other] == jobs[other];
    }
  }

  /** The end of a run uses up the instance; a wrapper leaves the bare job behind. */
  lemma EndKeepsAccount(jobs: multiset<Job>, jobs': multiset<Job>, issued: Issued, runs: Runs, job: Job)
    requires Accounted(jobs, issued, runs) && job in jobs
    requires forall j: Job :: j.id != job.id ==> jobs'[j] == jobs[j]
    requires job.kind.Plain? ==> forall j :: j in jobs' ==> j.id != job.id
    requires job.kind.Wrapper? ==>
               OneInstance(jobs', job.id) && forall j :: j in jobs' && j.id == job.id ==> j.kind.Plain?
    ensures job.id in runs && Accounted(jobs', issued, runs[job.id := runs[job.id] + 1])
  {
    assert Fits(job, issued, runs);
    var runs' := runs[job.id := runs[job.id] + 1];
    forall j | j in jobs' ensures Fits(j, issued, runs') {
      if j.id != job.id {
        assert jobs'[j] == jobs[j];
        assert Fits(j, issued, runs);
      }
    }
    forall id | id in issued && runs'[id] < Promised(issued, id) ensures OneInstance(jobs', id) {
      if id != job.id {
        OtherInstance(jobs, jobs', id, job.id);
      }
    }
  }

  lemma OnlyInstance(jobs: multiset<Job>, issued: Issued, runs: Runs, job: Job)
    requires Accounted(jobs, issued, runs) && job in jobs
    ensures jobs[job] == 1 && forall j :: j in jobs && j.id == job.id ==> j == job
  {
    assert Fits(job, issued, runs) && OneInstance(jobs, job.id);
  }

  ghost predicate JobsAccounted(s: State) {
    Accounted(Instances(s), s.issued, s.runs)
  }

  lemma MoveInstance(queue: multiset<Job>, job: Job, running: multiset<Job>, running': multiset<Job>)
    requires job in queue && running' == running + multiset{job}
    ensures (queue - multiset{job}) + running' == queue + running
  {}

  lemma PopKeepsInstances(s: State, s': State, w: nat, job: Job, ws: seq<Phase>)
    requires w < |s.workers| && s.workers[w].Ready? && PopStep(s, s', w, job, ws)
    ensures Instances(s') == Instances(s)
  {
    if s.task {
      SameRunning(s.workers, ws);
    } else {
      SameRunning(s.workers, ws);
    }
    assert JobOf(ws[w]) == multiset{} by {
      assert ws[w] == s.workers[w];
    }
    RunningUpdate(ws, w, Running(job));
    MoveInstance(s.queue, job, RunningJobs(s.workers), RunningJobs(ws[w := Running(job)]));
  }

  lemma IterateKeepsInstances(s: State, s': State, w: nat)
    requires w < |s.workers| && s.workers[w].Ready? && Iterate(s, s', w)
    ensures Instances(s') == Instances(s) && s'.issued == s.issued && s'.runs == s.runs
  {
    if !s.stop && Due(s) {
      var job, ws :| PopStep(s, s', w, job, ws);
      PopKeepsInstances(s, s', w, job, ws);
    } else {
      SameRunning(s.workers, s'.workers);
    }
  }

  /** The instance that the end of `job` leaves behind. */
  function Again(job: Job, time: int): multiset<Job> {
    if job.kind.Plain? then multiset{} else multiset{Job(job.id, time, Plain)}
  }

  lemma EndInstance(queue: multiset<Job>, running: multiset<Job>, running': multiset<Job>, job: Job,
                    again: multiset<Job>)
    requires running' + multiset{job} == running
    ensures job in queue + running && queue + again + running' == queue + running - multiset{job} + again
  {}

  /** The running instance of `job` has ended, and what it leaves behind is due at `time`. */
  ghost predicate Ended(s: State, s': State, job: Job, time: int) {
    && job in Instances(s) && Instances(s') == Instances(s) - multiset{job} + Again(job, time)
    && s'.issued == s.issued && job.id in s.runs && s'.runs == s.runs[job.id := s.runs[job.id] + 1]
  }

  lemma FinishMoves(s: State, s': State, w: nat, job: Job)
    requires w < |s.workers| && s.workers[w] == Running(job) && job.id in s.runs && FinishStep(s, s', w, job)
    ensures RunningJobs(s'.workers) + multiset{job} == RunningJobs(s.workers)
  {
    var ws := s.workers[w := Ready];
    FreeWorker(s.workers, w);
    if job.kind.Wrapper? {
      NotifyKeepsRunning(ws, s'.workers);
    }
  }

  lemma NotifyKeepsRunning(ws: seq<Phase>, ws': seq<Phase>)
    requires NotifyQueue(ws, ws')
    ensures RunningJobs(ws') == RunningJobs(ws)
  {
    SameRunning(ws, ws');
  }

  lemma FinishEnds(s: State, s': State, w: nat, job: Job) returns (time: int)
    requires w < |s.workers| && s.workers[w] == Running(job) && job.id in s.runs && FinishStep(s, s', w, job)
    ensures Ended(s, s', job, time) && time == if job.kind.Plain? then s.now else s.now + job.kind.interval
  {
    time := if job.kind.Plain? then s.now else s.now + job.kind.interval;
    FinishMoves(s, s', w, job);
    assert s'.queue == s.queue + Again(job, time);
    EndInstance(s.queue, RunningJobs(s.workers), RunningJobs(s'.workers), job, Again(job, time));
  }

  lemma FreeWorker(ws: seq<Phase>, w: nat)
    requires w < |ws| && ws[w].Running?
    ensures RunningJobs(ws[w := Ready]) + multiset{ws[w].job} == RunningJobs(ws)
  {
    RunningUpdate(ws, w, Ready);
  }

  /** A single instance is replaced by at most one other of the same job. */
  lemma SwapInstance(jobs: multiset<Job>, issued: Issued, runs: Runs, job: Job, time: int)
    requires Accounted(jobs, issued, runs) && job in jobs
    ensures job.id in runs
    ensures Accounted(jobs - multiset{job} + Again(job, time), issued, runs[job.id := runs[job.id] + 1])
  {
    var jobs' := jobs - multiset{job} + Again(job, time);
    OnlyInstance(jobs, issued, runs, job);
    if job.kind.Wrapper? {
      var next := Job(job.id, time, Plain);
      assert jobs'[next] == 1 && next in jobs';
      assert forall j :: j in jobs' && j.id == job.id ==> j == next;
      assert OneInstance(jobs', job.id);
    }
    EndKeepsAccount(jobs, jobs', issued, runs, job);
  }

  lemma EndKeepsJobs(s: State, s': State, job: Job, time: int)
    requires JobsAccounted(s) && Ended(s, s', job, time)
    ensures JobsAccounted(s')
  {
    SwapInstance(Instances(s), s.issued, s.runs, job, time);
  }

  lemma IssueKeepsJobs(s: State, s': State, job: Job)
    requires JobsAccounted(s) && job.id !in s.issued && NotifyQueue(s.workers, s'.workers)
    requires s'.queue == s.queue + multiset{job} && s'.issued == s.issued[job.id := job.kind.Wrapper?] &&
             s'.runs == s.runs[job.id := 0]
    ensures JobsAccounted(s')
  {
    SameRunning(s.workers, s'.workers);
    IssueKeepsAccount(Instances(s), s.issued, s.runs, job);
    assert Instances(s') == Instances(s) + multiset{job};
  }

  lemma TimedMovesInstances(s: State, s': State, w: nat)
    requires w < |s.workers| && s.workers[w].TimedWait? && Iterate(LeaveTimed(s, w), s', w)
    ensures Instances(s') == Instances(s) && s'.issued == s.issued && s'.runs == s.runs
  {
    SameRunning(s.workers, LeaveTimed(s, w).workers);
    IterateKeepsInstances(LeaveTimed(s, w), s', w);
  }

  /** The steps that neither schedule nor end a job only move instances. */
  lemma StepMovesInstances(s: State, s': State, step: Step)
    requires NextStep(s, s', step) && !step.Schedule? && !step.SchedulePeriodic? && !step.Finish?
    ensures Instances(s') == Instances(s) && s'.issued == s.issued && s'.runs == s.runs
  {
    match step
    case Tick(_) =>
    case Work(w) => IterateKeepsInstances(s, s', w);
    case WakeTimed(w) => TimedMovesInstances(s, s', w);
    case WakeLeader(w) => TimedMovesInstances(s, s', w);
    case Recheck(w) => SameRunning(s.workers, s'.workers);
    case WakeQueue(w) => SameRunning(s.workers, s'.workers);
    case Shutdown => SameRunning(s.workers, s'.workers);
  }

  /** Every step keeps the account of the jobs. */
  lemma StepKeepsJobs(s: State, s': State, step: Step)
    requires JobsAccounted(s) && NextStep(s, s', step)
    ensures JobsAccounted(s')
  {
    match step {
      case Schedule(id, time) => IssueKeepsJobs(s, s', Job(id, time, Plain));
      case SchedulePeriodic(id, interval) => IssueKeepsJobs(s, s', Job(id, s.now + interval, Wrapper(interval)));
      case Finish(w) =>
        var time := FinishEnds(s, s', w, s.workers[w].job);
        EndKeepsJobs(s, s', s.workers[w].job, time);
      case _ => StepMovesInstances(s, s', step);
    }
  }

  // ---- Over whole runs ----

  lemma InitHolds(s: State)
    requires Init(s)
    ensures Waiting(s) && JobsAccounted(s)
  {
    NobodyRuns(s.workers);
  }

  lemma {:induction false} NobodyRuns(ws: seq<Phase>)
    requires forall w :: 0 <= w < |ws| ==> ws[w] == Ready
    ensures RunningJobs(ws) == multiset{}
  {
    if ws != [] {
      NobodyRuns(ws[1..]);
    }
  }

  /** In every state of every interleaving: `task` is set exactly while there is one leader, the workers never all wait
      for the queue while jobs are pending, after a shutdown every waiter has been woken, and the jobs are accounted
      for. */
  lemma {:induction false} Safety(b: seq<State>, i: nat)
    requires Behaviour(b) && i < |b|
    ensures Waiting(b[i]) && JobsAccounted(b[i])
  {
    if i == 0 {
      InitHolds(b[0]);
    } else {
      Safety(b, i - 1);
      assert Next(b[i - 1], b[i - 1 + 1]);
      var step :| NextStep(b[i - 1], b[i], step);
      StepKeepsWaiting(b[i - 1], b[i], step);
      StepKeepsJobs(b[i - 1], b[i], step);
    }
  }

  /** A job has an instance, then exactly one, as long as it has not been run as often as promised: once, or twice for
      a periodic job. */
  lemma InstanceIffRunsLeft(b: seq<State>, i: nat, id: JobId)
    requires Behaviour(b) && i < |b| && id in b[i].issued
    ensures var s := b[i];
            && id in s.runs && s.runs[id] <= Promised(s.issued, id)
            && (OneInstance(Instances(s), id) <==> s.runs[id] < Promised(s.issued, id))
            && ((exists job :: job in Instances(s) && job.id == id) <==> s.runs[id] < Promised(s.issued, id))
  {
    Safety(b, i);
    var s := b[i];
    forall job | job in Instances(s) ensures job.id != id || s.runs[id] < Promised(s.issued, id) {
      assert Fits(job, s.issued, s.runs);
    }
    if s.runs[id] < Promised(s.issued, id) {
      assert OneInstance(Instances(s), id);
    }
  }
}

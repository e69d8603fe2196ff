/** BatchJob of src/master/jobmgr.py: a job is a graph of tasks; a task is handed to the scheduler when the
    tasks it depends on have finished.

    The first half says what a job is and what a report does to it, without counters and without
    remaining-dependency lists; class BatchJob then does the same with them. */
module BatchJobs {
  import opened Sequences

  datatype Status = Pending | Scheduling | Running | Retrying | Failed | Finished | Stopped

  datatype JobStatus = JobPending | JobRunning | JobStopping | JobDone | JobFailed | JobStopped

  /** `declared` is what the job description says and never changes; `finished` are the tasks that have been
      reported finished at least once. */
  datatype Job = Job(declared: map<string, seq<string>>, status: map<string, Status>, finished: set<string>,
                     job: JobStatus)

  /** The dependencies still to wait for, in the order in which they were declared, repetitions included. */
  function Remaining(declared: seq<string>, finished: set<string>): seq<string> {
    if declared == [] then []
    else (if declared[0] in finished then [] else [declared[0]]) + Remaining(declared[1..], finished)
  }

  lemma {:induction false} RemainingMembers(declared: seq<string>, finished: set<string>)
    ensures forall d :: d in Remaining(declared, finished) <==> d in declared && d !in finished
    decreases |declared|
  {
    if declared != [] {
      RemainingMembers(declared[1..], finished);
      assert forall d :: d in declared <==> d == declared[0] || d in declared[1..];
    }
  }

  ghost predicate WellFormed(j: Job) {
    && j.declared.Keys == j.status.Keys
    && (forall t :: t in j.status && j.status[t] == Finished ==> t in j.finished)
    && (forall t :: t in j.finished ==> t in j.status && j.status[t] != Pending)
  }

  /** Dependencies are tasks of the job; the constructor refuses other jobs. */
  ghost predicate Closed(declared: map<string, seq<string>>) {
    forall t, d {:trigger d in declared[t]} :: t in declared && d in declared[t] ==> d in declared
  }

  ghost predicate Ready(j: Job, t: string) {
    t in j.declared && t in j.status && j.status[t] == Pending && Remaining(j.declared[t], j.finished) == []
  }

  /** The status that a scan of all tasks gives the job. */
  ghost function Scan(j: Job): JobStatus {
    if exists t :: t in j.status && j.status[t] == Failed then JobFailed
    else if forall t :: t in j.status ==> j.status[t] == Finished then JobDone
    else if j.job == JobStopping then
      if exists t :: t in j.status && j.status[t] in {Running, Scheduling, Retrying} then JobStopping else JobStopped
    else if exists t :: t in j.status && j.status[t] in {Running, Retrying} then JobRunning
    else JobPending
  }

  ghost function Rescan(j: Job): Job {
    j.(job := Scan(j))
  }

  datatype Event =
    | HandOut
    | ReportRunning(task: string)
    | ReportRetrying(task: string)
    | ReportFailed(task: string)
    | ReportFinished(task: string)
    | ReportStopped(task: string)
    | StopJob

  /** Hands over every task that waits for nothing. */
  ghost function Schedule(j: Job): Job {
    j.(status := map t | t in j.status :: if Ready(j, t) then Scheduling else j.status[t])
  }

  /** A finished task frees the tasks that waited for it alone; a second report of the same task frees none. */
  ghost function Finish(j: Job, x: string): Job
    requires x in j.status
  {
    var done := j.(status := j.status[x := Finished], finished := j.finished + {x});
    if x in j.finished then done
    else done.(status := map t | t in j.status ::
      if Ready(done, t) && t in j.declared && x in j.declared[t] then Scheduling else done.status[t])
  }

  ghost function SetTo(j: Job, t: string, s: Status): Job {
    j.(status := j.status[t := s])
  }

  ghost function Step(j: Job, e: Event): Job {
    match e
    case HandOut => Schedule(j)
    case ReportRunning(t) => if t in j.status then Rescan(SetTo(j, t, Running)) else j
    case ReportRetrying(t) => if t in j.status then Rescan(SetTo(j, t, Retrying)) else j
    case ReportFailed(t) => if t in j.status then Rescan(SetTo(j, t, Failed)) else j
    case ReportFinished(t) => if t in j.status then Rescan(Finish(j, t)) else j
    case ReportStopped(t) =>
      if t in j.status && j.status[t] !in {Failed, Finished, Stopped} then Rescan(SetTo(j, t, Stopped)) else j
    case StopJob => j.(job := JobStopping)
  }

  ghost function Run(j: Job, es: seq<Event>): Job
    decreases |es|
  {
    if es == [] then j else Step(Run(j, es[..|es| - 1]), es[|es| - 1])
  }

  ghost function NewJob(declared: map<string, seq<string>>): Job {
    Job(declared, map t | t in declared :: Pending, {}, JobPending)
  }

  // ----- what every run keeps

  /** Process_job has handed over every task that waits for nothing, and nothing such has been left since. */
  ghost predicate Started(j: Job) {
    WellFormed(j) && forall t :: t in j.declared ==> !Ready(j, t)
  }

  lemma SetToKeeps(j: Job, t: string, s: Status)
    requires WellFormed(j) && t in j.status && s !in {Pending, Finished}
    ensures WellFormed(SetTo(j, t, s)) && (Started(j) ==> Started(SetTo(j, t, s)))
  {
    var k := SetTo(j, t, s);
    assert forall u :: Ready(k, u) ==> Ready(j, u);
  }

  lemma ScheduleKeeps(j: Job)
    requires WellFormed(j)
    ensures WellFormed(Schedule(j)) && Started(Schedule(j))
  {
    var k := Schedule(j);
    assert forall u :: u in j.declared && Ready(k, u) ==> Ready(j, u);
  }

  lemma FinishKeeps(j: Job, x: string)
    requires WellFormed(j) && x in j.status
    ensures WellFormed(Finish(j, x)) && (Started(j) ==> Started(Finish(j, x)))
  {
    var k := Finish(j, x);
    if Started(j) {
      forall t | t in j.declared
        ensures !Ready(k, t)
      {
        if x in j.finished || x !in j.declared[t] {
          SameRemaining(j.declared[t], j.finished, k.finished, x);
          assert !Ready(j, t);
        }
      }
    }
  }

  lemma RescanKeeps(j: Job)
    ensures WellFormed(Rescan(j)) <==> WellFormed(j)
    ensures Started(Rescan(j)) <==> Started(j)
  {
    assert forall t :: Ready(Rescan(j), t) <==> Ready(j, t);
  }

  lemma StepKeeps(j: Job, e: Event)
    requires WellFormed(j)
    ensures WellFormed(Step(j, e)) && (Started(j) || e.HandOut? ==> Started(Step(j, e)))
    ensures Step(j, e).declared == j.declared && Step(j, e).status.Keys == j.status.Keys
    ensures j.finished <= Step(j, e).finished
  {
    match e
    case HandOut => ScheduleKeeps(j);
    case ReportRunning(t) => if t in j.status { SetToKeeps(j, t, Running); RescanKeeps(SetTo(j, t, Running)); }
    case ReportRetrying(t) => if t in j.status { SetToKeeps(j, t, Retrying); RescanKeeps(SetTo(j, t, Retrying)); }
    case ReportFailed(t) => if t in j.status { SetToKeeps(j, t, Failed); RescanKeeps(SetTo(j, t, Failed)); }
    case ReportFinished(t) => if t in j.status { FinishKeeps(j, t); RescanKeeps(Finish(j, t)); }
    case ReportStopped(t) => if t in j.status { SetToKeeps(j, t, Stopped); RescanKeeps(SetTo(j, t, Stopped)); }
    case StopJob => assert forall t :: Ready(Step(j, e), t) <==> Ready(j, t);
  }

  lemma {:induction false} SameRemaining(declared: seq<string>, finished: set<string>, more: set<string>, x: string)
    requires more == finished + {x} && (x in finished || x !in declared)
    ensures Remaining(declared, more) == Remaining(declared, finished)
    decreases |declared|
  {
    if declared != [] {
      SameRemaining(declared[1..], finished, more, x);
    }
  }

  lemma {:induction false} RunKeeps(declared: map<string, seq<string>>, es: seq<Event>)
    requires WellFormed(NewJob(declared))
    ensures var j := Run(NewJob(declared), es);
      WellFormed(j) && j.declared == declared && (es != [] && es[0] == HandOut ==> Started(j))
    decreases |es|
  {
    if es != [] {
      var before := es[..|es| - 1];
      RunKeeps(declared, before);
      StepKeeps(Run(NewJob(declared), before), es[|es| - 1]);
      assert before != [] ==> before[0] == es[0];
    }
  }

  /** A task leaves 'pending' at most once, and when it is handed over all its dependencies have finished. */
  lemma HandedOnceWhenReady(j: Job, e: Event, t: string)
    requires WellFormed(j) && t in j.status
    ensures j.status[t] != Pending ==> Step(j, e).status[t] != Pending
    ensures j.status[t] == Pending && (e.HandOut? || (e.ReportFinished? && e.task != t)) &&
            Step(j, e).status[t] != Pending ==>
              Step(j, e).status[t] == Scheduling && forall d :: d in j.declared[t] ==> d in Step(j, e).finished
  {
    RemainingMembers(j.declared[t], Step(j, e).finished);
  }

  /** A failed task leaves its job failed, so JobMgr.report drops the job. */
  lemma FailedIsFailed(j: Job, t: string)
    requires t in j.status
    ensures Step(j, ReportFailed(t)).job == JobFailed
  {
    assert Step(j, ReportFailed(t)).status[t] == Failed;
  }

  /** A task that runs or tries again leaves its job open, unless a task has failed. */
  lemma OpenUnlessFailed(j: Job, t: string)
    requires t in j.status
    ensures forall e :: e in {ReportRunning(t), ReportRetrying(t)} ==>
      if exists u :: u in Step(j, e).status && Step(j, e).status[u] == Failed then Step(j, e).job == JobFailed
      else Step(j, e).job !in {JobDone, JobFailed, JobStopped}
  {
    forall e | e in {ReportRunning(t), ReportRetrying(t)}
      ensures if exists u :: u in Step(j, e).status && Step(j, e).status[u] == Failed then Step(j, e).job == JobFailed
              else Step(j, e).job !in {JobDone, JobFailed, JobStopped}
    {
      assert Step(j, e).status[t] in {Running, Retrying};
    }
  }

  /** A task that was handed over and is not over. */
  ghost predicate InHand(j: Job) {
    exists t :: t in j.status && j.status[t] in {Running, Scheduling, Retrying}
  }

  ghost predicate NoneFailed(j: Job) {
    forall t :: t in j.status ==> j.status[t] != Failed
  }

  /** After event k, the stop, nothing fails, and the job stays in the job map until nothing is in hand. */
  ghost predicate StoppingRun(declared: map<string, seq<string>>, es: seq<Event>, k: nat)
    decreases |es|
  {
    k < |es| && if |es| == k + 1 then es[k] == StopJob else StoppingStep(declared, es, k)
  }

  ghost predicate StoppingStep(declared: map<string, seq<string>>, es: seq<Event>, k: nat)
    requires k + 1 < |es|
    decreases |es|, 0
  {
    var before := es[..|es| - 1];
    var j := Run(NewJob(declared), before);
    && StoppingRun(declared, before, k) && (|before| > k + 1 ==> InHand(j))
    && IsAccepted(j, es[|es| - 1]) && NoneFailed(Step(j, es[|es| - 1]))
  }

  /** Such a job is stopping while a task is in hand; when none is any more it is stopped, or done if all have finished.
      */
  lemma {:induction false} StopEndsStopped(declared: map<string, seq<string>>, es: seq<Event>, k: nat)
    requires StoppingRun(declared, es, k)
    ensures |es| == k + 1 ==> Run(NewJob(declared), es).job == JobStopping
    ensures |es| > k + 1 ==> IsStopping(Run(NewJob(declared), es))
    decreases |es|
  {
    if |es| > k + 1 {
      var before := es[..|es| - 1];
      StopEndsStopped(declared, before, k);
      StoppedWhenQuiet(Run(NewJob(declared), before), es[|es| - 1]);
    }
  }

  ghost predicate IsStopping(j: Job) {
    j.job == if InHand(j) then JobStopping
             else if forall t :: t in j.status ==> j.status[t] == Finished then JobDone
             else JobStopped
  }

  lemma StoppedWhenQuiet(j: Job, e: Event)
    requires j.job == JobStopping && IsAccepted(j, e) && NoneFailed(Step(j, e))
    ensures IsStopping(Step(j, e))
  {
  }

  // ----- progress, and what a cycle stops

  /** The reports that the scheduler makes: about tasks that were handed over to it. */
  ghost predicate Legal(j: Job, e: Event) {
    match e
    case HandOut => true
    case StopJob => true
    case ReportRunning(t) => t in j.status && j.status[t] != Pending
    case ReportRetrying(t) => t in j.status && j.status[t] != Pending
    case ReportFailed(t) => t in j.status && j.status[t] != Pending
    case ReportFinished(t) => t in j.status && j.status[t] != Pending
    case ReportStopped(t) => t in j.status && j.status[t] != Pending
  }

  ghost predicate LegalRun(j: Job, es: seq<Event>)
    decreases |es|
  {
    es == [] || (LegalRun(j, es[..|es| - 1]) && Legal(Run(j, es[..|es| - 1]), es[|es| - 1]))
  }

  ghost predicate WaitsInside(declared: map<string, seq<string>>, t: string, c: set<string>) {
    t in declared && exists d :: d in declared[t] && d in c
  }

  /** Every task of `c` depends on a task of `c`: the tasks on or behind cycles are such a set. */
  ghost predicate Stuck(declared: map<string, seq<string>>, c: set<string>) {
    forall t {:trigger WaitsInside(declared, t, c)} :: t in c ==> WaitsInside(declared, t, c)
  }

  /** No task of a stuck set is ever handed over. */
  lemma {:induction false} StuckNeverHanded(declared: map<string, seq<string>>, es: seq<Event>, c: set<string>)
    requires WellFormed(NewJob(declared)) && Stuck(declared, c) && LegalRun(NewJob(declared), es)
    ensures var j := Run(NewJob(declared), es);
      (forall t :: t in c ==> t in j.status && j.status[t] == Pending) && c !! j.finished
    decreases |es|
  {
    RunKeeps(declared, es);
    if es != [] {
      var before := es[..|es| - 1];
      RunKeeps(declared, before);
      StuckNeverHanded(declared, before, c);
      StuckStaysPending(Run(NewJob(declared), before), es[|es| - 1], c);
    } else {
      assert forall t :: t in c ==> WaitsInside(declared, t, c);
    }
  }

  lemma StuckStaysPending(j: Job, e: Event, c: set<string>)
    requires WellFormed(j) && Stuck(j.declared, c) && Legal(j, e) && c !! j.finished
    requires forall t :: t in c ==> t in j.status && j.status[t] == Pending
    ensures forall t :: t in c ==> t in Step(j, e).status && Step(j, e).status[t] == Pending
    ensures c !! Step(j, e).finished
  {
    var k := Step(j, e);
    assert c !! k.finished;
    forall t | t in c
      ensures k.status[t] == Pending
    {
      assert WaitsInside(j.declared, t, c);
      var d :| d in j.declared[t] && d in c;
      RemainingMembers(j.declared[t], j.finished);
      RemainingMembers(j.declared[t], k.finished);
      assert d in Remaining(j.declared[t], j.finished) && d in Remaining(j.declared[t], k.finished);
    }
  }

  ghost function Unfinished(j: Job): set<string> {
    set t | t in j.status && t !in j.finished
  }

  /** When every task that was handed over has finished, the unfinished tasks are just a stuck set; so they
      are the tasks on or behind cycles, and no others. */
  lemma QuietMeansStuck(j: Job)
    requires Started(j) && Closed(j.declared)
    requires forall t :: t in j.status && j.status[t] != Pending ==> t in j.finished
    ensures Stuck(j.declared, Unfinished(j))
  {
    forall t {:trigger WaitsInside(j.declared, t, Unfinished(j))} | t in Unfinished(j)
      ensures WaitsInside(j.declared, t, Unfinished(j))
    {
      assert !Ready(j, t);
      RemainingMembers(j.declared[t], j.finished);
      var d := Remaining(j.declared[t], j.finished)[0];
      assert d in Remaining(j.declared[t], j.finished);
      assert d in j.declared[t] && d in Unfinished(j);
    }
  }

  /** The graph has no cycle: dependencies have smaller numbers. */
  ghost predicate Acyclic(declared: map<string, seq<string>>, rank: map<string, nat>) {
    && declared.Keys <= rank.Keys
    && forall t, d :: t in declared && d in declared[t] ==> d in rank && rank[d] < rank[t]
  }

  lemma {:induction false} AcyclicIsNotStuck(declared: map<string, seq<string>>, rank: map<string, nat>, c: set<string>,
                                             t: string)
    requires Acyclic(declared, rank) && Stuck(declared, c)
    ensures t !in c
    decreases if t in rank then rank[t] else 0
  {
    if t in c {
      assert WaitsInside(declared, t, c);
      var d :| d in declared[t] && d in c;
      AcyclicIsNotStuck(declared, rank, c, d);
    }
  }

  /** In an acyclic job, as long as a task is not finished, some task is handed over and not finished. */
  lemma Progress(j: Job, rank: map<string, nat>)
    requires Started(j) && Closed(j.declared) && Acyclic(j.declared, rank)
    requires exists t :: t in j.status && j.status[t] != Finished
    ensures exists t :: t in j.status && j.status[t] !in {Pending, Finished}
  {
    if forall t :: t in j.status ==> j.status[t] in {Pending, Finished} {
      var t :| t in j.status && j.status[t] != Finished;
      QuietMeansStuck(j);
      AcyclicIsNotStuck(j.declared, rank, Unfinished(j), t);
    }
  }

  /** So an acyclic job whose handed-over tasks have all finished is done. */
  lemma AcyclicEndsDone(j: Job, rank: map<string, nat>)
    requires Started(j) && Closed(j.declared) && Acyclic(j.declared, rank)
    requires forall t :: t in j.status && j.status[t] != Pending ==> j.status[t] == Finished
    ensures forall t :: t in j.status ==> j.status[t] == Finished
    ensures Scan(j) == JobDone
  {
    if exists t :: t in j.status && j.status[t] != Finished {
      Progress(j, rank);
    }
  }

  /** Reporting such a task finished leaves one unfinished task fewer, and no report leaves more. */
  lemma FinishDecreases(j: Job, e: Event)
    requires WellFormed(j)
    ensures Unfinished(Step(j, e)) == if e.ReportFinished? then Unfinished(j) - {e.task} else Unfinished(j)
    ensures e.ReportFinished? && e.task in Unfinished(j) ==> |Unfinished(Step(j, e))| == |Unfinished(j)| - 1
  {
    StepKeeps(j, e);
    var u, v := Unfinished(j), Unfinished(Step(j, e));
    assert Step(j, e).status.Keys == j.status.Keys;
    assert v == if e.ReportFinished? then u - {e.task} else u;
  }

  // ----- whole runs

  ghost predicate CanFinish(j: Job, t: string) {
    t in j.status && j.status[t] !in {Pending, Finished}
  }

  /** How many finish reports of the run were the first of their task. */
  ghost function FirstFinishes(declared: map<string, seq<string>>, es: seq<Event>): nat
    decreases |es|
  {
    if es == [] then 0
    else
      var before, e := es[..|es| - 1], es[|es| - 1];
      FirstFinishes(declared, before) +
      if e.ReportFinished? && e.task in Unfinished(Run(NewJob(declared), before)) then 1 else 0
  }

  lemma {:induction false} RunCounts(declared: map<string, seq<string>>, es: seq<Event>)
    ensures |Unfinished(Run(NewJob(declared), es))| == |declared| - FirstFinishes(declared, es)
    decreases |es|
  {
    if es == [] {
      assert Unfinished(NewJob(declared)) == declared.Keys;
    } else {
      var before, e := es[..|es| - 1], es[|es| - 1];
      var j := Run(NewJob(declared), before);
      RunCounts(declared, before);
      RunKeeps(declared, before);
      FinishDecreases(j, e);
      if e.ReportFinished? && e.task !in Unfinished(j) {
        assert Unfinished(j) - {e.task} == Unfinished(j);
      }
    }
  }

  /** The report reaches a task of the job, and is not a stop of a task that is over. */
  ghost predicate IsAccepted(j: Job, e: Event) {
    match e
    case HandOut => false
    case StopJob => false
    case ReportRunning(t) => t in j.status
    case ReportRetrying(t) => t in j.status
    case ReportFailed(t) => t in j.status
    case ReportFinished(t) => t in j.status
    case ReportStopped(t) => t in j.status && j.status[t] !in {Failed, Finished, Stopped}
  }

  lemma DoneAfterReport(j: Job, e: Event)
    requires IsAccepted(j, e)
    requires forall t :: t in Step(j, e).status ==> Step(j, e).status[t] == Finished
    ensures Step(j, e).job == JobDone
  {
  }

  /** In every run, whatever is reported in whatever order, no more tasks finish than the job has.  If the job has no
      cycle, and no task that was handed over is left that could finish, then all have finished, and after the last
      accepted report the job is done. */
  lemma EveryRunEndsDone(declared: map<string, seq<string>>, rank: map<string, nat>, es: seq<Event>)
    requires es != [] && es[0] == HandOut
    ensures FirstFinishes(declared, es) <= |declared|
    ensures var j := Run(NewJob(declared), es);
      Closed(declared) && Acyclic(declared, rank) && (forall t :: !CanFinish(j, t)) ==>
        && FirstFinishes(declared, es) == |declared|
        && (forall t :: t in declared ==> t in j.status && j.status[t] == Finished)
        && (IsAccepted(Run(NewJob(declared), es[..|es| - 1]), es[|es| - 1]) ==> j.job == JobDone)
  {
    RunCounts(declared, es);
    RunKeeps(declared, es);
    var j := Run(NewJob(declared), es);
    if Closed(declared) && Acyclic(declared, rank) && forall t :: !CanFinish(j, t) {
      forall t | t in j.status
        ensures j.status[t] in {Pending, Finished}
      {
        assert !CanFinish(j, t);
      }
      AcyclicEndsDone(j, rank);
      assert Unfinished(j) == {};
      if IsAccepted(Run(NewJob(declared), es[..|es| - 1]), es[|es| - 1]) {
        DoneAfterReport(Run(NewJob(declared), es[..|es| - 1]), es[|es| - 1]);
      }
    }
  }

  /** process_job, and then reports of tasks that were handed over and have not finished: that they run, are tried
      again, or finished. */
  ghost predicate FinishingRun(declared: map<string, seq<string>>, es: seq<Event>)
    decreases |es|
  {
    es != [] &&
    if |es| == 1 then es[0] == HandOut
    else
      var j, e := Run(NewJob(declared), es[..|es| - 1]), es[|es| - 1];
      && FinishingRun(declared, es[..|es| - 1])
      && (e.ReportRunning? || e.ReportRetrying? || e.ReportFinished?) && CanFinish(j, e.task)
  }

  ghost function Finishes(es: seq<Event>): nat {
    if es == [] then 0 else Finishes(es[..|es| - 1]) + if es[|es| - 1].ReportFinished? then 1 else 0
  }

  ghost predicate FinishedIsKept(j: Job) {
    forall t :: t in j.finished ==> t in j.status && j.status[t] == Finished
  }

  lemma StepKeepsFinished(j: Job, e: Event)
    requires WellFormed(j) && FinishedIsKept(j)
    requires e == HandOut || ((e.ReportRunning? || e.ReportRetrying? || e.ReportFinished?) && CanFinish(j, e.task))
    ensures FinishedIsKept(Step(j, e))
  {
  }

  lemma {:induction false} FinishingRunCounts(declared: map<string, seq<string>>, es: seq<Event>)
    requires FinishingRun(declared, es)
    ensures es[0] == HandOut && Finishes(es) == FirstFinishes(declared, es)
    ensures FinishedIsKept(Run(NewJob(declared), es))
    decreases |es|
  {
    var before := es[..|es| - 1];
    var j := Run(NewJob(declared), before);
    RunKeeps(declared, before);
    if |es| == 1 {
      assert before == [];
    } else {
      FinishingRunCounts(declared, before);
    }
    StepKeepsFinished(j, es[|es| - 1]);
  }

  /** Such a run has no more finish reports than the job has tasks; and if the job has no cycle, a run that cannot go
      on has one for every task, and the job is done. */
  lemma FinishingRunEndsDone(declared: map<string, seq<string>>, rank: map<string, nat>, es: seq<Event>)
    requires FinishingRun(declared, es)
    ensures Finishes(es) <= |declared|
    ensures Closed(declared) && Acyclic(declared, rank) && (forall t :: !CanFinish(Run(NewJob(declared), es), t)) ==>
              Finishes(es) == |declared| && (declared != map[] ==> Run(NewJob(declared), es).job == JobDone)
  {
    FinishingRunCounts(declared, es);
    EveryRunEndsDone(declared, rank, es);
    if |es| == 1 {
      assert es[..0] == [];
      assert Finishes(es) == 0;
    }
  }

  /** The tasks that get_tasks_no_dependency or finish_task returns. */
  ghost function Handed(j: Job, e: Event): set<string> {
    match e
    case HandOut => set t | t in j.status && Ready(j, t)
    case ReportFinished(x) => if x in j.status then FreedBy(j, x) else {}
    case _ => {}
  }

  lemma HandedLeavePending(j: Job, e: Event, t: string)
    requires WellFormed(j) && t in Handed(j, e)
    ensures t in j.status && j.status[t] == Pending && Step(j, e).status[t] == Scheduling
    ensures forall d :: d in j.declared[t] ==> d in Step(j, e).finished
  {
    HandedOnceWhenReady(j, e, t);
  }

  ghost predicate LeftPending(j: Job, t: string) {
    t in j.status && j.status[t] != Pending
  }

  lemma LeftPendingStays(j: Job, e: Event, t: string)
    requires WellFormed(j) && LeftPending(j, t)
    ensures LeftPending(Step(j, e), t)
  {
    HandedOnceWhenReady(j, e, t);
  }

  lemma {:induction false} NotPendingStays(declared: map<string, seq<string>>, es: seq<Event>, i: nat, t: string)
    requires i <= |es| && LeftPending(Run(NewJob(declared), es[..i]), t)
    ensures LeftPending(Run(NewJob(declared), es), t)
    decreases |es|
  {
    if i == |es| {
      assert es[..i] == es;
    } else {
      var before := es[..|es| - 1];
      assert before[..i] == es[..i];
      NotPendingStays(declared, before, i, t);
      RunKeeps(declared, before);
      LeftPendingStays(Run(NewJob(declared), before), es[|es| - 1], t);
    }
  }

  /** In every run the lists of tasks that are handed over name no task twice. */
  lemma HandedOncePerRun(declared: map<string, seq<string>>, es: seq<Event>, i: nat, k: nat)
    requires i < k < |es|
    ensures Handed(Run(NewJob(declared), es[..i]), es[i]) !! Handed(Run(NewJob(declared), es[..k]), es[k])
  {
    var j := Run(NewJob(declared), es[..i]);
    RunKeeps(declared, es[..i]);
    RunKeeps(declared, es[..k]);
    forall t | t in Handed(j, es[i])
      ensures t !in Handed(Run(NewJob(declared), es[..k]), es[k])
    {
      HandedLeavePending(j, es[i], t);
      assert es[..i + 1][..i] == es[..i] && es[..k][..i + 1] == es[..i + 1];
      NotPendingStays(declared, es[..k], i + 1, t);
      if t in Handed(Run(NewJob(declared), es[..k]), es[k]) {
        HandedLeavePending(Run(NewJob(declared), es[..k]), es[k], t);
      }
    }
  }

  // ----- the counters and lists that the source keeps

  function RemoveTimes(s: seq<string>, x: string, n: nat): seq<string>
    decreases n
  {
    if n == 0 then s else RemoveFirst(RemoveTimes(s, x, n - 1), x)
  }

  lemma {:induction false} RemoveFirstCons(d: string, s: seq<string>, x: string, n: nat)
    ensures d != x ==> RemoveTimes([d] + s, x, n) == [d] + RemoveTimes(s, x, n)
    ensures d == x && n > 0 ==> RemoveTimes([d] + s, x, n) == RemoveTimes(s, x, n - 1)
    decreases n
  {
    if n > 0 {
      RemoveFirstCons(d, s, x, n - 1);
      if d == x {
        if n == 1 {
          assert ([d] + s)[1..] == s;
        }
      } else {
        var r := RemoveTimes(s, x, n - 1);
        assert ([d] + r)[1..] == r;
      }
    }
  }

  /** Removing a dependency once for every time it was declared removes it for good. */
  lemma {:induction false} RemoveAll(declared: seq<string>, finished: set<string>, x: string, n: nat)
    requires n >= multiset(declared)[x]
    ensures RemoveTimes(Remaining(declared, finished), x, n) == Remaining(declared, finished + {x})
    decreases |declared|
  {
    if declared == [] {
      RemoveFromNothing(x, n);
    } else {
      var d, rest := declared[0], declared[1..];
      assert declared == [d] + rest;
      assert multiset(declared) == multiset{d} + multiset(rest);
      if d in finished {
        assert Remaining(declared, finished) == Remaining(rest, finished);
        RemoveAll(rest, finished, x, n);
      } else {
        RemoveFirstCons(d, Remaining(rest, finished), x, n);
        RemoveAll(rest, finished, x, if d == x then n - 1 else n);
      }
    }
  }

  lemma {:induction false} RemoveFromNothing(x: string, n: nat)
    ensures RemoveTimes([], x, n) == []
    decreases n
  {
    if n > 0 {
      RemoveFromNothing(x, n - 1);
    }
  }

  ghost function CountOf(names: seq<string>, status: map<string, Status>, s: Status): nat {
    if names == [] then 0
    else (if names[0] in status && status[names[0]] == s then 1 else 0) + CountOf(names[1..], status, s)
  }

  /** `tasks_cnt` counts the tasks of each status. */
  ghost predicate Counted(cnt: map<Status, int>, names: seq<string>, status: map<string, Status>) {
    forall s: Status :: s in cnt && cnt[s] == CountOf(names, status, s)
  }

  function Move(cnt: map<Status, int>, a: Status, b: Status): map<Status, int>
    requires a in cnt && b in cnt
  {
    var c := cnt[a := cnt[a] - 1];
    c[b := c[b] + 1]
  }

  lemma {:induction false} EnumerationSize(names: seq<string>, keys: set<string>)
    requires Enumerates(names, keys)
    ensures |names| == |keys|
    decreases |names|
  {
    if names != [] {
      EnumerationSize(names[1..], keys - {names[0]});
    }
  }

  lemma {:induction false} CountAfter(names: seq<string>, keys: set<string>, status: map<string, Status>, t: string,
                                      b: Status, s: Status)
    requires t in status && Enumerates(names, keys)
    ensures CountOf(names, status[t := b], s) == CountOf(names, status, s) +
              (if t in keys then (if s == b then 1 else 0) - (if s == status[t] then 1 else 0) else 0)
    decreases |names|
  {
    if names != [] {
      CountAfter(names[1..], keys - {names[0]}, status, t, b, s);
    }
  }

  lemma MoveCounts(cnt: map<Status, int>, names: seq<string>, keys: set<string>, status: map<string, Status>, t: string,
                   b: Status)
    requires Counted(cnt, names, status) && t in status && t in keys && Enumerates(names, keys)
    ensures Counted(Move(cnt, status[t], b), names, status[t := b])
  {
    forall s: Status
      ensures CountOf(names, status[t := b], s) ==
              cnt[s] + (if s == b then 1 else 0) - (if s == status[t] then 1 else 0)
    {
      CountAfter(names, keys, status, t, b, s);
    }
  }

  lemma {:induction false} CountAnswers(names: seq<string>, keys: set<string>, status: map<string, Status>, s: Status)
    requires Enumerates(names, keys) && keys <= status.Keys
    ensures CountOf(names, status, s) <= |names|
    ensures CountOf(names, status, s) == 0 <==> forall t :: t in keys ==> status[t] != s
    ensures CountOf(names, status, s) == |names| <==> forall t :: t in keys ==> status[t] == s
    decreases |names|
  {
    if names != [] {
      CountAnswers(names[1..], keys - {names[0]}, status, s);
    }
  }

  lemma {:induction false} CountPending(names: seq<string>, keys: set<string>, status: map<string, Status>, s: Status)
    requires Enumerates(names, keys) && keys <= status.Keys
    requires forall t :: t in keys ==> status[t] == Pending
    ensures CountOf(names, status, s) == if s == Pending then |names| else 0
    decreases |names|
  {
    if names != [] {
      CountPending(names[1..], keys - {names[0]}, status, s);
    }
  }

  /** `dependency_out[x]` names a task as many times as the task declares x. */
  ghost predicate Reversed(out: map<string, seq<string>>, declared: map<string, seq<string>>) {
    && (forall x, t {:trigger t in out[x]} :: x in out && t in out[x] ==> t in declared)
    && (forall x, t {:trigger Times(declared[t], x)} :: t in declared ==>
          Times(if x in out then out[x] else [], t) == Times(declared[t], x))
  }

  ghost function Times(s: seq<string>, x: string): nat {
    multiset(s)[x]
  }

  // ----- the loop of finish_task over dependency_out

  /** The list of `t` after the first `i` entries of `outs`. */
  ghost function ListAfter(j: Job, x: string, outs: seq<string>, i: nat, t: string): seq<string>
    requires i <= |outs| && t in j.declared
  {
    RemoveTimes(Remaining(j.declared[t], j.finished), x, Times(outs[..i], t))
  }

  /** `t` has been handed over by then. */
  ghost predicate HandedAfter(j: Job, x: string, outs: seq<string>, i: nat, t: string)
    requires i <= |outs|
  {
    && t in j.declared && t in j.status && t != x && j.status[t] == Pending
    && x in Remaining(j.declared[t], j.finished) && t in outs[..i] && ListAfter(j, x, outs, i, t) == []
  }

  /** The lists and the tasks handed over after the first `i` entries. */
  ghost predicate Struck(j: Job, x: string, outs: seq<string>, i: nat, dependency: map<string, seq<string>>,
                         handed: set<string>) {
    && i <= |outs| && dependency.Keys == j.declared.Keys
    && (forall t {:trigger ListAfter(j, x, outs, i, t)} :: t in j.declared ==>
          dependency[t] == ListAfter(j, x, outs, i, t))
    && (forall t {:trigger HandedAfter(j, x, outs, i, t)} :: t in handed <==> HandedAfter(j, x, outs, i, t))
  }

  /** The tasks in `handed`, which are those in `ret`, are being scheduled; x has finished. */
  ghost predicate Marked(j: Job, x: string, status: map<string, Status>, handed: set<string>, ret: seq<string>) {
    && x in j.status && status.Keys == j.status.Keys
    && (forall t :: t in j.status ==> status[t] == if t in handed then Scheduling else j.status[x := Finished][t])
    && (forall t :: t in handed ==> t in j.status && t != x && j.status[t] == Pending)
    && (forall t :: t in ret <==> t in handed)
    && NoRepeats(ret)
  }

  lemma {:induction false} RemoveTimesKeeps(s: seq<string>, x: string, n: nat)
    ensures forall y :: y in RemoveTimes(s, x, n) ==> y in s
    decreases n
  {
    if n > 0 {
      RemoveTimesKeeps(s, x, n - 1);
      RemoveFirstKeeps(RemoveTimes(s, x, n - 1), x);
    }
  }

  lemma {:induction false} RemoveFirstKeeps(s: seq<string>, x: string)
    ensures forall y :: y in RemoveFirst(s, x) ==> y in s
    decreases |s|
  {
    if s != [] && s[0] != x {
      RemoveFirstKeeps(s[1..], x);
    }
  }

  lemma NextTimes(outs: seq<string>, i: nat, t: string)
    requires i < |outs|
    ensures Times(outs[..i + 1], t) == Times(outs[..i], t) + if t == outs[i] then 1 else 0
    ensures t in outs[..i + 1] <==> t in outs[..i] || t == outs[i]
  {
    assert outs[..i + 1] == outs[..i] + [outs[i]];
  }

  lemma OtherTask(j: Job, x: string, outs: seq<string>, i: nat, u: string)
    requires i < |outs| && u in j.declared && u != outs[i]
    ensures ListAfter(j, x, outs, i + 1, u) == ListAfter(j, x, outs, i, u)
    ensures HandedAfter(j, x, outs, i + 1, u) <==> HandedAfter(j, x, outs, i, u)
  {
    NextTimes(outs, i, u);
  }

  lemma ThisTask(j: Job, x: string, outs: seq<string>, i: nat)
    requires i < |outs| && outs[i] in j.declared && outs[i] in j.status
    ensures var t := outs[i];
      var list := ListAfter(j, x, outs, i, t);
      && ListAfter(j, x, outs, i + 1, t) == RemoveFirst(list, x)
      && (HandedAfter(j, x, outs, i, t) ==> x !in list)
      && (HandedAfter(j, x, outs, i + 1, t) <==>
          || HandedAfter(j, x, outs, i, t)
          || (x in list && t != x && j.status[t] == Pending && RemoveFirst(list, x) == []))
  {
    var t := outs[i];
    var list := ListAfter(j, x, outs, i, t);
    NextTimes(outs, i, t);
    RemoveTimesKeeps(Remaining(j.declared[t], j.finished), x, Times(outs[..i], t));
    assert t !in outs[..i] ==> Times(outs[..i], t) == 0;
  }

  /** One turn: the entry is struck from the list of `t` if it is there, and `t` goes if its list is empty. */
  lemma StruckStep(j: Job, x: string, outs: seq<string>, i: nat, dependency: map<string, seq<string>>,
                   handed: set<string>, go: bool)
    requires Struck(j, x, outs, i, dependency, handed) && i < |outs| && outs[i] in j.declared && outs[i] in j.status
    requires go <==> x in dependency[outs[i]] && outs[i] != x && j.status[outs[i]] == Pending && outs[i] !in handed
                     && RemoveFirst(dependency[outs[i]], x) == []
    ensures Struck(j, x, outs, i + 1, dependency[outs[i] := RemoveFirst(dependency[outs[i]], x)],
                   if go then handed + {outs[i]} else handed)
    ensures outs[i] in handed ==> x !in dependency[outs[i]]
  {
    var t := outs[i];
    ThisTask(j, x, outs, i);
    var dependency' := dependency[t := RemoveFirst(dependency[t], x)];
    var handed' := if go then handed + {t} else handed;
    forall u | u in j.declared
      ensures dependency'[u] == ListAfter(j, x, outs, i + 1, u)
      ensures u in handed' <==> HandedAfter(j, x, outs, i + 1, u)
    {
      if u != t {
        OtherTask(j, x, outs, i, u);
      }
    }
    assert forall u :: u !in j.declared ==>
        !HandedAfter(j, x, outs, i + 1, u) && (u in handed ==> HandedAfter(j, x, outs, i, u));
  }

  lemma LastList(j: Job, x: string, outs: seq<string>, t: string)
    requires t in j.declared && Times(outs, t) == Times(j.declared[t], x)
    ensures ListAfter(j, x, outs, |outs|, t) == Remaining(j.declared[t], j.finished + {x})
    ensures t in outs[..|outs|] <==> x in j.declared[t]
    ensures x in Remaining(j.declared[t], j.finished) <==> x in j.declared[t] && x !in j.finished
  {
    assert outs[..|outs|] == outs;
    RemoveAll(j.declared[t], j.finished, x, Times(outs, t));
    RemainingMembers(j.declared[t], j.finished);
    assert t in outs <==> Times(outs, t) > 0;
  }

  lemma StruckEnd(j: Job, x: string, outs: seq<string>, dependency: map<string, seq<string>>, handed: set<string>)
    requires Struck(j, x, outs, |outs|, dependency, handed) && x in j.status && j.declared.Keys == j.status.Keys
    requires forall t {:trigger Times(j.declared[t], x)} :: t in j.declared ==>
              Times(outs, t) == Times(j.declared[t], x)
    ensures forall t :: t in j.declared ==> dependency[t] == Remaining(j.declared[t], j.finished + {x})
    ensures handed == FreedBy(j, x)
  {
    forall t | t in j.declared
      ensures dependency[t] == Remaining(j.declared[t], j.finished + {x})
      ensures t in handed <==> t in FreedBy(j, x)
    {
      assert Times(outs, t) == Times(j.declared[t], x);
      LastList(j, x, outs, t);
      assert HandedAfter(j, x, outs, |outs|, t) <==> t in handed;
    }
    assert forall t :: t in handed ==> HandedAfter(j, x, outs, |outs|, t);
  }

  /** The tasks that the first report of x frees. */
  ghost function FreedBy(j: Job, x: string): set<string> {
    set t | t in j.declared && t in j.status && t != x && j.status[t] == Pending && x !in j.finished
            && x in j.declared[t] && Remaining(j.declared[t], j.finished + {x}) == []
  }

  lemma StruckStart(j: Job, x: string, outs: seq<string>, dependency: map<string, seq<string>>)
    requires dependency.Keys == j.declared.Keys
    requires forall t :: t in j.declared ==> dependency[t] == Remaining(j.declared[t], j.finished)
    ensures Struck(j, x, outs, 0, dependency, {})
  {
    assert outs[..0] == [];
    assert forall t :: Times([], t) == 0;
  }

  lemma MarkedStep(j: Job, x: string, status: map<string, Status>, handed: set<string>, ret: seq<string>, t: string)
    requires Marked(j, x, status, handed, ret) && t in j.status
    ensures status[t] == Pending <==> t != x && j.status[t] == Pending && t !in handed
    ensures status[t] == Pending ==> Marked(j, x, status[t := Scheduling], handed + {t}, ret + [t])
  {
  }

  /** The tasks seen so far that wait for nothing are being scheduled. */
  ghost predicate Collected(j: Job, seen: set<string>, status: map<string, Status>, ret: seq<string>) {
    && status.Keys == j.status.Keys
    && (forall t :: t in j.status ==>
          status[t] == if t in seen && Ready(j, t) then Scheduling else j.status[t])
    && (forall t :: t in ret <==> t in seen && Ready(j, t))
    && NoRepeats(ret)
  }

  ghost function Names(names: seq<string>): set<string> {
    set t | t in names
  }

  lemma SeenNext(names: seq<string>, i: nat)
    requires i < |names|
    ensures Names(names[..i + 1]) == Names(names[..i]) + {names[i]}
    ensures NoRepeats(names) ==> names[i] !in Names(names[..i])
  {
    assert names[..i + 1] == names[..i] + [names[i]];
  }

  lemma CollectedStep(j: Job, seen: set<string>, status: map<string, Status>, ret: seq<string>, t: string,
                      list: seq<string>)
    requires Collected(j, seen, status, ret) && t in j.status && t in j.declared
    requires list == Remaining(j.declared[t], j.finished)
    ensures status[t] == Pending && list == [] ==> Collected(j, seen + {t}, status[t := Scheduling], ret + [t])
    ensures !(status[t] == Pending && list == []) ==> Collected(j, seen + {t}, status, ret)
  {
    assert Ready(j, t) <==> j.status[t] == Pending && list == [];
    assert t in ret ==> t in seen && Ready(j, t);
    assert forall u :: u in seen + {t} <==> u in seen || u == t;
  }

  lemma ScheduledAll(j: Job, seen: set<string>, status: map<string, Status>, ret: seq<string>)
    requires Collected(j, seen, status, ret) && seen == j.status.Keys
    ensures Schedule(j).status == status
    ensures forall t :: t in ret <==> Ready(j, t)
  {
    forall t | t in j.status
      ensures Schedule(j).status[t] == status[t]
    {
      assert Ready(j, t) || !Ready(j, t);
    }
  }

  /** `ret` names every freed task once. */
  ghost predicate Freed(j: Job, x: string, ret: seq<string>) {
    NoRepeats(ret) && (set t | t in ret) == FreedBy(j, x)
  }

  lemma MarkedIsFinish(j: Job, x: string, status: map<string, Status>, ret: seq<string>)
    requires Marked(j, x, status, FreedBy(j, x), ret) && j.declared.Keys == j.status.Keys
    ensures Finish(j, x) == j.(status := status, finished := j.finished + {x}) && Freed(j, x, ret)
  {
    assert forall t :: t in j.status ==> Finish(j, x).status[t] == status[t];
  }

  /** What the constructor builds beside the tasks, and what every update keeps. */
  ghost predicate Tables(j: Job, names: seq<string>, out: map<string, seq<string>>, cnt: map<Status, int>) {
    && WellFormed(j)
    && Enumerates(names, j.declared.Keys)
    && Reversed(out, j.declared)
    && Counted(cnt, names, j.status)
  }

  /** Each task's list is its declared dependencies without the finished ones. */
  ghost predicate Good(j: Job, names: seq<string>, out: map<string, seq<string>>, cnt: map<Status, int>,
                       dependency: map<string, seq<string>>)
  {
    && Tables(j, names, out, cnt)
    && dependency.Keys == j.declared.Keys
    && (forall t {:trigger dependency[t]} :: t in j.declared ==> dependency[t] == Remaining(j.declared[t], j.finished))
  }

  lemma GoodAfterSet(j: Job, names: seq<string>, out: map<string, seq<string>>, cnt: map<Status, int>,
                     dependency: map<string, seq<string>>, t: string, s: Status)
    requires Good(j, names, out, cnt, dependency) && t in j.status && s !in {Pending, Finished}
    ensures Good(SetTo(j, t, s), names, out, Move(cnt, j.status[t], s), dependency)
  {
    SetToKeeps(j, t, s);
    MoveCounts(cnt, names, j.declared.Keys, j.status, t, s);
  }

  /** The status that the counters give the job. */
  function FromCounts(cnt: map<Status, int>, n: nat, job: JobStatus): JobStatus
    requires forall s: Status :: s in cnt
  {
    if cnt[Failed] != 0 then JobFailed
    else if cnt[Finished] == n then JobDone
    else if job == JobStopping then
      if cnt[Running] == 0 && cnt[Scheduling] == 0 && cnt[Retrying] == 0 then JobStopped else JobStopping
    else if cnt[Running] != 0 || cnt[Retrying] != 0 then JobRunning
    else JobPending
  }

  lemma GoodAfterRescan(j: Job, names: seq<string>, out: map<string, seq<string>>, cnt: map<Status, int>,
                        dependency: map<string, seq<string>>)
    requires Good(j, names, out, cnt, dependency)
    ensures Rescan(j) == j.(job := FromCounts(cnt, |names|, j.job))
    ensures Good(Rescan(j), names, out, cnt, dependency)
  {
    CountsAgreeWithScan(j, names, cnt);
    RescanKeeps(j);
  }

  /** It is the status that a scan of all tasks gives. */
  lemma CountsAgreeWithScan(j: Job, names: seq<string>, cnt: map<Status, int>)
    requires Enumerates(names, j.declared.Keys) && j.declared.Keys == j.status.Keys
    requires Counted(cnt, names, j.status)
    ensures FromCounts(cnt, |names|, j.job) == Scan(j)
  {
    forall s: Status
      ensures cnt[s] != 0 <==> exists t :: t in j.status && j.status[t] == s
      ensures cnt[s] == |names| <==> forall t :: t in j.status ==> j.status[t] == s
    {
      CountAnswers(names, j.declared.Keys, j.status, s);
    }
  }

  lemma {:induction false} CountsOfAll(names: seq<string>, status: map<string, Status>)
    requires forall k :: 0 <= k < |names| ==> names[k] in status
    ensures CountOf(names, status, Pending) + CountOf(names, status, Scheduling) + CountOf(names, status, Running) +
            CountOf(names, status, Retrying) + CountOf(names, status, Failed) + CountOf(names, status, Finished) +
            CountOf(names, status, Stopped) == |names|
  {
    if names != [] {
      CountsOfAll(names[1..], status);
    }
  }

  /** The counters sum to the number of tasks. */
  lemma CountsSumToTasks(j: Job, names: seq<string>, cnt: map<Status, int>)
    requires Enumerates(names, j.declared.Keys) && j.declared.Keys == j.status.Keys
    requires Counted(cnt, names, j.status)
    ensures cnt[Pending] + cnt[Scheduling] + cnt[Running] + cnt[Retrying] + cnt[Failed] + cnt[Finished] +
            cnt[Stopped] == |names|
    ensures |names| == |j.status|
  {
    EnumerationFacts(names, j.declared.Keys);
    CountsOfAll(names, j.status);
    EnumerationSize(names, j.declared.Keys);
  }

  /** How the constructor reads the list of names after `dependency`.split(','). */
  function Declared(raw: seq<string>): seq<string> {
    if raw == [""] then [] else raw
  }

  function Graph(raw: map<string, seq<string>>): map<string, seq<string>> {
    map t | t in raw :: Declared(raw[t])
  }

  ghost predicate AllDefined(raw: map<string, seq<string>>) {
    forall t, d {:trigger d in Declared(raw[t])} :: t in raw && d in Declared(raw[t]) ==> d in raw
  }

  // ----- what the job description says comes first

  ghost predicate Reported(es: seq<Event>, d: string) {
    ReportFinished(d) in es
  }

  ghost predicate HandedAt(declared: map<string, seq<string>>, es: seq<Event>, k: nat, t: string) {
    k < |es| && t in Handed(Run(NewJob(declared), es[..k]), es[k])
  }

  ghost predicate WasHanded(declared: map<string, seq<string>>, es: seq<Event>, t: string) {
    exists k: nat :: HandedAt(declared, es, k, t)
  }

  lemma FinishedStep(j: Job, e: Event)
    requires WellFormed(j)
    ensures Step(j, e).declared == j.declared && Step(j, e).status.Keys == j.status.Keys
    ensures Step(j, e).finished == j.finished + if e.ReportFinished? && e.task in j.status then {e.task} else {}
  {
  }

  /** Finished is what has been reported finished. */
  lemma {:induction false} FinishedIsReported(declared: map<string, seq<string>>, es: seq<Event>)
    ensures Run(NewJob(declared), es).declared == declared
    ensures forall d :: d in Run(NewJob(declared), es).finished <==> d in declared && Reported(es, d)
    decreases |es|
  {
    RunKeeps(declared, es);
    if es != [] {
      var before := es[..|es| - 1];
      RunKeeps(declared, before);
      FinishedIsReported(declared, before);
      FinishedStep(Run(NewJob(declared), before), es[|es| - 1]);
      assert es == before + [es[|es| - 1]];
      assert forall d :: Reported(es, d) <==> Reported(before, d) || es[|es| - 1] == ReportFinished(d);
    }
  }

  /** In no run of a job is a task handed over before every task that it names has been reported finished. */
  lemma HandedWhenReported(raw: map<string, seq<string>>, es: seq<Event>, k: nat, t: string)
    requires HandedAt(Graph(raw), es, k, t)
    ensures t in raw && (raw[t] != [""] ==> forall d :: d in raw[t] ==> Reported(es[..k + 1], d))
  {
    var j := Run(NewJob(Graph(raw)), es[..k]);
    RunKeeps(Graph(raw), es[..k]);
    HandedLeavePending(j, es[k], t);
    assert es[..k + 1][..k] == es[..k];
    FinishedIsReported(Graph(raw), es[..k]);
    FinishedIsReported(Graph(raw), es[..k + 1]);
  }

  /** The tasks that name no other are handed over at once, and no others. */
  lemma HandedAtOnce(raw: map<string, seq<string>>, t: string)
    ensures t in Handed(NewJob(Graph(raw)), HandOut) <==> t in raw && (raw[t] == [""] || raw[t] == [])
  {
    if t in raw {
      NothingFinished(Graph(raw)[t]);
    }
  }

  lemma LeavesWhenHanded(j: Job, e: Event, t: string)
    requires WellFormed(j) && Legal(j, e) && !LeftPending(j, t) && LeftPending(Step(j, e), t)
    ensures t in Handed(j, e)
  {
    FinishedStep(j, e);
  }

  lemma {:induction false} LeftPendingWasHanded(declared: map<string, seq<string>>, es: seq<Event>, t: string)
    requires LegalRun(NewJob(declared), es) && LeftPending(Run(NewJob(declared), es), t)
    ensures WasHanded(declared, es, t)
    decreases |es|
  {
    var n := |es| - 1;
    var before := es[..n];
    var j := Run(NewJob(declared), before);
    RunKeeps(declared, before);
    if LeftPending(j, t) {
      LeftPendingWasHanded(declared, before, t);
      var k: nat :| HandedAt(declared, before, k, t);
      assert before[..k] == es[..k];
      assert HandedAt(declared, es, k, t);
    } else {
      LeavesWhenHanded(j, es[n], t);
      assert HandedAt(declared, es, n, t);
    }
  }

  ghost predicate AllReported(raw: map<string, seq<string>>, es: seq<Event>, t: string)
    requires t in raw
  {
    raw[t] == [""] || forall d :: d in raw[t] ==> d in raw && Reported(es, d)
  }

  lemma WasHandedWhenReported(raw: map<string, seq<string>>, es: seq<Event>, t: string)
    requires WasHanded(Graph(raw), es, t)
    ensures t in raw && AllReported(raw, es, t)
  {
    var k: nat :| HandedAt(Graph(raw), es, k, t);
    HandedWhenReported(raw, es, k, t);
    HandedNames(raw, es, k, t);
    assert forall d :: Reported(es[..k + 1], d) ==> Reported(es, d);
  }

  /** In every run of a job that was handed out, a task has been handed over exactly when every task that it names has
      been reported finished. */
  lemma HandedIffReported(raw: map<string, seq<string>>, es: seq<Event>, t: string)
    requires LegalRun(NewJob(Graph(raw)), es) && es != [] && es[0] == HandOut && t in raw
    ensures WasHanded(Graph(raw), es, t) <==> AllReported(raw, es, t)
  {
    if WasHanded(Graph(raw), es, t) {
      WasHandedWhenReported(raw, es, t);
    }
    if AllReported(raw, es, t) {
      NotPendingWhenReported(raw, es, t);
      LeftPendingWasHanded(Graph(raw), es, t);
    }
  }

  lemma {:induction false} NothingRemains(declared: seq<string>, finished: set<string>)
    requires forall d :: d in declared ==> d in finished
    ensures Remaining(declared, finished) == []
  {
    if declared != [] {
      NothingRemains(declared[1..], finished);
    }
  }

  lemma NotPendingWhenReported(raw: map<string, seq<string>>, es: seq<Event>, t: string)
    requires es != [] && es[0] == HandOut && t in raw
    requires AllReported(raw, es, t)
    ensures LeftPending(Run(NewJob(Graph(raw)), es), t)
  {
    var j := Run(NewJob(Graph(raw)), es);
    RunKeeps(Graph(raw), es);
    FinishedIsReported(Graph(raw), es);
    NothingRemains(Graph(raw)[t], j.finished);
    assert !Ready(j, t);
  }

  lemma HandedNames(raw: map<string, seq<string>>, es: seq<Event>, k: nat, t: string)
    requires HandedAt(Graph(raw), es, k, t)
    ensures t in raw && (raw[t] != [""] ==> forall d :: d in raw[t] ==> d in raw)
  {
    RunKeeps(Graph(raw), es[..k]);
    var j := Run(NewJob(Graph(raw)), es[..k]);
    HandedLeavePending(j, es[k], t);
    StepKeeps(j, es[k]);
  }

  lemma AllDefinedIs(raw: map<string, seq<string>>)
    ensures AllDefined(raw) <==>
              forall t, d {:trigger d in raw[t]} :: t in raw && raw[t] != [""] && d in raw[t] ==> d in raw
  {
    forall t, d | t in raw
      ensures d in Declared(raw[t]) <==> raw[t] != [""] && d in raw[t]
    {
    }
  }

  lemma ReversedAppend(out: map<string, seq<string>>, declared: map<string, seq<string>>, t: string, d: string)
    requires Reversed(out, declared) && t in declared
    ensures Reversed(out[d := (if d in out then out[d] else []) + [t]], declared[t := declared[t] + [d]])
  {
    var out' := out[d := (if d in out then out[d] else []) + [t]];
    var declared' := declared[t := declared[t] + [d]];
    forall x, u {:trigger Times(declared'[u], x)} | u in declared'
      ensures Times(if x in out' then out'[x] else [], u) == Times(declared'[u], x)
    {
      assert Times(if x in out then out[x] else [], u) == Times(declared[u], x);
      TimesMore(if x in out then out[x] else [], t, u);
      TimesMore(declared[t], d, x);
    }
  }

  lemma TimesMore(s: seq<string>, y: string, x: string)
    ensures Times(s + [y], x) == Times(s, x) + if y == x then 1 else 0
  {
    assert (s + [y])[..|s|] == s;
  }

  lemma ReversedNew(out: map<string, seq<string>>, declared: map<string, seq<string>>, t: string)
    requires Reversed(out, declared) && t !in declared
    ensures Reversed(out, declared[t := []])
  {
    var declared' := declared[t := []];
    forall x, u {:trigger Times(declared'[u], x)} | u in declared'
      ensures Times(if x in out then out[x] else [], u) == Times(declared'[u], x)
    {
      assert u in declared ==> Times(if x in out then out[x] else [], u) == Times(declared[u], x);
      assert x in out && t in out[x] ==> t in declared;
    }
  }

  lemma {:induction false} NothingFinished(declared: seq<string>)
    ensures Remaining(declared, {}) == declared
    decreases |declared|
  {
    if declared != [] {
      NothingFinished(declared[1..]);
    }
  }

  function NewCounts(n: nat): map<Status, int> {
    map[Pending := n, Scheduling := 0, Running := 0, Retrying := 0, Failed := 0, Finished := 0, Stopped := 0]
  }

  lemma NewCountsAt(n: nat, s: Status)
    ensures s in NewCounts(n) && NewCounts(n)[s] == if s == Pending then n else 0
  {
    match s
    case Pending =>
    case Scheduling =>
    case Running =>
    case Retrying =>
    case Failed =>
    case Finished =>
    case Stopped =>
  }

  lemma NewTables(names: seq<string>, declared: map<string, seq<string>>, out: map<string, seq<string>>)
    requires Enumerates(names, declared.Keys)
    requires WellFormed(NewJob(declared)) && Reversed(out, declared)
    ensures Tables(NewJob(declared), names, out, NewCounts(|names|))
    ensures forall t :: t in declared ==> Remaining(declared[t], {}) == declared[t]
  {
    forall s: Status
      ensures s in NewCounts(|names|) && NewCounts(|names|)[s] == CountOf(names, NewJob(declared).status, s)
    {
      NewCountsAt(|names|, s);
      CountPending(names, declared.Keys, NewJob(declared).status, s);
    }
    forall t | t in declared {
      NothingFinished(declared[t]);
    }
  }

  /** These tasks have been read and their dependencies are tasks of the job. */
  ghost predicate Read(seen: set<string>, raw: map<string, seq<string>>, declared: map<string, seq<string>>) {
    && declared.Keys == seen
    && (forall t :: t in seen ==> t in raw && declared[t] == Declared(raw[t]) && DefinedIn(declared[t], raw))
  }

  ghost predicate DefinedIn(deps: seq<string>, raw: map<string, seq<string>>) {
    forall d :: d in deps ==> d in raw
  }

  lemma ReadAll(raw: map<string, seq<string>>, declared: map<string, seq<string>>)
    requires Read(raw.Keys, raw, declared)
    ensures declared == map t | t in raw :: Declared(raw[t])
    ensures AllDefined(raw)
  {
    assert forall t :: t in raw ==> DefinedIn(declared[t], raw);
  }

  // ----- the loops, over the values of the fields

  /** The loop of get_tasks_no_dependency. */
  method CollectReady(ghost j: Job, names: seq<string>, ghost out: map<string, seq<string>>,
                      status0: map<string, Status>,
                      cnt0: map<Status, int>, dependency: map<string, seq<string>>)
    returns (status: map<string, Status>, cnt: map<Status, int>, ret: seq<string>)
    requires Good(j, names, out, cnt0, dependency) && status0 == j.status
    ensures Schedule(j) == j.(status := status) && Good(Schedule(j), names, out, cnt, dependency)
    ensures NoRepeats(ret) && forall t :: t in ret <==> Ready(j, t)
  {
    status, cnt, ret := status0, cnt0, [];
    EnumerationFacts(names, j.declared.Keys);
    ghost var seen: set<string> := {};
    for i := 0 to |names|
      invariant Counted(cnt, names, status) && Collected(j, seen, status, ret) && seen == Names(names[..i])
    {
      var t := names[i];
      CollectedStep(j, seen, status, ret, t, dependency[t]);
      if status[t] == Pending && dependency[t] == [] {
        MoveCounts(cnt, names, j.declared.Keys, status, t, Scheduling);
        cnt := Move(cnt, Pending, Scheduling);
        status := status[t := Scheduling];
        ret := ret + [t];
      }
      SeenNext(names, i);
      seen := seen + {t};
    }
    CollectedEnd(j, names, out, cnt, dependency, seen, status, ret);
  }

  lemma CollectedEnd(j: Job, names: seq<string>, out: map<string, seq<string>>, cnt: map<Status, int>,
                     dependency: map<string, seq<string>>, seen: set<string>, status: map<string, Status>,
                     ret: seq<string>)
    requires WellFormed(j) && Reversed(out, j.declared) && Enumerates(names, j.declared.Keys)
    requires dependency.Keys == j.declared.Keys
    requires forall t :: t in j.declared ==> dependency[t] == Remaining(j.declared[t], j.finished)
    requires Counted(cnt, names, status) && Collected(j, seen, status, ret) && seen == Names(names[..|names|])
    ensures Schedule(j) == j.(status := status) && Good(Schedule(j), names, out, cnt, dependency)
    ensures NoRepeats(ret) && forall t :: t in ret <==> Ready(j, t)
  {
    assert names[..|names|] == names;
    EnumerationFacts(names, j.declared.Keys);
    ScheduledAll(j, seen, status, ret);
    ScheduleKeeps(j);
  }

  /** The loop of finish_task over dependency_out[x], or over nothing. */
  method StrikeOut(ghost j: Job, names: seq<string>, out: map<string, seq<string>>, status0: map<string, Status>,
                   cnt0: map<Status, int>, dependency0: map<string, seq<string>>, x: string)
    returns (status: map<string, Status>, cnt: map<Status, int>, dependency: map<string, seq<string>>, ret: seq<string>,
             ghost after: Job)
    requires Good(j, names, out, cnt0, dependency0) && status0 == j.status && x in j.status
    ensures after == Finish(j, x) && after.status == status && after.job == j.job
    ensures Good(after, names, out, cnt, dependency)
    ensures Freed(j, x, ret)
  {
    MoveCounts(cnt0, names, j.declared.Keys, status0, x, Finished);
    cnt := Move(cnt0, status0[x], Finished);
    status, dependency, ret := status0[x := Finished], dependency0, [];
    var outs := if x in out then out[x] else [];
    ghost var handed: set<string> := {};
    OutsAreTasks(j, out, x);
    StruckStart(j, x, outs, dependency);
    for i := 0 to |outs|
      invariant Struck(j, x, outs, i, dependency, handed)
      invariant Marked(j, x, status, handed, ret)
      invariant Counted(cnt, names, status)
    {
      ghost var handed0, ret0 := handed, ret;
      status, cnt, dependency, ret, handed := StrikeOne(j, names, x, outs, i, status, cnt, dependency, ret, handed);
    }
    StruckEnd(j, x, outs, dependency, handed);
    GoodAfterFinish(j, names, out, cnt, dependency, x, status, ret);
    after := Finish(j, x);
  }

  method StrikeOne(ghost j: Job, names: seq<string>, x: string, outs: seq<string>, i: nat, status0: map<string, Status>,
                   cnt0: map<Status, int>, dependency0: map<string, seq<string>>, ret0: seq<string>,
                   ghost handed0: set<string>)
    returns (status: map<string, Status>, cnt: map<Status, int>, dependency: map<string, seq<string>>, ret: seq<string>,
             ghost handed: set<string>)
    requires Struck(j, x, outs, i, dependency0, handed0) && Marked(j, x, status0, handed0, ret0)
    requires Counted(cnt0, names, status0) && Enumerates(names, j.declared.Keys)
    requires i < |outs| && outs[i] in j.status && outs[i] in j.declared
    ensures Struck(j, x, outs, i + 1, dependency, handed) && Marked(j, x, status, handed, ret)
    ensures Counted(cnt, names, status)
  {
    status, cnt, dependency, ret, handed := status0, cnt0, dependency0, ret0, handed0;
    var t := outs[i];
    var list := RemoveFirst(dependency[t], x);
    var go := x in dependency[t] && status[t] == Pending && list == [];
    MarkedStep(j, x, status, handed, ret, t);
    StruckStep(j, x, outs, i, dependency, handed, go);
    dependency := dependency[t := list];
    if go {
      MoveCounts(cnt, names, j.declared.Keys, status, t, Scheduling);
      cnt := Move(cnt, Pending, Scheduling);
      status := status[t := Scheduling];
      handed, ret := handed + {t}, ret + [t];
    }
  }

  lemma OutsAreTasks(j: Job, out: map<string, seq<string>>, x: string)
    requires WellFormed(j) && Reversed(out, j.declared)
    ensures forall i :: x in out && 0 <= i < |out[x]| ==> out[x][i] in j.declared && out[x][i] in j.status
  {
    assert forall i :: x in out && 0 <= i < |out[x]| ==> out[x][i] in out[x];
  }

  lemma GoodAfterFinish(j: Job, names: seq<string>, out: map<string, seq<string>>, cnt: map<Status, int>,
                        dependency: map<string, seq<string>>, x: string, status: map<string, Status>, ret: seq<string>)
    requires WellFormed(j) && Enumerates(names, j.declared.Keys) && Reversed(out, j.declared)
    requires Counted(cnt, names, status) && Marked(j, x, status, FreedBy(j, x), ret)
    requires dependency.Keys == j.declared.Keys
    requires forall t :: t in j.declared ==> dependency[t] == Remaining(j.declared[t], j.finished + {x})
    ensures Finish(j, x) == j.(status := status, finished := j.finished + {x})
    ensures Good(Finish(j, x), names, out, cnt, dependency)
    ensures Freed(j, x, ret)
  {
    MarkedIsFinish(j, x, status, ret);
    FinishKeeps(j, x);
  }

  lemma GoodNewJob(names: seq<string>, declared: map<string, seq<string>>, out: map<string, seq<string>>)
    requires Enumerates(names, declared.Keys)
    requires WellFormed(NewJob(declared)) && Reversed(out, declared)
    ensures Good(NewJob(declared), names, out, NewCounts(|names|), declared)
  {
    NewTables(names, declared, out);
  }

  class BatchJob {
    const names: seq<string>
    /** what the reports so far have made of the job; the other fields are how the source keeps it */
    ghost var job: Job
    var status: map<string, Status>
    var dependency: map<string, seq<string>>
    const dependencyOut: map<string, seq<string>>
    var tasksCnt: map<Status, int>
    var jobStatus: JobStatus

    ghost predicate Valid()
      reads this
    {
      && status == job.status && jobStatus == job.job
      && Good(job, names, dependencyOut, tasksCnt, dependency)
    }

    constructor (names: seq<string>, declared: map<string, seq<string>>, out: map<string, seq<string>>)
      requires Enumerates(names, declared.Keys)
      requires WellFormed(NewJob(declared)) && Reversed(out, declared)
      ensures Valid() && job == NewJob(declared) && this.names == names
    {
      this.names, dependencyOut, job := names, out, NewJob(declared);
      status := map t | t in declared :: Pending;
      dependency, jobStatus := declared, JobPending;
      tasksCnt := NewCounts(|names|);
      GoodNewJob(names, declared, out);
    }

    /** Refuses (ValueError) a job with a dependency that is not a task of the job; cycles are accepted. */
    static method Create(names: seq<string>, raw: map<string, seq<string>>) returns (r: Option<BatchJob>)
      requires Enumerates(names, raw.Keys)
      ensures r.Some? <==>
                forall t, d {:trigger d in raw[t]} :: t in raw && raw[t] != [""] && d in raw[t] ==> d in raw
      ensures r.Some? ==> fresh(r.value) && r.value.Valid() && r.value.job == NewJob(Graph(raw))
      ensures r.Some? ==> Closed(r.value.job.declared)
    {
      AllDefinedIs(raw);
      var ok, declared, out := ReadTasks(names, raw);
      if !ok {
        return None;
      }
      assert declared == Graph(raw) && declared.Keys == raw.Keys;
      var b := new BatchJob(names, declared, out);
      r := Some(b);
    }

    /** _update_job_status: the counters give the status that a scan of the tasks would give. */
    method UpdateJobStatus()
      requires Valid()
      modifies this`jobStatus, this`job
      ensures Valid() && job == Rescan(old(job))
    {
      GoodAfterRescan(job, names, dependencyOut, tasksCnt, dependency);
      jobStatus := FromCounts(tasksCnt, |names|, jobStatus);
      job := Rescan(job);
    }

    /** The common part of the update_task methods. */
    method SetStatus(t: string, s: Status)
      requires Valid() && t in status && s !in {Pending, Finished}
      modifies this`status, this`tasksCnt, this`jobStatus, this`job
      ensures Valid() && job == Rescan(SetTo(old(job), t, s))
    {
      GoodAfterSet(job, names, dependencyOut, tasksCnt, dependency, t, s);
      tasksCnt := Move(tasksCnt, status[t], s);
      status := status[t := s];
      job := SetTo(job, t, s);
      UpdateJobStatus();
    }

    method UpdateTaskRunning(t: string)
      requires Valid() && t in status
      modifies this
      ensures Valid() && job == Step(old(job), ReportRunning(t))
    {
      SetStatus(t, Running);
    }

    method UpdateTaskRetrying(t: string)
      requires Valid() && t in status
      modifies this
      ensures Valid() && job == Step(old(job), ReportRetrying(t))
    {
      SetStatus(t, Retrying);
    }

    method UpdateTaskFailed(t: string)
      requires Valid() && t in status
      modifies this
      ensures Valid() && job == Step(old(job), ReportFailed(t))
    {
      SetStatus(t, Failed);
    }

    /** Answers whether the task was still open; only then the caller charges for it. */
    method UpdateTaskStopped(t: string) returns (open: bool)
      requires Valid() && t in status
      modifies this
      ensures Valid() && job == Step(old(job), ReportStopped(t))
      ensures open <==> old(status)[t] !in {Failed, Finished, Stopped}
    {
      if status[t] == Failed || status[t] == Finished || status[t] == Stopped {
        return false;
      }
      SetStatus(t, Stopped);
      open := true;
    }

    method StopJob()
      requires Valid()
      modifies this`jobStatus, this`job
      ensures Valid() && job == Step(old(job), Event.StopJob)
    {
      jobStatus := JobStopping;
      job := Step(job, Event.StopJob);
      StepKeeps(old(job), Event.StopJob);
    }

    /** process_job: hands over the tasks that wait for nothing. */
    method GetTasksNoDependency() returns (ret: seq<string>)
      requires Valid()
      modifies this
      ensures Valid() && job == Step(old(job), HandOut)
      ensures NoRepeats(ret) && forall t :: t in ret <==> Ready(old(job), t)
    {
      status, tasksCnt, ret := CollectReady(job, names, dependencyOut, status, tasksCnt, dependency);
      job := Schedule(job);
    }

    /** Strikes x from the lists of the tasks that wait for it and hands over those whose list becomes empty.
        A name that is not in the job is ignored. */
    method FinishTask(x: string) returns (ret: seq<string>)
      requires Valid()
      modifies this
      ensures Valid() && job == if x in old(status) then Rescan(Finish(old(job), x)) else old(job)
      ensures if x in old(status) then Freed(old(job), x, ret) else ret == []
    {
      if x !in status {
        return [];
      }
      ret := Strike(x);
      UpdateJobStatus();
    }

    /** finish_task up to the status of the job. */
    method Strike(x: string) returns (ret: seq<string>)
      requires Valid() && x in status
      modifies this`status, this`tasksCnt, this`dependency, this`job
      ensures Valid() && job == Finish(old(job), x) && Freed(old(job), x, ret)
    {
      var s, cnt, waits;
      ghost var was, after := job, job;
      s, cnt, waits, ret, after := StrikeOut(was, names, dependencyOut, status, tasksCnt, dependency, x);
      Become(after, s, cnt, waits);
    }

    method Become(ghost j: Job, s: map<string, Status>, cnt: map<Status, int>, waits: map<string, seq<string>>)
      requires Good(j, names, dependencyOut, cnt, waits) && s == j.status && jobStatus == j.job
      modifies this`status, this`tasksCnt, this`dependency, this`job
      ensures Valid() && job == j
    {
      status, tasksCnt, dependency, job := s, cnt, waits, j;
    }
  }

  method ReadTasks(names: seq<string>, raw: map<string, seq<string>>)
    returns (ok: bool, declared: map<string, seq<string>>, out: map<string, seq<string>>)
    requires Enumerates(names, raw.Keys)
    ensures ok <==> AllDefined(raw)
    ensures ok ==> declared == Graph(raw) && Reversed(out, declared)
  {
    declared, out := map[], map[];
    EnumerationFacts(names, raw.Keys);
    ghost var seen: set<string> := {};
    for i := 0 to |names|
      invariant Read(seen, raw, declared) && Reversed(out, declared) && seen == Names(names[..i])
    {
      var t := names[i];
      SeenNext(names, i);
      ReversedNew(out, declared, t);
      ok, declared, out := ReadTask(t, raw, declared[t := []], out);
      if !ok {
        return;
      }
      seen := seen + {t};
    }
    assert names[..|names|] == names;
    assert seen == raw.Keys;
    ReadAll(raw, declared);
    ok := true;
  }

  /** The loop of the constructor over the dependencies of one task. */
  method ReadTask(t: string, raw: map<string, seq<string>>, before: map<string, seq<string>>,
                  out0: map<string, seq<string>>)
    returns (ok: bool, declared: map<string, seq<string>>, out: map<string, seq<string>>)
    requires t in raw && t in before && before[t] == [] && Reversed(out0, before)
    ensures ok <==> DefinedIn(Declared(raw[t]), raw)
    ensures ok ==> declared == before[t := Declared(raw[t])] && Reversed(out, declared)
  {
    declared, out := before, out0;
    var deps := Declared(raw[t]);
    for k := 0 to |deps|
      invariant declared == before[t := deps[..k]] && Reversed(out, declared)
      invariant forall d :: d in deps[..k] ==> d in raw
    {
      var d := deps[k];
      if d !in raw {
        assert d in deps;
        return false, declared, out;
      }
      ReversedAppend(out, declared, t, d);
      assert deps[..k + 1] == deps[..k] + [d];
      declared := declared[t := declared[t] + [d]];
      out := out[d := (if d in out then out[d] else []) + [t]];
    }
    assert deps[..|deps|] == deps;
    ok := true;
  }
}

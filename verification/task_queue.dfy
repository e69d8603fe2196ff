/** The part of TaskMgr (src/master/taskmgr.py) that keeps the task queue, with the reports of the workers, and
    the part of JobMgr (src/master/jobmgr.py) that its reports reach.  Which vnodes can be placed, what the RPCs
    answer and what a task costs is left open, and so is the order in which the threads take their turns: every
    method is one turn. */
module TaskQueues {
  import BatchJobs
  import opened Sequences

  /** job id and task index; task names are these two joined by '_' */
  datatype Name = Name(job: int, task: int)

  datatype SubStatus = Waiting | Running | Completed | Failed

  /** gpu_preference None or 'null' */
  const NO_PREFERENCE: int := 0

  /** `tokenLive`: a command was sent to a worker with a token that has not been reported yet. */
  datatype Sub = Sub(hasCommand: bool, status: SubStatus, tokenLive: bool, tries: nat, maxRetry: int)

  datatype Task = Task(status: SubStatus, subs: seq<Sub>, gpuPreference: int, atSameTime: bool)

  ghost predicate HasWaiting(t: Task) {
    exists k :: 0 <= k < |t.subs| && t.subs[k].status == Waiting
  }

  /** has_waiting */
  method FindWaiting(t: Task) returns (waiting: bool)
    ensures waiting <==> HasWaiting(t)
  {
    for k := 0 to |t.subs|
      invariant forall i :: 0 <= i < k ==> t.subs[i].status != Waiting
    {
      if t.subs[k].status == Waiting {
        return true;
      }
    }
    waiting := false;
  }

  // ----- JobMgr

  datatype Report = IsRunning | IsRetrying | HasFailed | HasFinished | WasStopped

  function Reported(r: Report): BatchJobs.Status {
    match r
    case IsRunning => BatchJobs.Running
    case IsRetrying => BatchJobs.Retrying
    case HasFailed => BatchJobs.Failed
    case HasFinished => BatchJobs.Finished
    case WasStopped => BatchJobs.Stopped
  }

  predicate IsOver(s: BatchJobs.Status) {
    s in {BatchJobs.Failed, BatchJobs.Finished, BatchJobs.Stopped}
  }

  function ChargesOf(charges: map<Name, nat>, n: Name): nat {
    if n in charges then charges[n] else 0
  }

  /** What the scheduler and the job manager know together; the lists are sets here. */
  datatype State = State(queue: set<Name>, append: set<Name>, delete: set<Name>, tasks: map<Name, Task>,
                         jobs: set<int>, status: map<Name, BatchJobs.Status>, charges: map<Name, nat>)

  /** A failed subtask has failed its task, and a completed command has used up its token. */
  ghost predicate SubsAgree(t: Task) {
    && t.status != Completed
    && forall k :: 0 <= k < |t.subs| ==>
      && (t.subs[k].status == Failed ==> t.status == Failed)
      && (t.subs[k].status == Completed && t.subs[k].hasCommand ==> !t.subs[k].tokenLive)
  }

  ghost predicate NoLiveToken(t: Task) {
    forall k :: 0 <= k < |t.subs| && t.subs[k].hasCommand ==> !t.subs[k].tokenLive
  }

  /** A stop of the task would not be charged any more, and no report to come changes that. */
  ghost predicate Settled(s: State, n: Name) {
    n.job !in s.jobs || (n in s.status && IsOver(s.status[n]) && n in s.tasks && NoLiveToken(s.tasks[n]))
  }

  ghost predicate Good(s: State, n: Name) {
    && ChargesOf(s.charges, n) <= 1
    && (n in s.queue || n in s.append ==> n in s.tasks)
    && (n in s.tasks ==> n in s.status)
    && (n in s.status && s.status[n] == BatchJobs.Failed ==> n.job !in s.jobs)
    && (n in s.delete ==> n in s.queue && Settled(s, n))
    && (n !in s.tasks || n in s.append ==> ChargesOf(s.charges, n) == 0 && n !in s.queue)
    && ((n in s.queue && n !in s.delete) || n in s.append ==> ChargesOf(s.charges, n) == 0 && SubsAgree(s.tasks[n]))
  }

  ghost predicate Inv(s: State) {
    forall n :: Good(s, n)
  }

  /** Each task is charged at most once. */
  lemma ChargedAtMostOnce(s: State, n: Name)
    requires Inv(s)
    ensures ChargesOf(s.charges, n) <= 1
  {
    assert Good(s, n);
  }

  /** The turn is about task `n` alone, except that jobs may leave the job map. */
  ghost predicate About(s: State, t: State, n: Name) {
    && t.jobs <= s.jobs
    && (forall m :: m != n ==> AsBefore(s, t, m))
  }

  ghost predicate AsBefore(s: State, t: State, n: Name) {
    && (n in s.queue <==> n in t.queue) && (n in s.append <==> n in t.append) && (n in s.delete <==> n in t.delete)
    && (n in s.tasks <==> n in t.tasks) && (n in s.tasks ==> s.tasks[n] == t.tasks[n])
    && (n in s.status <==> n in t.status) && (n in s.status ==> s.status[n] == t.status[n])
    && ChargesOf(s.charges, n) == ChargesOf(t.charges, n)
  }

  /** The stop has reached the job of the task, if that is still in the job map. */
  ghost predicate StopKnown(jobs: set<int>, status: map<Name, BatchJobs.Status>, n: Name) {
    n.job in jobs ==> n in status && IsOver(status[n])
  }

  lemma OthersKeep(s: State, t: State, n: Name)
    requires Inv(s) && About(s, t, n) && Good(t, n)
    ensures Inv(t)
  {
    forall m
      ensures Good(t, m)
    {
      assert Good(s, m);
      assert m != n ==> AsBefore(s, t, m);
    }
  }

  function Charge(charges: map<Name, nat>, n: Name): map<Name, nat> {
    charges[n := ChargesOf(charges, n) + 1]
  }

  /** Whether a report changes the status of its task.  Outside the job map only the database has it, and there a task
      that is over stays as it is. */
  predicate IsTaken(jobs: set<int>, status: map<Name, BatchJobs.Status>, n: Name, r: Report) {
    n in status && if n.job in jobs then r == WasStopped ==> !IsOver(status[n]) else !IsOver(status[n])
  }

  /** The job of a failed task is failed, and has left the job map. */
  predicate HasFailedTask(status: map<Name, BatchJobs.Status>, j: int) {
    exists n :: n in status && n.job == j && status[n] == BatchJobs.Failed
  }

  /** A task that runs or tries again leaves its job failed if a task has failed (BatchJobs.OpenUnlessFailed); another
      report may leave it done or stopped as well. */
  ghost predicate MayDrop(status: map<Name, BatchJobs.Status>, n: Name, r: Report, drops: bool) {
    drops && (r == IsRunning || r == IsRetrying) ==> HasFailedTask(status, n.job)
  }

  /** JobMgr.report.  A failed report takes the job out of the job map (BatchJobs.FailedIsFailed); `drops` says
      whether another report leaves it done, failed or stopped. */
  function AfterReport(s: State, n: Name, r: Report, billing: nat, drops: bool): State {
    var reaches := n.job in s.jobs && n in s.status;
    var taken := IsTaken(s.jobs, s.status, n, r);
    var charged := billing > 0 && (r == HasFailed || r == HasFinished || (r == WasStopped && reaches && taken));
    s.(jobs := if reaches && (r == HasFailed || drops) then s.jobs - {n.job} else s.jobs,
       status := if taken then s.status[n := Reported(r)] else s.status,
       charges := if charged then Charge(s.charges, n) else s.charges)
  }

  /** The status that a report leaves, other than that of a stop. */
  ghost function Told(s: State, n: Name, r: Report): map<Name, BatchJobs.Status> {
    if IsTaken(s.jobs, s.status, n, r) then s.status[n := Reported(r)] else s.status
  }

  /** The status that a report leaves.  In the job map only a stop finds a task over; otherwise no report changes a task
      that is over. */
  ghost function StatusAfter(jobs: set<int>, now: BatchJobs.Status, n: Name, r: Report): BatchJobs.Status {
    var over := now == BatchJobs.Failed || now == BatchJobs.Finished || now == BatchJobs.Stopped;
    if over && (n.job !in jobs || r == WasStopped) then now
    else if r == IsRunning then BatchJobs.Running
    else if r == IsRetrying then BatchJobs.Retrying
    else if r == HasFailed then BatchJobs.Failed
    else if r == HasFinished then BatchJobs.Finished
    else BatchJobs.Stopped
  }

  /** The report as an event of the job. */
  ghost function EventOf(r: Report, t: string): BatchJobs.Event {
    match r
    case IsRunning => BatchJobs.ReportRunning(t)
    case IsRetrying => BatchJobs.ReportRetrying(t)
    case HasFailed => BatchJobs.ReportFailed(t)
    case HasFinished => BatchJobs.ReportFinished(t)
    case WasStopped => BatchJobs.ReportStopped(t)
  }

  /** In the job map, a report does to the status of its task what it does to the job. */
  lemma ReportIsStep(j: BatchJobs.Job, t: string, r: Report, n: Name, jobs: set<int>,
                     status: map<Name, BatchJobs.Status>)
    requires BatchJobs.WellFormed(j) && t in j.status && n.job in jobs && n in status && status[n] == j.status[t]
    ensures BatchJobs.Step(j, EventOf(r, t)).status[t] == StatusAfter(jobs, status[n], n, r)
  {
  }

  lemma ReportIsAbout(s: State, n: Name, r: Report, billing: nat, drops: bool)
    ensures About(s, AfterReport(s, n, r, billing, drops), n)
  {
  }

  class JobMgr {
    var jobMap: set<int>
    var status: map<Name, BatchJobs.Status>
    /** how often charge_beans was called for a task */
    var charges: map<Name, nat>

    ghost predicate In(s: State)
      reads this
    {
      s.jobs == jobMap && s.status == status && s.charges == charges
    }

    constructor ()
      ensures jobMap == {} && status == map[] && charges == map[]
    {
      jobMap, status, charges := {}, map[], map[];
    }

    method Report(ghost s: State, n: Name, r: Report, billing: nat) returns (ghost drops: bool)
      requires In(s)
      modifies this
      ensures In(AfterReport(s, n, r, billing, drops)) && MayDrop(s.status, n, r, drops)
      ensures n !in old(status) ==> status == old(status)
      ensures n in old(status) ==> status == old(status)[n := StatusAfter(old(jobMap), old(status)[n], n, r)]
    {
      var over: bool := *;
      if r == IsRunning || r == IsRetrying {
        over := over && HasFailedTask(status, n.job);
      }
      drops := over;
      if billing > 0 && (r == HasFailed || r == HasFinished) {
        charges := Charge(charges, n);
      }
      var taken := IsTaken(jobMap, status, n, r);
      var reaches := n.job in jobMap && n in status;
      if reaches && taken && r == WasStopped && billing > 0 {
        charges := Charge(charges, n);
      }
      if taken {
        status := status[n := Reported(r)];
      }
      if reaches && (r == HasFailed || over) {
        jobMap := jobMap - {n.job};
      }
    }
  }

  /** In a job of the job map no task has failed, so a task that runs or tries again does not take it out. */
  lemma StaysInJobMap(s: State, n: Name, r: Report, drops: bool)
    requires Inv(s) && (r == IsRunning || r == IsRetrying) && MayDrop(s.status, n, r, drops)
    ensures AfterReport(s, n, r, 0, drops).jobs == s.jobs
  {
    forall m | m in s.status && m.job == n.job && s.status[m] == BatchJobs.Failed
      ensures n.job !in s.jobs
    {
      assert Good(s, m);
    }
  }

  lemma QueuesAreDisjoint(s: State)
    requires Inv(s)
    ensures s.queue !! s.append
  {
    forall n | n in s.append
      ensures n !in s.queue
    {
      assert Good(s, n);
    }
  }

  // ----- lists

  lemma {:induction false} EnumerateMore(list: seq<Name>, names: set<Name>, n: Name)
    requires Enumerates(list, names) && n !in names
    ensures Enumerates(list + [n], names + {n})
    decreases |list|
  {
    if list == [] {
      assert ([] + [n])[1..] == [];
      assert names + {n} - {n} == {};
    } else {
      assert (list + [n])[1..] == list[1..] + [n];
      assert names + {n} - {list[0]} == (names - {list[0]}) + {n};
      EnumerateMore(list[1..], names - {list[0]}, n);
    }
  }

  // ----- turns of the threads, over the state

  function WithTask(s: State, n: Name, t: Task): State {
    s.(tasks := s.tasks[n := t])
  }

  /** waiting_for_retry */
  function Retry(t: Task, k: nat): Task
    requires k < |t.subs|
  {
    var sub := t.subs[k];
    var failed := sub.tries + 1 > sub.maxRetry;
    t.(subs := t.subs[k := sub.(tries := sub.tries + 1, status := if failed then Failed else Waiting)],
       status := if failed then Failed else t.status)
  }

  function SetSub(t: Task, k: nat, sub: Sub): Task
    requires k < |t.subs|
  {
    t.(subs := t.subs[k := sub])
  }

  /** A command that does not run yet is sent with a new token; a subtask without a command only runs. */
  function AfterStart(t: Task, k: nat, accepted: bool): Task
    requires k < |t.subs|
  {
    var sub := t.subs[k];
    if !sub.hasCommand || sub.status == Running then SetSub(t, k, sub.(status := Running))
    else if accepted then SetSub(t, k, sub.(tokenLive := true, status := Running))
    else Retry(SetSub(t, k, sub.(tokenLive := true)), k)
  }

  datatype WorkerStatus = ReportsFailed | ReportsTimeout | ReportsOutputError | ReportsCompleted | ReportsOther

  predicate IsCommand(t: Task, k: nat) {
    k < |t.subs| && t.subs[k].hasCommand
  }

  /** Has the subtask tries left? */
  predicate Retried(t: Task, k: nat)
    requires k < |t.subs|
  {
    t.subs[k].tries + 1 <= t.subs[k].maxRetry
  }

  predicate TriesAgain(t: Task, k: nat, r: WorkerStatus)
    requires k < |t.subs|
  {
    (r == ReportsFailed || r == ReportsTimeout) && Retried(t, k)
  }

  /** The report of a command uses up its token. */
  function AfterWorkerReport(t: Task, k: nat, r: WorkerStatus): Task
    requires k < |t.subs|
  {
    var sub := t.subs[k].(tokenLive := false);
    match r
    case ReportsFailed => Retry(SetSub(t, k, sub), k)
    case ReportsTimeout => Retry(SetSub(t, k, sub), k)
    case ReportsOutputError => SetSub(t, k, sub.(status := Failed)).(status := Failed)
    case ReportsCompleted => SetSub(t, k, sub.(status := Completed))
    case ReportsOther => SetSub(t, k, sub)
  }

  // ----- what the turns of a task mean

  predicate TriesLeft(sub: Sub) {
    sub.tries < sub.maxRetry
  }

  /** Only subtask k has changed, and not its command nor its retry count. */
  ghost predicate OnlySub(t: Task, u: Task, k: nat) {
    && |u.subs| == |t.subs| && k < |t.subs| && u.gpuPreference == t.gpuPreference && u.atSameTime == t.atSameTime
    && (forall i :: 0 <= i < |t.subs| && i != k ==> u.subs[i] == t.subs[i])
    && u.subs[k].hasCommand == t.subs[k].hasCommand && u.subs[k].maxRetry == t.subs[k].maxRetry
  }

  /** A try is used up: the subtask waits again if it has tries left, and fails its task if not. */
  ghost predicate TryUsed(t: Task, u: Task, k: nat) {
    && OnlySub(t, u, k) && u.subs[k].tries == t.subs[k].tries + 1
    && (TriesLeft(t.subs[k]) ==> u.subs[k].status == Waiting && u.status == t.status)
    && (!TriesLeft(t.subs[k]) ==> u.subs[k].status == Failed && u.status == Failed)
  }

  ghost predicate SameTries(t: Task, u: Task, k: nat) {
    OnlySub(t, u, k) && u.subs[k].tries == t.subs[k].tries
  }

  /** The token is used up in any case. */
  ghost predicate AsReported(t: Task, u: Task, k: nat, r: WorkerStatus) {
    && OnlySub(t, u, k) && !u.subs[k].tokenLive
    && (r == ReportsFailed || r == ReportsTimeout ==> TryUsed(t, u, k))
    && (r == ReportsOutputError ==> SameTries(t, u, k) && u.subs[k].status == Failed && u.status == Failed)
    && (r == ReportsCompleted ==> SameTries(t, u, k) && u.subs[k].status == Completed && u.status == t.status)
    && (r == ReportsOther ==> SameTries(t, u, k) && u.subs[k].status == t.subs[k].status && u.status == t.status)
  }

  /** The command is sent with a new token, if it does not run already; if the worker refuses it, that was a try. */
  ghost predicate AsStarted(t: Task, u: Task, k: nat, accepted: bool) {
    && OnlySub(t, u, k)
    && (!t.subs[k].hasCommand || t.subs[k].status == Running ==> u.subs[k].tokenLive == t.subs[k].tokenLive)
    && (t.subs[k].hasCommand && t.subs[k].status != Running ==> u.subs[k].tokenLive)
    && if !t.subs[k].hasCommand || t.subs[k].status == Running || accepted then
         SameTries(t, u, k) && u.subs[k].status == Running && u.status == t.status
       else TryUsed(t, u, k)
  }

  /** The report makes the subtask try again. */
  ghost predicate UsesTryLeft(t: Task, k: nat, r: WorkerStatus)
    requires k < |t.subs|
  {
    r in {ReportsFailed, ReportsTimeout} && TriesLeft(t.subs[k])
  }

  lemma RetryMeans(t: Task, k: nat)
    requires k < |t.subs|
    ensures TryUsed(t, Retry(t, k), k) && Retry(t, k).subs[k].tokenLive == t.subs[k].tokenLive
  {
  }

  lemma ReportMeans(t: Task, k: nat, r: WorkerStatus)
    requires k < |t.subs|
    ensures AsReported(t, AfterWorkerReport(t, k, r), k, r)
  {
    RetryMeans(SetSub(t, k, t.subs[k].(tokenLive := false)), k);
  }

  lemma TriesAgainIs(t: Task, k: nat, r: WorkerStatus)
    requires k < |t.subs|
    ensures TriesAgain(t, k, r) <==> UsesTryLeft(t, k, r)
  {
  }

  lemma StartMeans(t: Task, k: nat, accepted: bool)
    requires k < |t.subs|
    ensures AsStarted(t, AfterStart(t, k, accepted), k, accepted)
  {
    RetryMeans(SetSub(t, k, t.subs[k].(tokenLive := true)), k);
  }

  function Tries(sub: Sub): int {
    if sub.maxRetry < 0 then 1 else sub.maxRetry + 1
  }

  /** No subtask is tried more often than max_retry_count + 1 times, and once in any case; the last try has failed it.
      */
  ghost predicate WithinTries(t: Task) {
    forall k :: 0 <= k < |t.subs| ==>
      t.subs[k].tries < Tries(t.subs[k]) || (t.subs[k].tries == Tries(t.subs[k]) && t.subs[k].status == Failed)
  }

  ghost predicate AllWithinTries(tasks: map<Name, Task>) {
    forall n :: n in tasks ==> WithinTries(tasks[n])
  }

  /** What may be done to a subtask that has not failed keeps its task within the tries. */
  lemma RetryKeepsTries(t: Task, k: nat)
    requires WithinTries(t) && k < |t.subs| && t.subs[k].status != Failed
    ensures WithinTries(Retry(t, k))
  {
    RetryWithinTriesIff(t, k);
  }

  lemma ReportKeepsTries(t: Task, k: nat, r: WorkerStatus)
    requires WithinTries(t) && k < |t.subs| && t.subs[k].status != Failed
    ensures WithinTries(AfterWorkerReport(t, k, r))
  {
    RetryKeepsTries(SetSub(t, k, t.subs[k].(tokenLive := false)), k);
  }

  lemma StartKeeps(t: Task, k: nat, accepted: bool)
    requires SubsAgree(t) && k < |t.subs|
    ensures SubsAgree(AfterStart(t, k, accepted))
    ensures WithinTries(t) && t.subs[k].status != Failed ==> WithinTries(AfterStart(t, k, accepted))
  {
  }

  /** A subtask that has failed may be tried once too often. */
  lemma RetryWithinTriesIff(t: Task, k: nat)
    requires WithinTries(t) && k < |t.subs|
    ensures WithinTries(Retry(t, k)) <==> t.subs[k].tries < Tries(t.subs[k])
    ensures t.subs[k].tries < Tries(t.subs[k]) ==>
              (Retry(t, k).subs[k].status == Failed <==> Retry(t, k).subs[k].tries == Tries(t.subs[k]))
  {
    var u := Retry(t, k);
    assert u.subs[k].tries == t.subs[k].tries + 1 && Tries(u.subs[k]) == Tries(t.subs[k]);
    assert forall i :: 0 <= i < |t.subs| && i != k ==> u.subs[i] == t.subs[i];
  }

  /** Is there a command that runs or waits to run, and no failure? */
  ghost predicate Open(t: Task) {
    && t.status in {Running, Waiting}
    && exists k :: 0 <= k < |t.subs| && t.subs[k].hasCommand && t.subs[k].status in {Running, Waiting}
  }

  /** The loop of check_task_completed. */
  method FindOpen(t: Task) returns (open: bool)
    ensures open <==> Open(t)
  {
    if t.status == Running || t.status == Waiting {
      for k := 0 to |t.subs|
        invariant forall i :: 0 <= i < k ==> !(t.subs[i].hasCommand && t.subs[i].status in {Running, Waiting})
      {
        if t.subs[k].hasCommand && (t.subs[k].status == Running || t.subs[k].status == Waiting) {
          return true;
        }
      }
    }
    open := false;
  }

  /** Stopping the vnodes of a task leaves its commands' tokens alone; a stop that fails marks the subtask failed. */
  ghost predicate Cleared(t: Task, u: Task) {
    && |u.subs| == |t.subs| && u.status == t.status && u.gpuPreference == t.gpuPreference
    && u.atSameTime == t.atSameTime
    && forall k :: 0 <= k < |t.subs| ==> u.subs[k] == t.subs[k] || u.subs[k] == t.subs[k].(status := Failed)
  }

  /** A queued, unmarked task changes, and an unbilled report may be made about it. */
  lemma TurnOfOpenTask(s: State, n: Name, u: Task)
    requires Inv(s) && n in s.queue && n !in s.delete && SubsAgree(u)
    ensures Inv(WithTask(s, n, u))
  {
    assert Good(s, n);
    OthersKeep(s, WithTask(s, n, u), n);
  }

  /** A worker reports about a command of a queued task. */
  lemma TurnOfWorkerReport(s: State, n: Name, k: nat, r: WorkerStatus)
    requires Inv(s) && n in s.queue && n in s.tasks && IsCommand(s.tasks[n], k)
    ensures Inv(WithTask(s, n, AfterWorkerReport(s.tasks[n], k, r)))
    ensures n in s.delete && s.tasks[n].subs[k].tokenLive ==> n.job !in s.jobs
  {
    assert Good(s, n);
    if n in s.delete {
      TurnOfSettledTask(s, n, k, r);
    } else {
      TurnOfOpenTask(s, n, AfterWorkerReport(s.tasks[n], k, r));
    }
  }

  lemma TurnOfReport(s: State, n: Name, r: Report, drops: bool)
    requires Inv(s) && n in s.queue && n !in s.delete
    requires r == IsRunning || r == IsRetrying
    ensures Inv(AfterReport(s, n, r, 0, drops))
  {
    assert Good(s, n);
    ReportIsAbout(s, n, r, 0, drops);
    OthersKeep(s, AfterReport(s, n, r, 0, drops), n);
  }

  /** A report about a task that is only waiting to be taken out of the queue. */
  lemma TurnOfSettledTask(s: State, n: Name, k: nat, r: WorkerStatus)
    requires Inv(s) && n in s.delete && n in s.tasks && k < |s.tasks[n].subs|
    ensures Inv(WithTask(s, n, AfterWorkerReport(s.tasks[n], k, r)))
    ensures s.tasks[n].subs[k].hasCommand && s.tasks[n].subs[k].tokenLive ==> n.job !in s.jobs
  {
    assert Good(s, n);
    var t := WithTask(s, n, AfterWorkerReport(s.tasks[n], k, r));
    assert NoLiveToken(s.tasks[n]) ==> NoLiveToken(t.tasks[n]);
    assert Good(t, n);
    OthersKeep(s, t, n);
  }

  /** When it makes the task try again, it opens a task of a job in the job map, which could then be charged twice. */
  lemma TurnOfReopenedTask(s: State, n: Name, drops: bool)
    requires Inv(s) && n in s.delete && MayDrop(s.status, n, IsRetrying, drops)
    ensures Inv(AfterReport(s, n, IsRetrying, 0, drops)) <==> n.job !in s.jobs
  {
    assert Good(s, n);
    StaysInJobMap(s, n, IsRetrying, drops);
    var t := AfterReport(s, n, IsRetrying, 0, drops);
    ReportIsAbout(s, n, IsRetrying, 0, drops);
    if n.job !in t.jobs {
      assert Good(t, n);
      OthersKeep(s, t, n);
    } else {
      assert t.status[n] == BatchJobs.Retrying;
      assert !Good(t, n);
    }
  }

  /** And it is: the stop that follows charges once more. */
  lemma SecondCharge(s: State, n: Name, u: Task, billing: nat, drops: bool)
    requires Inv(s) && n in s.delete && n.job in s.jobs && billing > 0
    ensures var t := AfterReport(s, n, IsRetrying, 0, false);
      ChargesOf(AfterStop(t, n, u, billing, drops).charges, n) == ChargesOf(s.charges, n) + 1
  {
    assert Good(s, n);
  }

  /** A task of a job with another task to come, found completed and charged. */
  function ChargedOnce(): State {
    var n, sub := Name(1, 0), Sub(true, Completed, false, 0, 1);
    State({n}, {}, {n}, map[n := Task(Running, [sub], NO_PREFERENCE, false)], {1}, map[n := BatchJobs.Finished],
          map[n := 1])
  }

  /** In a state that keeps the invariant, the second report with the token is that the command has failed. */
  lemma SecondChargeExample()
    ensures Inv(ChargedOnce())
    ensures var s, n := ChargedOnce(), Name(1, 0);
      var t := AfterReport(WithTask(s, n, AfterWorkerReport(s.tasks[n], 0, ReportsFailed)), n, IsRetrying, 0, false);
      Retried(s.tasks[n], 0) && ChargesOf(AfterStop(t, n, t.tasks[n], 5, false).charges, n) == 2
  {
    var s, n := ChargedOnce(), Name(1, 0);
    assert Good(s, n);
    forall m
      ensures Good(s, m)
    {
    }
    TurnOfSettledTask(s, n, 0, ReportsFailed);
    SecondCharge(WithTask(s, n, AfterWorkerReport(s.tasks[n], 0, ReportsFailed)), n,
                 AfterWorkerReport(s.tasks[n], 0, ReportsFailed), 5, false);
  }

  /** A task is only found finished when all its commands have been reported completed. */
  lemma FinishedHasNoLiveToken(t: Task, u: Task)
    requires SubsAgree(t) && !Open(t) && Cleared(t, u) && t.status != Failed
    ensures NoLiveToken(u)
  {
    forall k | 0 <= k < |u.subs| && u.subs[k].hasCommand
      ensures !u.subs[k].tokenLive
    {
      assert t.subs[k].status == Completed;
    }
  }

  function Outcome(u: Task): Report {
    if u.status == Failed then HasFailed else HasFinished
  }

  /** What may happen to a task between two looks of the scheduler, if nothing fails. */
  datatype Turn = Begins | Starts(k: nat) | Completes(k: nat) | ReportsElse(k: nat)

  ghost predicate IsTurn(t: Task, turn: Turn, u: Task) {
    match turn
    case Begins => u == t.(status := Running)
    case Starts(k) => k < |t.subs| && AsStarted(t, u, k, true)
    case Completes(k) => IsCommand(t, k) && AsReported(t, u, k, ReportsCompleted)
    case ReportsElse(k) => IsCommand(t, k) && AsReported(t, u, k, ReportsOther)
  }

  /** The task as it is before and after each of the turns. */
  ghost predicate IsRun(ts: seq<Task>, turns: seq<Turn>) {
    |ts| == |turns| + 1 && forall i :: 0 <= i < |turns| ==> IsTurn(ts[i], turns[i], ts[i + 1])
  }

  /** The command was reported completed, and not started again. */
  ghost predicate CompletedLast(turns: seq<Turn>, k: nat)
    decreases |turns|
  {
    turns != [] &&
    var last := turns[|turns| - 1];
    last == Completes(k) || (last != Starts(k) && CompletedLast(turns[..|turns| - 1], k))
  }

  ghost predicate IsNew(t: Task) {
    t.status == Waiting && forall k :: 0 <= k < |t.subs| ==> t.subs[k].status == Waiting
  }

  lemma TurnOfCommand(t: Task, turn: Turn, u: Task, k: nat)
    requires IsTurn(t, turn, u) && k < |t.subs|
    ensures |u.subs| == |t.subs| && u.subs[k].hasCommand == t.subs[k].hasCommand
    ensures u.subs[k].status ==
              if turn == Starts(k) then Running else if turn == Completes(k) then Completed else t.subs[k].status
  {
  }

  lemma {:induction false} CommandsOfRun(ts: seq<Task>, turns: seq<Turn>, n: nat, k: nat)
    requires IsRun(ts, turns) && IsNew(ts[0]) && n <= |turns| && k < |ts[0].subs|
    ensures |ts[n].subs| == |ts[0].subs| && ts[n].subs[k].hasCommand == ts[0].subs[k].hasCommand
    ensures CompletedLast(turns[..n], k) ==> ts[n].subs[k].status == Completed
    ensures !CompletedLast(turns[..n], k) ==> ts[n].subs[k].status in {Waiting, Running}
    decreases n
  {
    if n > 0 {
      assert turns[..n][..n - 1] == turns[..n - 1];
      CommandsOfRun(ts, turns, n - 1, k);
      TurnOfCommand(ts[n - 1], turns[n - 1], ts[n], k);
    }
  }

  lemma {:induction false} NeverFails(ts: seq<Task>, turns: seq<Turn>, n: nat)
    requires IsRun(ts, turns) && IsNew(ts[0]) && n <= |turns|
    ensures |ts[n].subs| == |ts[0].subs| && ts[n].status in {Waiting, Running}
    decreases n
  {
    if n > 0 {
      NeverFails(ts, turns, n - 1);
      assert IsTurn(ts[n - 1], turns[n - 1], ts[n]);
    }
  }

  /** In every run in which nothing fails, a task is found completed exactly when all its commands were reported
      completed after they were started last; and then it is reported finished, whether or not its vnodes can be
      stopped. */
  lemma FoundCompletedIff(ts: seq<Task>, turns: seq<Turn>, v: Task)
    requires IsRun(ts, turns) && IsNew(ts[0]) && Cleared(ts[|turns|], v)
    ensures !Open(ts[|turns|]) <==>
              forall k :: 0 <= k < |ts[0].subs| && ts[0].subs[k].hasCommand ==> CompletedLast(turns, k)
    ensures Outcome(v) == HasFinished
  {
    var n := |turns|;
    NeverFails(ts, turns, n);
    assert turns[..n] == turns;
    forall k | 0 <= k < |ts[0].subs|
      ensures ts[n].subs[k].hasCommand == ts[0].subs[k].hasCommand
      ensures CompletedLast(turns, k) <==> ts[n].subs[k].status !in {Waiting, Running}
    {
      CommandsOfRun(ts, turns, n, k);
    }
  }

  /** check_task_completed: the task is reported, charged and marked for deletion. */
  lemma TurnOfCompletedTask(s: State, n: Name, u: Task, billing: nat, drops: bool)
    requires Inv(s) && n in s.queue && n !in s.delete && n in s.tasks && !Open(s.tasks[n]) && Cleared(s.tasks[n], u)
    ensures Inv(AfterReport(WithTask(s, n, u).(delete := s.delete + {n}), n, Outcome(u), billing, drops))
  {
    assert Good(s, n);
    var v := AfterReport(WithTask(s, n, u).(delete := s.delete + {n}), n, Outcome(u), billing, drops);
    if u.status != Failed {
      FinishedHasNoLiveToken(s.tasks[n], u);
    }
    assert Settled(v, n);
    assert Good(v, n);
    OthersKeep(s, v, n);
  }

  /** sort_out_task_queue stops a queued task and takes it out of the queue, whether or not it is marked. */
  function AfterStop(s: State, n: Name, u: Task, billing: nat, drops: bool): State {
    AfterReport(WithTask(s, n, u).(queue := s.queue - {n}, delete := s.delete - {n}), n, WasStopped, billing, drops)
  }

  lemma TurnOfStoppedTask(s: State, n: Name, u: Task, billing: nat, drops: bool)
    requires Inv(s) && n in s.queue
    ensures Inv(AfterStop(s, n, u, billing, drops))
  {
    assert Good(s, n);
    var v := AfterStop(s, n, u, billing, drops);
    assert About(s, v, n);
    assert Good(v, n);
    OthersKeep(s, v, n);
  }

  /** sort_out_task_queue takes the marked tasks out of the queue. */
  lemma TurnOfDeletedTasks(s: State)
    requires Inv(s)
    ensures Inv(s.(queue := s.queue - s.delete, delete := {}))
  {
    forall n
      ensures Good(s.(queue := s.queue - s.delete, delete := {}), n)
    {
      assert Good(s, n);
    }
  }

  /** A new task that is to be stopped before it was queued is reported, unbilled, and forgotten. */
  lemma TurnOfStoppedNewTask(s: State, n: Name, drops: bool)
    requires Inv(s) && n in s.append
    ensures Inv(AfterReport(s.(append := s.append - {n}), n, WasStopped, 0, drops))
  {
    assert Good(s, n);
    var v := AfterReport(s.(append := s.append - {n}), n, WasStopped, 0, drops);
    assert About(s, v, n);
    OthersKeep(s, v, n);
  }

  lemma TurnOfQueuedTasks(s: State)
    requires Inv(s)
    ensures Inv(s.(queue := s.queue + s.append, append := {}))
  {
    forall n
      ensures Good(s.(queue := s.queue + s.append, append := {}), n)
    {
      assert Good(s, n);
    }
  }

  /** add_task for a task that it refuses. */
  lemma TurnOfRefusedTask(s: State, n: Name, drops: bool)
    requires Inv(s) && n !in s.tasks
    ensures Inv(AfterReport(s.(status := s.status[n := BatchJobs.Scheduling]), n, HasFailed, 0, drops))
  {
    assert Good(s, n);
    OthersKeep(s, AfterReport(s.(status := s.status[n := BatchJobs.Scheduling]), n, HasFailed, 0, drops), n);
  }

  /** add_task for a task that was never handed over before. */
  lemma TurnOfNewTask(s: State, n: Name, t: Task)
    requires Inv(s) && n !in s.tasks && SubsAgree(t)
    ensures Inv(s.(append := s.append + {n}, tasks := s.tasks[n := t], status := s.status[n := BatchJobs.Scheduling]))
  {
    assert Good(s, n);
    var u := s.(append := s.append + {n}, tasks := s.tasks[n := t], status := s.status[n := BatchJobs.Scheduling]);
    OthersKeep(s, u, n);
  }

  // ----- sorting

  function PriorityOf(priority: map<Name, real>, n: Name): real {
    if n in priority then priority[n] else 0.0
  }

  function Insert(n: Name, list: seq<Name>, priority: map<Name, real>): seq<Name> {
    if list == [] || PriorityOf(priority, n) <= PriorityOf(priority, list[0]) then [n] + list
    else [list[0]] + Insert(n, list[1..], priority)
  }

  /** sorted(queue, key=priority) */
  function Sort(list: seq<Name>, priority: map<Name, real>): seq<Name> {
    if list == [] then [] else Insert(list[0], Sort(list[1..], priority), priority)
  }

  ghost predicate Sorted(list: seq<Name>, priority: map<Name, real>) {
    |list| > 1 ==> PriorityOf(priority, list[0]) <= PriorityOf(priority, list[1]) && Sorted(list[1..], priority)
  }

  lemma {:induction false} SortedFrom(list: seq<Name>, priority: map<Name, real>, j: nat)
    requires Sorted(list, priority) && j < |list|
    ensures PriorityOf(priority, list[0]) <= PriorityOf(priority, list[j])
    decreases j
  {
    if j > 0 {
      SortedFrom(list[1..], priority, j - 1);
    }
  }

  /** A task with a smaller number comes first. */
  lemma {:induction false} SortedIs(list: seq<Name>, priority: map<Name, real>)
    requires Sorted(list, priority)
    ensures InOrder(list, priority)
    decreases |list|
  {
    if list != [] {
      var rest := list[1..];
      SortedIs(rest, priority);
      forall i, j | 0 <= i < j < |list| && list[i] in priority && list[j] in priority
        ensures priority[list[i]] <= priority[list[j]]
      {
        if i == 0 {
          SortedFrom(list, priority, j);
        } else {
          assert list[i] == rest[i - 1] && list[j] == rest[j - 1];
        }
      }
    }
  }

  ghost predicate InOrder(list: seq<Name>, priority: map<Name, real>) {
    forall i, j :: 0 <= i < j < |list| && list[i] in priority && list[j] in priority ==>
      priority[list[i]] <= priority[list[j]]
  }

  /** The names with priority `p`, in order. */
  ghost function With(list: seq<Name>, priority: map<Name, real>, p: real): seq<Name> {
    if list == [] then []
    else if PriorityOf(priority, list[0]) != p then With(list[1..], priority, p)
    else [list[0]] + With(list[1..], priority, p)
  }

  lemma {:induction false} InsertFacts(n: Name, list: seq<Name>, priority: map<Name, real>, names: set<Name>)
    requires Enumerates(list, names) && n !in names
    ensures Enumerates(Insert(n, list, priority), names + {n})
    ensures Sorted(list, priority) ==> Sorted(Insert(n, list, priority), priority)
    decreases |list|
  {
    assert [n][1..] == [];
    if list == [] || PriorityOf(priority, n) <= PriorityOf(priority, list[0]) {
      assert ([n] + list)[1..] == list;
      assert names + {n} - {n} == names;
    } else {
      var rest := Insert(n, list[1..], priority);
      InsertFacts(n, list[1..], priority, names - {list[0]});
      assert ([list[0]] + rest)[1..] == rest;
      assert names + {n} - {list[0]} == (names - {list[0]}) + {n};
    }
  }

  lemma {:induction false} InsertOrder(n: Name, list: seq<Name>, priority: map<Name, real>, p: real)
    ensures With(Insert(n, list, priority), priority, p) == With([n], priority, p) + With(list, priority, p)
    decreases |list|
  {
    assert [n][1..] == [];
    if list == [] || PriorityOf(priority, n) <= PriorityOf(priority, list[0]) {
      assert ([n] + list)[1..] == list;
    } else {
      var rest := Insert(n, list[1..], priority);
      InsertOrder(n, list[1..], priority, p);
      assert ([list[0]] + rest)[1..] == rest;
    }
  }

  /** Sorting keeps the names, orders them by priority and keeps the order of those with the same priority. */
  lemma {:induction false} SortFacts(list: seq<Name>, priority: map<Name, real>, names: set<Name>, p: real)
    requires Enumerates(list, names)
    ensures Enumerates(Sort(list, priority), names)
    ensures Sorted(Sort(list, priority), priority)
    ensures With(Sort(list, priority), priority, p) == With(list, priority, p)
    decreases |list|
  {
    if list != [] {
      SortFacts(list[1..], priority, names - {list[0]}, p);
      InsertFacts(list[0], Sort(list[1..], priority), priority, names - {list[0]});
      InsertOrder(list[0], Sort(list[1..], priority), priority, p);
      assert (names - {list[0]}) + {list[0]} == names;
      assert [list[0]][1..] == [];
    }
  }

  /** The list without the names of `drop`. */
  function Without(list: seq<Name>, drop: set<Name>): seq<Name> {
    if list == [] then []
    else if list[0] in drop then Without(list[1..], drop)
    else [list[0]] + Without(list[1..], drop)
  }

  lemma {:induction false} WithoutFacts(list: seq<Name>, names: set<Name>, drop: set<Name>, priority: map<Name, real>)
    requires Enumerates(list, names)
    ensures Enumerates(Without(list, drop), names - drop)
    ensures Sorted(list, priority) ==> Sorted(Without(list, drop), priority)
    ensures Sorted(list, priority) && list != [] && Without(list, drop) != [] ==>
      PriorityOf(priority, list[0]) <= PriorityOf(priority, Without(list, drop)[0])
    decreases |list|
  {
    if list == [] {
      assert names - drop == {};
    } else {
      var rest := Without(list[1..], drop);
      WithoutFacts(list[1..], names - {list[0]}, drop, priority);
      assert Sorted(list, priority) ==> Sorted(list[1..], priority);
      if list[0] in drop {
        assert names - {list[0]} - drop == names - drop;
      } else {
        assert ([list[0]] + rest)[1..] == rest;
        assert names - drop - {list[0]} == names - {list[0]} - drop;
      }
    }
  }

  lemma {:induction false} RemovedIsWithout(list: seq<Name>, names: set<Name>, drop: set<Name>, n: Name)
    requires Enumerates(list, names)
    ensures RemoveFirst(Without(list, drop), n) == Without(list, drop + {n})
    decreases |list|
  {
    if list != [] {
      RemovedIsWithout(list[1..], names - {list[0]}, drop, n);
      if list[0] == n && n !in drop {
        WithoutSame(list[1..], names - {n}, drop, drop + {n});
        assert ([n] + Without(list[1..], drop))[1..] == Without(list[1..], drop);
      } else if list[0] !in drop {
        assert ([list[0]] + Without(list[1..], drop))[1..] == Without(list[1..], drop);
      }
    }
  }

  lemma {:induction false} WithoutSame(list: seq<Name>, names: set<Name>, drop: set<Name>, drop': set<Name>)
    requires Enumerates(list, names) && names * drop == names * drop'
    ensures Without(list, drop) == Without(list, drop')
    decreases |list|
  {
    if list != [] {
      assert list[0] in names;
      assert list[0] in drop <==> list[0] in names * drop;
      assert list[0] in drop' <==> list[0] in names * drop';
      var rest := names - {list[0]};
      assert rest * drop == (names * drop) - {list[0]} && rest * drop' == (names * drop') - {list[0]};
      WithoutSame(list[1..], rest, drop, drop');
    }
  }

  lemma {:induction false} WithoutMore(list: seq<Name>, n: Name, drop: set<Name>)
    ensures Without(list + [n], drop) == Without(list, drop) + (if n in drop then [] else [n])
    decreases |list|
  {
    if list == [] {
      assert ([] + [n])[1..] == [];
    } else {
      assert (list + [n])[1..] == list[1..] + [n];
      WithoutMore(list[1..], n, drop);
    }
  }

  lemma {:induction false} SortedSame(list: seq<Name>, priority: map<Name, real>, priority': map<Name, real>,
                                      names: set<Name>)
    requires Enumerates(list, names) && Sorted(list, priority)
    requires forall n :: n in names ==> PriorityOf(priority', n) == PriorityOf(priority, n)
    ensures Sorted(list, priority')
    decreases |list|
  {
    if |list| > 1 {
      assert list[1] == list[1..][0];
      SortedSame(list[1..], priority, priority', names - {list[0]});
    }
  }

  lemma {:induction false} EnumerateBoth(list: seq<Name>, names: set<Name>, more: seq<Name>, others: set<Name>)
    requires Enumerates(list, names) && Enumerates(more, others) && names !! others
    ensures Enumerates(list + more, names + others)
    decreases |list|
  {
    if list == [] {
      assert [] + more == more;
      assert {} + others == others;
    } else {
      assert (list + more)[1..] == list[1..] + more;
      assert names + others - {list[0]} == (names - {list[0]}) + others;
      EnumerateBoth(list[1..], names - {list[0]}, more, others);
    }
  }

  lemma SortedWith(queue: seq<Name>, queued: set<Name>, kept: seq<Name>, appended: set<Name>, priority: map<Name, real>)
    requires Enumerates(queue, queued) && Sorted(queue, priority) && Enumerates(kept, appended) && queued !! appended
    ensures var after := if kept == [] then queue else Sort(queue + kept, priority);
      Enumerates(after, queued + appended) && Sorted(after, priority)
  {
    if kept == [] {
      assert queued + appended == queued;
    } else {
      EnumerateBoth(queue, queued, kept, appended);
      SortFacts(queue + kept, priority, queued + appended, 0.0);
    }
  }

  // ----- sort_out_task_queue

  /** The queue that sort_out_task_queue leaves: without the tasks that were stopped or over, and with the new
      tasks that were not stopped, by priority. */
  function SortedOut(queue: seq<Name>, append: seq<Name>, delete: set<Name>, stop: set<Name>,
                     priority: map<Name, real>): seq<Name> {
    var kept := Without(queue, delete + stop);
    var added := Without(append, stop);
    if added == [] then kept else Sort(kept + added, priority)
  }

  lemma {:induction false} WithOfBoth(list: seq<Name>, more: seq<Name>, priority: map<Name, real>, p: real)
    ensures With(list + more, priority, p) == With(list, priority, p) + With(more, priority, p)
    decreases |list|
  {
    if list == [] {
      assert [] + more == more;
    } else {
      assert (list + more)[1..] == list[1..] + more && (list + more)[0] == list[0];
      WithOfBoth(list[1..], more, priority, p);
    }
  }

  /** First come, first served, among the tasks of the same priority. */
  lemma SortedOutIsFair(queue: seq<Name>, append: seq<Name>, delete: set<Name>, stop: set<Name>,
                        priority: map<Name, real>,
                        queued: set<Name>, appended: set<Name>, p: real)
    requires Enumerates(queue, queued) && Enumerates(append, appended) && queued !! appended && Sorted(queue, priority)
    ensures var after := SortedOut(queue, append, delete, stop, priority);
      && Enumerates(after, (queued - (delete + stop)) + (appended - stop)) && Sorted(after, priority)
      && With(after, priority, p) ==
         With(Without(queue, delete + stop), priority, p) + With(Without(append, stop), priority, p)
  {
    var kept := Without(queue, delete + stop);
    var added := Without(append, stop);
    WithoutFacts(queue, queued, delete + stop, priority);
    WithoutFacts(append, appended, stop, priority);
    if added == [] {
      EnumerationFacts(added, appended - stop);
      assert (queued - (delete + stop)) + (appended - stop) == queued - (delete + stop);
    } else {
      EnumerateBoth(kept, queued - (delete + stop), added, appended - stop);
      SortFacts(kept + added, priority, (queued - (delete + stop)) + (appended - stop), p);
      WithOfBoth(kept, added, priority, p);
    }
  }

  // ----- the scheduler

  /** Why task_scheduler goes on to later tasks. */
  ghost predicate MayBePassed(delete: set<Name>, stop: seq<Name>, tasks: map<Name, Task>, n: Name,
                              preferences: set<int>) {
    || n in delete
    || n in stop
    || (n in tasks && Open(tasks[n]) && (HasWaiting(tasks[n]) ==> tasks[n].gpuPreference in preferences))
  }

  /** Every live task before queue[i] either waits for nothing or prefers some kind of GPU, and not that of queue[i]. */
  ghost predicate OvertakesNothing(queue: seq<Name>, delete: set<Name>, stop: seq<Name>, tasks: map<Name, Task>, i: nat)
    requires i < |queue|
  {
    forall j :: 0 <= j < i && queue[j] !in delete && queue[j] !in stop && queue[j] in tasks &&
                HasWaiting(tasks[queue[j]]) ==>
      && tasks[queue[j]].gpuPreference != NO_PREFERENCE
      && (queue[i] in tasks ==> tasks[queue[j]].gpuPreference != tasks[queue[i]].gpuPreference)
  }

  /** The first i tasks were looked at, and none of them kept the scheduler from looking further. */
  ghost predicate LookedPast(queue: seq<Name>, delete: set<Name>, stop: seq<Name>, tasks: map<Name, Task>, i: nat)
    requires i <= |queue|
  {
    forall j :: 0 <= j < i ==> Passed(delete, stop, tasks, queue[j])
  }

  /** A task that is to leave the queue, or that is not over and waits for nothing or for some kind of GPU. */
  ghost predicate Passed(delete: set<Name>, stop: seq<Name>, tasks: map<Name, Task>, n: Name) {
    || n in delete
    || n in stop
    || (n in tasks && Open(tasks[n]) && (HasWaiting(tasks[n]) ==> tasks[n].gpuPreference != NO_PREFERENCE))
  }

  ghost predicate AllMayBePassed(queue: seq<Name>, delete: set<Name>, stop: seq<Name>, tasks: map<Name, Task>,
                                 pending: set<int>, i: nat)
    requires i <= |queue|
  {
    NO_PREFERENCE !in pending && forall j :: 0 <= j < i ==> MayBePassed(delete, stop, tasks, queue[j], pending)
  }

  /** One task more, about which alone anything may have changed. */
  lemma PassOneMore(queue: seq<Name>, stop: seq<Name>, delete: set<Name>, tasks: map<Name, Task>, pending: set<int>,
                    delete': set<Name>, tasks': map<Name, Task>, pending': set<int>, i: nat)
    requires i < |queue| && (forall j :: 0 <= j < i ==> queue[j] != queue[i])
    requires AllMayBePassed(queue, delete, stop, tasks, pending, i)
    requires delete <= delete' && pending <= pending' && NO_PREFERENCE !in pending'
    requires forall m :: m in tasks && m != queue[i] ==> m in tasks' && tasks'[m] == tasks[m]
    requires MayBePassed(delete', stop, tasks', queue[i], pending')
    ensures AllMayBePassed(queue, delete', stop, tasks', pending', i + 1)
  {
    forall j | 0 <= j < i
      ensures MayBePassed(delete', stop, tasks', queue[j], pending')
    {
      assert MayBePassed(delete, stop, tasks, queue[j], pending);
    }
  }

  lemma LookedAt(queue: seq<Name>, delete: set<Name>, stop: seq<Name>, tasks: map<Name, Task>, pending: set<int>,
                 i: nat)
    requires i <= |queue| && AllMayBePassed(queue, delete, stop, tasks, pending, i)
    ensures LookedPast(queue, delete, stop, tasks, i)
    ensures i < |queue| && queue[i] in tasks && tasks[queue[i]].gpuPreference !in pending ==>
              OvertakesNothing(queue, delete, stop, tasks, i)
  {
    assert forall j :: 0 <= j < i ==> MayBePassed(delete, stop, tasks, queue[j], pending);
  }

  /** How the scheduler ends: with a task that overtakes nothing, or at one that blocks, or at the end. */
  ghost predicate Looked(queue: seq<Name>, delete: set<Name>, stop: seq<Name>, tasks: map<Name, Task>,
                         picked: Option<Name>, i: nat)
    requires i <= |queue|
  {
    && LookedPast(queue, delete, stop, tasks, i)
    && (picked.Some? ==> i < |queue| && queue[i] == picked.value && OvertakesNothing(queue, delete, stop, tasks, i))
    && (picked.None? && i < |queue| ==> Blocks(delete, stop, tasks, queue[i]))
  }

  /** Marking the picked task running changes nothing for the tasks before it. */
  lemma LookedStays(queue: seq<Name>, delete: set<Name>, stop: seq<Name>, tasks: map<Name, Task>,
                    tasks': map<Name, Task>, i: nat)
    requires i < |queue| && queue[i] in tasks && forall j :: 0 <= j < i ==> queue[j] != queue[i]
    requires tasks' == tasks[queue[i] := tasks[queue[i]].(status := Running)]
    requires Looked(queue, delete, stop, tasks, Some(queue[i]), i)
    ensures Looked(queue, delete, stop, tasks', Some(queue[i]), i)
  {
    forall j | 0 <= j < i
      ensures Passed(delete, stop, tasks', queue[j])
    {
      assert Passed(delete, stop, tasks, queue[j]);
    }
  }

  /** Only a live task without a preference, for which there is no room, makes the scheduler give up. */
  ghost predicate Blocks(delete: set<Name>, stop: seq<Name>, tasks: map<Name, Task>, n: Name) {
    && n !in delete && n !in stop
    && n in tasks && Open(tasks[n]) && HasWaiting(tasks[n]) && tasks[n].gpuPreference == NO_PREFERENCE
  }

  /** All the subtasks, or one that waits. */
  ghost predicate GivesWork(task: Task, list: seq<nat>) {
    if task.atSameTime then HasWaiting(task) && list == seq(|task.subs|, k requires 0 <= k < |task.subs| => k)
    else |list| == 1 && list[0] < |task.subs| && task.subs[list[0]].status == Waiting
  }

  ghost function Names(list: seq<Name>): set<Name> {
    set n | n in list
  }

  /** Of the first i + 1 names, those of the set. */
  lemma AmongNext(list: seq<Name>, i: nat, names: set<Name>)
    requires i < |list| && forall j :: 0 <= j < i ==> list[j] != list[i]
    ensures names * Names(list[..i + 1]) == names * Names(list[..i]) + if list[i] in names then {list[i]} else {}
    ensures list[i] !in Names(list[..i])
  {
    assert list[..i + 1] == list[..i] + [list[i]];
  }

  /** The while loop of sort_out_task_queue. */
  method RemoveAll(queue: seq<Name>, delete: seq<Name>, ghost names: set<Name>) returns (rest: seq<Name>)
    requires Enumerates(queue, names)
    ensures rest == Without(queue, Names(delete))
  {
    rest := queue;
    ghost var removed := {};
    WithoutNone(queue);
    for i := 0 to |delete|
      invariant removed == Names(delete[..i]) && rest == Without(queue, removed)
    {
      RemovedIsWithout(queue, names, removed, delete[i]);
      removed := removed + {delete[i]};
      rest := RemoveFirst(rest, delete[i]);
      assert delete[..i + 1] == delete[..i] + [delete[i]];
    }
    assert delete[..|delete|] == delete;
  }

  lemma {:induction false} WithoutNone(list: seq<Name>)
    ensures Without(list, {}) == list
  {
    if list != [] {
      WithoutNone(list[1..]);
    }
  }

  /** clear_sub_tasks */
  method ClearSubs(t: Task) returns (u: Task)
    ensures Cleared(t, u)
  {
    u := t;
    for k := 0 to |t.subs|
      invariant |u.subs| == |t.subs| && u == t.(subs := u.subs)
      invariant forall i :: 0 <= i < |t.subs| ==> u.subs[i] == t.subs[i] || u.subs[i] == t.subs[i].(status := Failed)
      invariant forall i :: k <= i < |t.subs| ==> u.subs[i] == t.subs[i]
    {
      var stopFails: bool := *;
      if stopFails {
        u := u.(subs := u.subs[k := t.subs[k].(status := Failed)]);
      }
    }
  }

  /** What the scheduler does after a task: look at the next one, take this one, or stop. */
  datatype Verdict = GoOn | PickIt | GiveUp

  /** TaskMgr: `st` has the lists as sets, and what the job manager knows; `current` is the task that
      task_processor works on. */
  class TaskQueue {
    const jobmgr: JobMgr
    var queue: seq<Name>
    var lazyAppend: seq<Name>
    var lazyDelete: seq<Name>
    var lazyStop: seq<Name>
    var tasks: map<Name, Task>
    var priority: map<Name, real>
    ghost var st: State
    ghost var current: Option<Name>
    /** a subtask that had failed was started again, or reported again */
    ghost var again: bool

    ghost predicate Agrees()
      reads this, jobmgr
    {
      Inv(st) && jobmgr.In(st) && st.tasks == tasks && (!again ==> AllWithinTries(tasks))
    }

    ghost predicate Valid()
      reads this, jobmgr
    {
      && Agrees()
      && Enumerates(queue, st.queue) && Enumerates(lazyAppend, st.append) && Enumerates(lazyDelete, st.delete)
      && Sorted(queue, priority) && tasks.Keys <= priority.Keys
      && (current.Some? ==> current.value in st.queue && current.value !in st.delete)
    }

    constructor (jobmgr: JobMgr)
      requires jobmgr.jobMap == {} && jobmgr.status == map[] && jobmgr.charges == map[]
      ensures Valid() && st == State({}, {}, {}, map[], {}, map[], map[]) && current == None && !again
      ensures this.jobmgr == jobmgr && lazyStop == []
    {
      this.jobmgr := jobmgr;
      queue, lazyAppend, lazyDelete, lazyStop := [], [], [], [];
      tasks, priority := map[], map[];
      st := State({}, {}, {}, map[], {}, map[], map[]);
      current, again := None, false;
    }

    /** add_job, for a new job id */
    method AddJob(j: int)
      requires Valid() && forall n :: n in tasks || n in st.status ==> n.job != j
      modifies this`st, jobmgr
      ensures Valid() && st == old(st).(jobs := old(st.jobs) + {j})
    {
      jobmgr.jobMap := jobmgr.jobMap + {j};
      ghost var s := st;
      st := st.(jobs := st.jobs + {j});
      forall n
        ensures Good(st, n)
      {
        assert Good(s, n);
      }
    }

    /** add_task; a task that cannot be placed even on idle workers, or has too many vnodes, is reported failed. */
    method AddTask(n: Name, t: Task, p: real) returns (ok: bool)
      requires Valid() && n !in tasks
      requires t.status == Waiting
      requires forall k :: 0 <= k < |t.subs| ==>
                t.subs[k].status == Waiting && !t.subs[k].tokenLive && t.subs[k].tries == 0
      modifies this, jobmgr
      ensures again == old(again)
      ensures Valid() && queue == old(queue) && lazyStop == old(lazyStop) && current == old(current)
      ensures tasks == if ok then old(tasks)[n := t] else old(tasks)
      ensures priority == if ok then old(priority)[n := p] else old(priority)
      ensures lazyAppend == if ok then old(lazyAppend) + [n] else old(lazyAppend)
      ensures st.charges == old(st.charges) && (!ok ==> n.job !in st.jobs)
    {
      assert Good(st, n);
      jobmgr.status := jobmgr.status[n := BatchJobs.Scheduling];
      ok := *;
      if ok {
        TurnOfNewTask(st, n, t);
        EnumerateMore(lazyAppend, st.append, n);
        SortedSame(queue, priority, priority[n := p], st.queue);
        lazyAppend, tasks, priority := lazyAppend + [n], tasks[n := t], priority[n := p];
        st := st.(append := st.append + {n}, tasks := st.tasks[n := t], status := st.status[n := BatchJobs.Scheduling]);
      } else {
        ghost var s := st;
        st := st.(status := st.status[n := BatchJobs.Scheduling]);
        ghost var drops := jobmgr.Report(st, n, HasFailed, 0);
        TurnOfRefusedTask(s, n, drops);
        st := AfterReport(st, n, HasFailed, 0, drops);
      }
    }

    /** lazy_stop_task */
    method LazyStop(n: Name)
      requires Valid()
      modifies this`lazyStop
      ensures Valid() && lazyStop == old(lazyStop) + [n]
    {
      lazyStop := lazyStop + [n];
    }

    /** Stops a queued task, marked or not. */
    method StopTask(n: Name, ghost stopped: set<Name>)
      requires Agrees() && n in st.queue
      requires n !in stopped && forall m :: m in stopped ==> StopKnown(st.jobs, st.status, m)
      modifies this`tasks, this`st, jobmgr
      ensures Agrees() && tasks.Keys == old(tasks).Keys
      ensures st.queue == old(st.queue) - {n} && st.delete == old(st.delete) - {n} && st.append == old(st.append)
      ensures forall m :: m in stopped + {n} ==> StopKnown(st.jobs, st.status, m)
    {
      assert Good(st, n);
      var u := ClearSubs(tasks[n]);
      var billing: nat := *;
      ghost var s := WithTask(st, n, u).(queue := st.queue - {n}, delete := st.delete - {n});
      ghost var drops := jobmgr.Report(s, n, WasStopped, billing);
      TurnOfStoppedTask(st, n, u, billing, drops);
      ReportIsAbout(s, n, WasStopped, billing, drops);
      tasks := tasks[n := u];
      st := AfterReport(s, n, WasStopped, billing, drops);
      assert forall m :: m in stopped ==> AsBefore(s, st, m);
    }

    /** The for loop of sort_out_task_queue that stops tasks: `stopped` are the queued tasks among lazyStop. */
    method StopQueued() returns (marked: seq<Name>, ghost stopped: set<Name>)
      requires Valid() && current == None
      modifies this`tasks, this`st, jobmgr
      ensures stopped == old(st.queue) * Names(lazyStop) && Names(marked) == old(st.delete) + stopped
      ensures Agrees() && tasks.Keys == old(tasks).Keys
      ensures st.queue == old(st.queue) - stopped && st.delete == old(st.delete) - stopped
      ensures st.append == old(st.append)
      ensures forall n :: n in stopped ==> StopKnown(st.jobs, st.status, n)
    {
      marked, stopped := lazyDelete, {};
      EnumerationFacts(queue, st.queue);
      EnumerationFacts(lazyDelete, st.delete);
      for i := 0 to |queue|
        invariant Agrees() && tasks.Keys == old(tasks).Keys
        invariant st.queue == old(st.queue) - stopped && st.delete == old(st.delete) - stopped
        invariant st.append == old(st.append)
        invariant Names(marked) == old(st.delete) + stopped
        invariant stopped == old(st.queue) * Names(lazyStop) * Names(queue[..i])
        invariant forall n :: n in stopped ==> StopKnown(st.jobs, st.status, n)
      {
        var n := queue[i];
        AmongNext(queue, i, old(st.queue) * Names(lazyStop));
        if n in lazyStop {
          StopTask(n, stopped);
          assert Names(marked + [n]) == Names(marked) + {n};
          marked, stopped := marked + [n], stopped + {n};
        }
      }
      assert queue[..|queue|] == queue;
    }

    /** The first two loops of sort_out_task_queue. */
    method TakeOut() returns (ghost stopped: set<Name>)
      requires Valid() && current == None
      modifies this`queue, this`lazyDelete, this`tasks, this`st, jobmgr
      ensures Agrees() && tasks.Keys == old(tasks).Keys
      ensures queue == Without(old(queue), old(st.delete) + Names(lazyStop)) && lazyDelete == []
      ensures st.queue == old(st.queue) - (old(st.delete) + Names(lazyStop)) && st.delete == {}
      ensures st.append == old(st.append)
      ensures stopped == old(st.queue) * Names(lazyStop) && forall n :: n in stopped ==>
                StopKnown(st.jobs, st.status, n)
    {
      ghost var queued, delete := st.queue, st.delete;
      var marked;
      marked, stopped := StopQueued();
      TurnOfDeletedTasks(st);
      WithoutSame(queue, queued, delete + stopped, delete + Names(lazyStop));
      queue := RemoveAll(queue, marked, queued);
      lazyDelete := [];
      st := st.(queue := st.queue - st.delete, delete := {});
    }

    method StopNewTask(n: Name, ghost stopped: set<Name>)
      requires Agrees() && n in st.append
      requires n !in stopped && forall m :: m in stopped ==> StopKnown(st.jobs, st.status, m)
      modifies this`st, jobmgr
      ensures Agrees() && st.queue == old(st.queue) && st.delete == old(st.delete) && st.append == old(st.append) - {n}
      ensures st.tasks == old(st.tasks)
      ensures forall m :: m in stopped + {n} ==> StopKnown(st.jobs, st.status, m)
    {
      assert Good(st, n);
      ghost var s := st.(append := st.append - {n});
      ghost var drops := jobmgr.Report(s, n, WasStopped, 0);
      TurnOfStoppedNewTask(st, n, drops);
      ReportIsAbout(s, n, WasStopped, 0, drops);
      st := AfterReport(s, n, WasStopped, 0, drops);
      assert forall m :: m in stopped ==> AsBefore(s, st, m);
    }

    /** The for loop of sort_out_task_queue over the new tasks. */
    method DropStopped(ghost stopped: set<Name>) returns (kept: seq<Name>)
      requires Agrees() && Enumerates(lazyAppend, st.append)
      requires stopped !! st.append && forall n :: n in stopped ==> StopKnown(st.jobs, st.status, n)
      modifies this`st, jobmgr
      ensures Agrees() && st.queue == old(st.queue) && st.delete == old(st.delete) && st.tasks == old(st.tasks)
      ensures kept == Without(lazyAppend, Names(lazyStop)) && st.append == old(st.append) - Names(lazyStop)
      ensures forall n :: n in stopped + old(st.append) * Names(lazyStop) ==> StopKnown(st.jobs, st.status, n)
    {
      kept := [];
      EnumerationFacts(lazyAppend, st.append);
      ghost var dropped := {};
      for i := 0 to |lazyAppend|
        invariant Agrees() && st.queue == old(st.queue) && st.delete == old(st.delete) && st.tasks == old(st.tasks)
        invariant kept == Without(lazyAppend[..i], Names(lazyStop)) && st.append == old(st.append) - dropped
        invariant dropped == old(st.append) * Names(lazyStop) * Names(lazyAppend[..i])
        invariant forall n :: n in stopped + dropped ==> StopKnown(st.jobs, st.status, n)
      {
        var n := lazyAppend[i];
        assert lazyAppend[..i + 1] == lazyAppend[..i] + [n];
        AmongNext(lazyAppend, i, old(st.append) * Names(lazyStop));
        WithoutMore(lazyAppend[..i], n, Names(lazyStop));
        if n in lazyStop {
          StopNewTask(n, stopped + dropped);
          dropped := dropped + {n};
        } else {
          kept := kept + [n];
        }
      }
      assert lazyAppend[..|lazyAppend|] == lazyAppend;
    }

    /** The end of sort_out_task_queue. */
    method PutIn(kept: seq<Name>)
      requires Agrees() && current == None && lazyDelete == [] && st.delete == {}
      requires tasks.Keys <= priority.Keys
      requires Enumerates(queue, st.queue) && Sorted(queue, priority)
      requires Enumerates(kept, st.append) && st.queue !! st.append
      modifies this`queue, this`lazyAppend, this`lazyStop, this`st
      ensures Valid() && st == old(st).(queue := old(st.queue) + old(st.append), append := {})
      ensures queue == if kept == [] then old(queue) else Sort(old(queue) + kept, priority)
      ensures lazyAppend == [] && lazyStop == []
    {
      SortedWith(queue, st.queue, kept, st.append, priority);
      lazyAppend, lazyStop := [], [];
      if kept != [] {
        queue := Sort(queue + kept, priority);
      }
      Requeued();
    }

    ghost method Requeued()
      requires Agrees() && current == None && lazyDelete == [] && lazyAppend == [] && st.delete == {}
      requires tasks.Keys <= priority.Keys
      requires Enumerates(queue, st.queue + st.append) && Sorted(queue, priority)
      modifies this`st
      ensures Valid() && st == old(st).(queue := old(st.queue) + old(st.append), append := {})
    {
      TurnOfQueuedTasks(st);
      st := st.(queue := st.queue + st.append, append := {});
    }

    /** sort_out_task_queue */
    method SortOut()
      requires Valid() && current == None
      modifies this`queue, this`lazyAppend, this`lazyDelete, this`lazyStop, this`tasks, this`st, jobmgr
      ensures Valid() && tasks.Keys == old(tasks).Keys
      ensures queue == SortedOut(old(queue), old(lazyAppend), old(st.delete), Names(old(lazyStop)), priority)
      ensures lazyAppend == [] && lazyDelete == [] && lazyStop == []
      ensures InOrder(queue, priority) && forall n :: n in queue ==> n in priority
      ensures forall n :: n in (old(st.queue) + old(st.append)) * Names(old(lazyStop)) ==>
                StopKnown(st.jobs, st.status, n)
    {
      ghost var queued, appended, delete, stop := st.queue, st.append, st.delete, Names(lazyStop);
      QueuesAreDisjoint(st);
      WithoutFacts(queue, queued, delete + stop, priority);
      WithoutFacts(lazyAppend, appended, stop, priority);
      ghost var stopped := TakeOut();
      var kept := DropStopped(stopped);
      assert (queued + appended) * stop == stopped + appended * stop;
      PutIn(kept);
      QueueIsInOrder();
    }

    lemma QueueIsInOrder()
      requires Valid()
      ensures InOrder(queue, priority) && forall n :: n in queue ==> n in priority
    {
      SortedIs(queue, priority);
      EnumerationFacts(queue, st.queue);
      forall n | n in queue
        ensures n in priority
      {
        assert Good(st, n);
      }
    }

    /** check_task_completed: the vnodes are stopped, the task is charged, and marked. */
    method CheckTaskCompleted(n: Name) returns (done: bool, billing: nat)
      requires Valid() && current == None && n in st.queue && n !in st.delete && n in tasks
      modifies this`tasks, this`lazyDelete, this`st, jobmgr
      ensures Valid() && done == !Open(old(tasks)[n])
      ensures !done ==> tasks == old(tasks) && lazyDelete == old(lazyDelete) && st == old(st)
      ensures done ==> lazyDelete == old(lazyDelete) + [n] && st.delete == old(st.delete) + {n}
      ensures done ==> ChargesOf(st.charges, n) == if billing > 0 then 1 else 0
      ensures done ==> n in tasks && Cleared(old(tasks)[n], tasks[n])
      ensures done ==> st.status == Told(old(st), n, if old(tasks)[n].status == Failed then HasFailed else HasFinished)
      ensures st.queue == old(st.queue) && tasks.Keys == old(tasks).Keys
      ensures forall m :: m in tasks && m != n ==> tasks[m] == old(tasks)[m]
    {
      var task := tasks[n];
      var open := FindOpen(task);
      done, billing := !open, 0;
      if open {
        return;
      }
      var u := ClearSubs(task);
      EnumerateMore(lazyDelete, st.delete, n);
      assert Good(st, n);
      billing := *;
      ghost var s := WithTask(st, n, u).(delete := st.delete + {n});
      ghost var drops := jobmgr.Report(s, n, Outcome(u), billing);
      TurnOfCompletedTask(st, n, u, billing, drops);
      tasks, lazyDelete := tasks[n := u], lazyDelete + [n];
      st := AfterReport(s, n, Outcome(u), billing, drops);
    }

    /** The first waiting subtask that can be placed. */
    method FirstPlaced(task: Task, pending: set<int>) returns (list: seq<nat>)
      ensures list != [] ==> task.gpuPreference !in pending
      ensures list == [] || (|list| == 1 && list[0] < |task.subs| && task.subs[list[0]].status == Waiting)
    {
      for k := 0 to |task.subs| {
        if task.subs[k].status == Waiting && task.gpuPreference !in pending {
          var placed: bool := *;
          if placed {
            return [k];
          }
        }
      }
      return [];
    }

    /** The subtasks of a task that are given workers in this turn, if any. */
    method Placed(task: Task, pending: set<int>) returns (list: seq<nat>)
      requires HasWaiting(task)
      ensures list != [] ==> task.gpuPreference !in pending && GivesWork(task, list)
    {
      if task.atSameTime {
        var placed: bool := *;
        if placed && task.gpuPreference !in pending {
          return seq(|task.subs|, k requires 0 <= k < |task.subs| => k);
        }
        return [];
      }
      list := FirstPlaced(task, pending);
    }

    /** task_scheduler */
    method PickTask() returns (picked: Option<Name>, list: seq<nat>)
      requires Valid() && current == None
      modifies this`tasks, this`lazyDelete, this`st, jobmgr
      ensures Valid() && st.queue == old(st.queue) && tasks.Keys == old(tasks).Keys
      ensures picked.Some? ==>
                picked.value in tasks && GivesWork(tasks[picked.value], list) && Open(tasks[picked.value])
      ensures picked.Some? ==> picked.value in st.queue && picked.value !in st.delete
      ensures exists i :: 0 <= i <= |queue| && Looked(queue, st.delete, lazyStop, tasks, picked, i)
    {
      var pending: set<int> := {};
      EnumerationFacts(queue, st.queue);
      picked, list := None, [];
      var i, verdict := 0, GoOn;
      while verdict == GoOn && i < |queue|
        invariant 0 <= i <= |queue| && Valid() && st.queue == old(st.queue) && tasks.Keys == old(tasks).Keys
        invariant verdict == GoOn ==> AllMayBePassed(queue, st.delete, lazyStop, tasks, pending, i)
        invariant verdict != GoOn ==> i < |queue| && IsVerdict(i, list, verdict)
      {
        verdict, list, pending := LookAtTask(i, pending);
        if verdict == GoOn {
          i := i + 1;
        }
      }
      if verdict == GoOn {
        LookedAt(queue, st.delete, lazyStop, tasks, pending, |queue|);
      } else if verdict == PickIt {
        picked := Some(queue[i]);
      }
      assert Looked(queue, st.delete, lazyStop, tasks, picked, i);
    }

    ghost predicate IsVerdict(i: nat, list: seq<nat>, verdict: Verdict)
      requires i < |queue|
      reads this
    {
      var n := queue[i];
      && (verdict == PickIt ==>
           && Looked(queue, st.delete, lazyStop, tasks, Some(n), i) && n in tasks && GivesWork(tasks[n], list)
           && Open(tasks[n]) && n in st.queue && n !in st.delete)
      && (verdict == GiveUp ==> Looked(queue, st.delete, lazyStop, tasks, None, i))
    }

    /** The next task of the queue. */
    method LookAtTask(i: nat, pending: set<int>) returns (verdict: Verdict, list: seq<nat>, more: set<int>)
      requires Valid() && current == None && i < |queue| && (forall j :: 0 <= j < i ==> queue[j] != queue[i])
      requires queue[i] in st.queue && AllMayBePassed(queue, st.delete, lazyStop, tasks, pending, i)
      modifies this`tasks, this`lazyDelete, this`st, jobmgr
      ensures Valid() && st.queue == old(st.queue) && tasks.Keys == old(tasks).Keys
      ensures verdict == GoOn ==> AllMayBePassed(queue, st.delete, lazyStop, tasks, more, i + 1)
      ensures IsVerdict(i, list, verdict)
    {
      var n := queue[i];
      assert Good(st, n);
      EnumerationFacts(lazyDelete, st.delete);
      ghost var delete0, tasks0 := st.delete, tasks;
      verdict, list, more := GoOn, [], pending;
      if n !in lazyDelete && n !in lazyStop {
        var done, _ := CheckTaskCompleted(n);
        var waiting := FindWaiting(tasks[n]);
        if !done && waiting {
          LookedAt(queue, st.delete, lazyStop, tasks, pending, i);
          list := Placed(tasks[n], pending);
          more := pending + {tasks[n].gpuPreference};
          verdict := if list != [] then PickIt else if tasks[n].gpuPreference == NO_PREFERENCE then GiveUp else GoOn;
        }
      }
      if verdict == GoOn {
        PassOneMore(queue, lazyStop, delete0, tasks0, pending, st.delete, tasks, more, i);
      }
    }

    /** A turn of the scheduler, up to the report that the picked task runs: nothing overtakes a waiting task,
        except one that prefers some kind of GPU which the picked task does not prefer. */
    method Schedule() returns (picked: Option<Name>, list: seq<nat>)
      requires Valid() && current == None
      modifies this`tasks, this`lazyDelete, this`st, this`current, jobmgr
      ensures Valid() && st.queue == old(st.queue) && current == picked && tasks.Keys == old(tasks).Keys
      ensures picked.Some? ==>
                picked.value in tasks && GivesWork(tasks[picked.value], list) && tasks[picked.value].status == Running
      ensures exists i :: 0 <= i <= |queue| && Looked(queue, st.delete, lazyStop, tasks, picked, i)
    {
      picked, list := PickTask();
      ghost var i: nat :| 0 <= i <= |queue| && Looked(queue, st.delete, lazyStop, tasks, picked, i);
      if picked.None? {
        current := None;
        assert Looked(queue, st.delete, lazyStop, tasks, picked, i);
        return;
      }
      var n := picked.value;
      EnumerationFacts(queue, st.queue);
      ghost var before := tasks;
      Begin(n);
      LookedStays(queue, st.delete, lazyStop, before, tasks, i);
    }

    /** The task is marked running, and reported. */
    method Begin(n: Name)
      requires Valid() && n in st.queue && n !in st.delete && n in tasks && Open(tasks[n])
      modifies this`tasks, this`st, this`current, jobmgr
      ensures Valid() && st.queue == old(st.queue) && st.delete == old(st.delete) && current == Some(n)
      ensures tasks == old(tasks)[n := old(tasks)[n].(status := Running)] && st.charges == old(st.charges)
      ensures st.status == Told(old(st), n, IsRunning)
    {
      assert Good(st, n);
      var u := tasks[n].(status := Running);
      TurnOfOpenTask(st, n, u);
      ghost var s := WithTask(st, n, u);
      ghost var drops := jobmgr.Report(s, n, IsRunning, 0);
      TurnOfReport(s, n, IsRunning, drops);
      tasks := tasks[n := u];
      st := AfterReport(s, n, IsRunning, 0, drops);
      current := Some(n);
    }

    /** task_processor when the vnode of a subtask does not start. */
    method StartVnodeFailed(n: Name, k: nat)
      requires Valid() && current == Some(n) && n in tasks && k < |tasks[n].subs|
      modifies this`tasks, this`st, this`again, jobmgr
      ensures again <==> old(again) || old(tasks)[n].subs[k].status == Failed
      ensures Valid() && n in tasks && tasks == old(tasks)[n := tasks[n]] && TryUsed(old(tasks)[n], tasks[n], k)
      ensures st.queue == old(st.queue) && st.charges == old(st.charges)
      ensures st.status == if tasks[n].subs[k].status == Waiting then Told(old(st), n, IsRetrying) else old(st.status)
    {
      assert Good(st, n);
      again := again || tasks[n].subs[k].status == Failed;
      RetryMeans(tasks[n], k);
      RetryAndReport(n, tasks[n], k);
    }

    /** waiting_for_retry, and the report of the retry, for the task as it is now. */
    method RetryAndReport(n: Name, t: Task, k: nat)
      requires Valid() && n in st.queue && n !in st.delete && k < |t.subs| && SubsAgree(Retry(t, k))
      requires again || WithinTries(Retry(t, k))
      modifies this`tasks, this`st, jobmgr
      ensures Valid() && tasks == old(tasks)[n := Retry(t, k)] && st.queue == old(st.queue)
      ensures st.charges == old(st.charges)
      ensures st.status == if Retry(t, k).subs[k].status == Waiting then Told(old(st), n, IsRetrying)
                           else old(st.status)
    {
      assert Good(st, n);
      var u := Retry(t, k);
      Change(n, u);
      if u.subs[k].status == Waiting {
        ghost var drops := jobmgr.Report(st, n, IsRetrying, 0);
        TurnOfReport(st, n, IsRetrying, drops);
        st := AfterReport(st, n, IsRetrying, 0, drops);
      }
    }

    /** task_processor starts the command of a subtask. */
    method StartTask(n: Name, k: nat) returns (accepted: bool)
      requires Valid() && current == Some(n) && n in tasks && k < |tasks[n].subs|
      modifies this`tasks, this`st, this`again, jobmgr
      ensures again <==> old(again) || old(tasks)[n].subs[k].status == Failed
      ensures Valid() && n in tasks && tasks == old(tasks)[n := tasks[n]]
      ensures AsStarted(old(tasks)[n], tasks[n], k, accepted)
      ensures st.queue == old(st.queue) && st.charges == old(st.charges)
      ensures st.status == if tasks[n].subs[k].status == Waiting then Told(old(st), n, IsRetrying) else old(st.status)
    {
      assert Good(st, n);
      accepted := *;
      var sub := tasks[n].subs[k];
      StartKeeps(tasks[n], k, accepted);
      StartMeans(tasks[n], k, accepted);
      again := again || sub.status == Failed;
      if accepted || !sub.hasCommand || sub.status == Running {
        Change(n, AfterStart(tasks[n], k, accepted));
      } else {
        RetryAndReport(n, SetSub(tasks[n], k, sub.(tokenLive := true)), k);
      }
    }

    method Change(n: Name, u: Task)
      requires Valid() && n in st.queue && n !in st.delete && SubsAgree(u) && (again || WithinTries(u))
      modifies this`tasks, this`st
      ensures Valid() && tasks == old(tasks)[n := u] && st == WithTask(old(st), n, u)
    {
      assert Good(st, n);
      TurnOfOpenTask(st, n, u);
      tasks := tasks[n := u];
      st := WithTask(st, n, u);
    }

    /** task_processor returns. */
    method EndOfProcessing()
      requires Valid()
      modifies this`current
      ensures Valid() && current == None
    {
      current := None;
    }

    /** on_task_report.  With at most one report for each token nothing can be charged twice; exactly a second report
        that makes a task try again, after the task was found completed, opens it for another charge. */
    method OnTaskReport(n: Name, k: nat, tokenMatches: bool, r: WorkerStatus) returns (accepted: bool)
      requires Valid()
      modifies this`tasks, this`st, this`again, jobmgr
      ensures accepted <==> n in st.queue && tokenMatches && n in old(tasks) && IsCommand(old(tasks)[n], k)
      ensures again <==> old(again) || (accepted && old(tasks)[n].subs[k].status == Failed)
      ensures accepted ==> n in tasks && tasks == old(tasks)[n := tasks[n]] && AsReported(old(tasks)[n], tasks[n], k, r)
      ensures !accepted ==> tasks == old(tasks)
      ensures st.queue == old(st.queue) && st.delete == old(st.delete) && st.charges == old(st.charges)
      ensures st.status == if accepted && UsesTryLeft(old(tasks)[n], k, r) then Told(old(st), n, IsRetrying)
                           else old(st.status)
      ensures Valid() <==>
                !(accepted && UsesTryLeft(old(tasks)[n], k, r) && n in old(st.delete) && n.job in old(st.jobs))
      ensures accepted && old(tasks)[n].subs[k].tokenLive ==> Valid()
    {
      EnumerationFacts(queue, st.queue);
      if n !in queue || !tokenMatches || n !in tasks || !IsCommand(tasks[n], k) {
        return false;
      }
      TakeReport(n, k, r);
      accepted := true;
    }

    /** A report with the right token. */
    method TakeReport(n: Name, k: nat, r: WorkerStatus)
      requires Valid() && n in st.queue && n in tasks && IsCommand(tasks[n], k)
      modifies this`tasks, this`st, this`again, jobmgr
      ensures again <==> old(again) || old(tasks)[n].subs[k].status == Failed
      ensures n in tasks && tasks == old(tasks)[n := tasks[n]] && AsReported(old(tasks)[n], tasks[n], k, r)
      ensures st.queue == old(st.queue) && st.delete == old(st.delete) && st.charges == old(st.charges)
      ensures st.status == if UsesTryLeft(old(tasks)[n], k, r) then Told(old(st), n, IsRetrying) else old(st.status)
      ensures Valid() <==> !(UsesTryLeft(old(tasks)[n], k, r) && n in old(st.delete) && n.job in old(st.jobs))
      ensures old(tasks)[n].subs[k].tokenLive ==> Valid()
    {
      TriesAgainIs(tasks[n], k, r);
      var retried := TriesAgain(tasks[n], k, r);
      again := again || tasks[n].subs[k].status == Failed;
      StoreReport(n, k, r);
      if retried {
        ReportRetry(n);
      }
    }

    /** The report that the task tries again. */
    method ReportRetry(n: Name)
      requires Valid() && n in st.queue
      modifies this`st, jobmgr
      ensures st.queue == old(st.queue) && st.delete == old(st.delete) && st.charges == old(st.charges)
      ensures st.tasks == old(st.tasks) && st.status == Told(old(st), n, IsRetrying)
      ensures Valid() <==> !(n in old(st.delete) && n.job in old(st.jobs))
    {
      ghost var s := st;
      ghost var drops := jobmgr.Report(s, n, IsRetrying, 0);
      if n in s.delete {
        TurnOfReopenedTask(s, n, drops);
      } else {
        TurnOfReport(s, n, IsRetrying, drops);
      }
      st := AfterReport(s, n, IsRetrying, 0, drops);
    }

    /** What a report changes in the task. */
    method StoreReport(n: Name, k: nat, r: WorkerStatus)
      requires Valid() && n in st.queue && n in tasks && IsCommand(tasks[n], k)
      requires again || tasks[n].subs[k].status != Failed
      modifies this`tasks, this`st
      ensures Valid() && n in tasks && tasks == old(tasks)[n := tasks[n]] && st == WithTask(old(st), n, tasks[n])
      ensures AsReported(old(tasks)[n], tasks[n], k, r)
      ensures n in st.delete && old(tasks)[n].subs[k].tokenLive ==> n.job !in st.jobs
    {
      var u := AfterWorkerReport(tasks[n], k, r);
      TurnOfWorkerReport(st, n, k, r);
      ReportMeans(tasks[n], k, r);
      if !again {
        ReportKeepsTries(tasks[n], k, r);
      }
      tasks := tasks[n := u];
      st := WithTask(st, n, u);
    }
  }
}

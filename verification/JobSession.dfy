/** Whole runs of the job table: any sequence of the operations of shell/job.c and shell/process.c. */
module JobSession {
  import opened Jobs
  import opened Sequences

  /** One call into the tables; jobs are given by their position in the array. */
  datatype Event =
    | StartJob(cmd: string)
    | AddChild(job: nat, pid: int, setpgidOk: bool)
    | SetForeground(job: nat, foreground: bool, cont: bool, killOk: bool)
    | StatusChange(pid: int, status: WaitStatus)
    | UpdateOnly(pid: int, status: WaitStatus)  // the builtin wait
    | Refresh
    | WaitFor(job: nat)
    | Reap(notify: bool)

  /** What callers see to, by assertion in the code or by how they are written. */
  predicate Allowed(shell: Shell, e: Event)
    reads shell, shell.jobs, shell.processes
  {
    match e
    case AddChild(job, pid, _) => job < |shell.jobs| && pid > 0
    case SetForeground(job, foreground, _, _) =>
      && job < |shell.jobs| && shell.jobs[job].pgid > 0
      && (shell.jobControl && foreground ==> shell.foregroundJob == null || shell.foregroundJob == shell.jobs[job])
    case WaitFor(job) => job < |shell.jobs| && shell.DistinctPids()
    case _ => true
  }

  // -----------------------------------------------------------------------
  // The tables at one moment, and what each operation may do to them.

  datatype View = View(
    jobs: seq<Job>, members: map<Job, seq<Process>>, groups: map<Job, int>,
    processes: seq<Process>, states: map<Process, State>, foreground: Job?, owner: int)

  ghost function Snapshot(shell: Shell): View
    reads shell, shell.jobs, shell.processes
  {
    View(shell.jobs, MembersOf(shell.jobs), GroupsOf(shell.jobs),
         shell.processes, StatesOf(shell.processes), shell.foregroundJob, shell.termOwner)
  }

  ghost function MembersOf(jobs: seq<Job>): map<Job, seq<Process>>
    reads jobs
  {
    map j | j in jobs :: j.processes
  }

  ghost function GroupsOf(jobs: seq<Job>): map<Job, int>
    reads jobs
  {
    map j | j in jobs :: j.pgid
  }

  /** A view that names only what it has. */
  ghost predicate Closed(v: View) {
    && (forall j <- v.jobs :: j in v.members && j in v.groups && forall p <- v.members[j] :: p in v.states)
    && (forall p <- v.processes :: p in v.states)
  }

  /** The same in terms of a view. */
  ghost predicate Permitted(jobControl: bool, v: View, e: Event)
    requires Closed(v)
  {
    match e
    case AddChild(job, pid, _) => job < |v.jobs| && pid > 0
    case SetForeground(job, foreground, _, _) =>
      && job < |v.jobs| && v.groups[v.jobs[job]] > 0
      && (jobControl && foreground ==> v.foreground == null || v.foreground == v.jobs[job])
    case WaitFor(job) =>
      job < |v.jobs| && forall i, j :: 0 <= i < j < |v.processes| ==> v.processes[i].pid != v.processes[j].pid
    case _ => true
  }

  ghost predicate SomePoll(v: View, j: Job, status: int)
    requires Closed(v) && j in v.jobs
  {
    exists p <- v.members[j] :: v.states[p].Poll() == status
  }

  /** The arrays and the jobs' own lists are as they were. */
  ghost predicate SameTables(a: View, b: View) {
    b.jobs == a.jobs && b.members == a.members && b.groups == a.groups && b.processes == a.processes
  }

  /** A new job comes last, with the next id, no processes and no group. */
  ghost predicate Started(a: View, b: View, cmd: string) {
    && |b.jobs| == |a.jobs| + 1
    && var job := b.jobs[|a.jobs|];
      && job !in a.jobs && job.cmd == cmd
      && job.jobId == (if a.jobs == [] then 1 else a.jobs[|a.jobs| - 1].jobId + 1)
      && b == a.(jobs := a.jobs + [job], members := a.members[job := []], groups := a.groups[job := -1])
  }

  /** A new process comes last and runs; the job takes it unless `setpgid` fails, and its group if it had none. */
  ghost predicate Added(a: View, b: View, job: Job, pid: int, setpgidOk: bool)
    requires job in a.members && job in a.groups
  {
    && |b.processes| == |a.processes| + 1
    && var p := b.processes[|a.processes|];
      && p !in a.processes && p.pid == pid
      && b == a.(processes := a.processes + [p], states := a.states[p := NEW],
                 members := a.members[job := a.members[job] + if setpgidOk then [p] else []],
                 groups := a.groups[job := if a.groups[job] <= 0 then pid else a.groups[job]])
  }

  /** The terminal goes to the job or back to the shell; a stopped job is continued, and no process else changes. */
  ghost predicate Moved(jobControl: bool, a: View, b: View, job: Job, foreground: bool, cont: bool, killOk: bool)
    requires Closed(a) && Closed(b) && job in a.jobs
  {
    && SameTables(a, b)
    && b.foreground == (
      if !jobControl then a.foreground else if foreground then job else if a.foreground == job then null else a.foreground)
    && var continued := jobControl && cont && killOk
        && SomePoll(a, job, TASK_STATUS_STOPPED) && !SomePoll(a, job, TASK_STATUS_WAIT);
      Continued(a.states, b.states, if continued then a.members[job] else [])
  }

  /** These processes, and no others, stop being stopped. */
  ghost predicate Continued(before: map<Process, State>, after: map<Process, State>, ps: seq<Process>) {
    && after.Keys == before.Keys
    && forall p <- before :: after[p] == if p in ps then before[p].(stopped := false) else before[p]
  }

  /** One report, recorded as it is; a foreground job stays there if it still runs. */
  ghost predicate Updated(jobControl: bool, a: View, b: View, pid: int, status: WaitStatus)
    requires Closed(a) && Closed(b)
  {
    && SameTables(a, b) && b.states == Record(a.processes, a.states, pid, status)
    && b.foreground == (
      if !jobControl then a.foreground
      else if a.foreground != null && a.foreground in b.jobs && SomePoll(b, a.foreground, TASK_STATUS_WAIT) then a.foreground else null)
  }

  /** An answer about a process of these jobs that runs. */
  ghost predicate IsAbout(a: View, js: seq<Job>, n: Answer)
    requires Closed(a) && forall j <- js :: j in a.jobs
  {
    exists j, p :: j in js && p in a.members[j] && p.pid == n.pid && a.states[p].Poll() == TASK_STATUS_WAIT
  }

  ghost predicate AllAbout(a: View, js: seq<Job>, answers: seq<Answer>)
    requires Closed(a) && forall j <- js :: j in a.jobs
  {
    forall n <- answers :: IsAbout(a, js, n)
  }

  ghost predicate RunsIn(a: View, states: map<Process, State>, j: Job?) {
    j != null && j in a.members && exists p <- a.members[j] :: p in states && states[p].Poll() == TASK_STATUS_WAIT
  }

  /** A report takes the foreground job away if it does not run. */
  ghost function ForegroundAfter(jobControl: bool, a: View, states: map<Process, State>, answers: seq<Answer>): Job? {
    if jobControl && SomeReport(answers) && !RunsIn(a, states, a.foreground) then null else a.foreground
  }

  predicate SomeFailure(answers: seq<Answer>) {
    exists n <- answers :: n.result == Failed
  }

  /** Answers about running processes of these jobs, with what they report recorded. */
  ghost predicate Waited(jobControl: bool, a: View, b: View, js: seq<Job>, answers: seq<Answer>)
    requires Closed(a) && forall j <- js :: j in a.jobs
  {
    && SameTables(a, b) && AllAbout(a, js, answers)
    && b.states == Replay(a.processes, a.states, answers)
    && b.foreground == ForegroundAfter(jobControl, a, b.states, answers)
  }

  /** Each job that runs was asked about, unless `waitpid` failed. */
  ghost predicate AskedAll(a: View, states: map<Process, State>, answers: seq<Answer>) {
    SomeFailure(answers)
    || forall j <- a.jobs :: RunsIn(a, states, j) ==> exists p, n :: p in a.members[j] && n in answers && n.pid == p.pid
  }

  ghost predicate Refreshed(jobControl: bool, a: View, b: View)
    requires Closed(a)
  {
    exists answers :: Waited(jobControl, a, b, a.jobs, answers) && AskedAll(a, b.states, answers)
  }

  /** The job has been waited for, unless `waitpid` failed. */
  ghost predicate WaitedFor(jobControl: bool, a: View, b: View, job: Job)
    requires Closed(a) && job in a.jobs
  {
    exists answers :: Waited(jobControl, a, b, [job], answers) && (SomeFailure(answers) || !RunsIn(a, b.states, job))
  }

  /** After reports, jobs leave in place, with exactly their processes: those of whose processes none runs or is stopped. */
  ghost predicate Reaped(jobControl: bool, a: View, b: View)
    requires Closed(a) && Closed(b)
  {
    && (forall j <- b.jobs :: j in a.jobs && b.members[j] == a.members[j] && b.groups[j] == a.groups[j])
    && var gone := set j | j in a.jobs && j !in b.jobs;
      && b.jobs == Minus(a.jobs, gone)
      && b.processes == Minus(a.processes, Members(a, gone))
      && (exists answers :: AllAbout(a, a.jobs, answers) && ReapedAfter(jobControl, a, b, gone, answers))
      && (forall j <- b.jobs :: SomePoll(b, j, TASK_STATUS_WAIT) || SomePoll(b, j, TASK_STATUS_STOPPED))
  }

  ghost predicate ReapedAfter(jobControl: bool, a: View, b: View, gone: set<Job>, answers: seq<Answer>) {
    var states := Replay(a.processes, a.states, answers);
    var fg := ForegroundAfter(jobControl, a, states, answers);
    AskedAll(a, states, answers) && Left(a, b, gone, states) && b.foreground == if fg in gone then null else fg
  }

  /** The states of all processes, those of the jobs gone and those still there. */
  ghost predicate Left(a: View, b: View, gone: set<Job>, states: map<Process, State>) {
    && (forall j <- gone :: j in a.members && forall p <- a.members[j] ::
          p in states && states[p].terminated && !states[p].stopped)
    && (forall p <- b.processes :: p in states && p in b.states && b.states[p] == states[p])
  }

  /** What an event may do; nothing if it is not permitted. */
  ghost predicate Transition(jobControl: bool, e: Event, a: View, b: View) {
    Closed(a) && Closed(b) &&
    if !Permitted(jobControl, a, e) then b == a
    else match e
      case StartJob(cmd) => Started(a, b, cmd)
      case AddChild(job, pid, setpgidOk) => Added(a, b, a.jobs[job], pid, setpgidOk)
      case SetForeground(job, foreground, cont, killOk) => Moved(jobControl, a, b, a.jobs[job], foreground, cont, killOk)
      case StatusChange(pid, status) => Updated(jobControl, a, b, pid, status)
      case UpdateOnly(pid, status) =>
        SameTables(a, b) && b.states == Record(a.processes, a.states, pid, status) && b.foreground == a.foreground
      case Refresh => Refreshed(jobControl, a, b)
      case WaitFor(job) => WaitedFor(jobControl, a, b, a.jobs[job])
      case Reap(_) => Reaped(jobControl, a, b)
  }

  /**
   * The invariants: ids increase along the array, and with job control the terminal belongs to
   * the foreground job, which is a job of the array, or else to the shell.
   */
  ghost predicate Consistent(jobControl: bool, pgid: int, v: View) {
    && Closed(v)
    && (forall i, j :: 0 <= i < j < |v.jobs| ==> v.jobs[i].jobId < v.jobs[j].jobId)
    && (!jobControl ==> v.foreground == null)
    && (jobControl && v.foreground == null ==> v.owner == pgid)
    && (jobControl && v.foreground != null ==> v.foreground in v.jobs && v.owner == v.groups[v.foreground] > 0)
  }

  lemma ValidIsConsistent(shell: Shell)
    requires shell.Valid()
    ensures Consistent(shell.jobControl, shell.pgid, Snapshot(shell))
    ensures forall e :: Permitted(shell.jobControl, Snapshot(shell), e) <==> Allowed(shell, e)
  {
  }

  // -----------------------------------------------------------------------
  // What stays of a view.

  twostate lemma TablesKept(jobs: seq<Job>)
    requires forall j <- jobs :: j.processes == old(j.processes) && j.pgid == old(j.pgid)
    ensures MembersOf(jobs) == old(MembersOf(jobs)) && GroupsOf(jobs) == old(GroupsOf(jobs))
  {
  }

  lemma Entry(jobs: seq<Job>, job: Job)
    requires job in jobs
    ensures job in MembersOf(jobs) && MembersOf(jobs)[job] == job.processes
    ensures job in GroupsOf(jobs) && GroupsOf(jobs)[job] == job.pgid
  {
  }

  twostate lemma TablesChange(jobs: seq<Job>, new job: Job)
    requires forall j <- jobs :: j != job ==> j.processes == old(j.processes) && j.pgid == old(j.pgid)
    requires job in jobs
    ensures MembersOf(jobs) == old(MembersOf(jobs))[job := job.processes] && GroupsOf(jobs) == old(GroupsOf(jobs))[job := job.pgid]
  {
  }

  twostate lemma StatesAdd(ps: seq<Process>, new p: Process)
    requires p !in ps && forall q <- ps :: q.Now() == old(q.Now())
    ensures StatesOf(ps + [p]) == old(StatesOf(ps))[p := p.Now()]
  {
  }

  lemma TablesAdd(jobs: seq<Job>, job: Job)
    requires job !in jobs
    ensures MembersOf(jobs + [job]) == MembersOf(jobs)[job := job.processes] && GroupsOf(jobs + [job]) == GroupsOf(jobs)[job := job.pgid]
  {
  }

  // -----------------------------------------------------------------------
  // The operations.

  method DoStart(shell: Shell, cmd: string)
    requires shell.Valid()
    modifies shell`jobs
    ensures shell.Valid() && fresh(SetOf(shell.jobs) - SetOf(old(shell.jobs)))
    ensures Started(old(Snapshot(shell)), Snapshot(shell), cmd)
  {
    hide Shell.Valid, MembersOf, GroupsOf, StatesOf, Started, Added, Closed, Job.Status, Process.Poll;
    var job := shell.JobCreate(cmd);
    TablesAdd(old(shell.jobs), job);
    TablesKept(old(shell.jobs));
    StatesKept(shell.processes);
    NewJob(shell, old(Snapshot(shell)), job, cmd);
    FreshLast(old(shell.jobs), job);
    assert SetOf(shell.jobs) - SetOf(old(shell.jobs)) <= {job};
  }

  lemma NewJob(shell: Shell, a: View, job: Job, cmd: string)
    requires job !in a.jobs && job.cmd == cmd && job.jobId == if a.jobs == [] then 1 else a.jobs[|a.jobs| - 1].jobId + 1
    requires job.processes == [] && job.pgid == -1
    requires shell.jobs == a.jobs + [job] && shell.processes == a.processes
    requires shell.foregroundJob == a.foreground && shell.termOwner == a.owner && StatesOf(shell.processes) == a.states
    requires MembersOf(shell.jobs) == a.members[job := job.processes] && GroupsOf(shell.jobs) == a.groups[job := job.pgid]
    ensures Started(a, Snapshot(shell), cmd)
  {
    hide MembersOf, GroupsOf, StatesOf;
  }

  lemma FreshLast<T>(s: seq<T>, x: T)
    ensures SetOf(s + [x]) - SetOf(s) <= {x}
  {
  }

  method DoAdd(shell: Shell, job: Job, pid: int, setpgidOk: bool)
    requires shell.Valid() && job in shell.jobs && pid > 0
    modifies shell`processes, job`pgid, job`processes
    ensures shell.Valid() && fresh(SetOf(shell.processes) - SetOf(old(shell.processes)))
    ensures Closed(old(Snapshot(shell))) && Added(old(Snapshot(shell)), Snapshot(shell), job, pid, setpgidOk)
  {
    hide Shell.Valid, MembersOf, GroupsOf, StatesOf, Started, Added, Closed, Job.Status, Process.Poll;
    ValidIsConsistent(shell);
    Entry(shell.jobs, job);
    var p := shell.ProcessCreate(pid);
    shell.JobAddProcess(job, p, setpgidOk);
    TablesChange(shell.jobs, job);
    StatesAdd(old(shell.processes), p);
    NewProcess(shell, old(Snapshot(shell)), job, p, setpgidOk);
    FreshLast(old(shell.processes), p);
    assert SetOf(shell.processes) - SetOf(old(shell.processes)) <= {p};
  }

  lemma NewProcess(shell: Shell, a: View, job: Job, p: Process, setpgidOk: bool)
    requires p !in a.processes && p.Now() == NEW && job in a.members && job in a.groups
    requires shell.jobs == a.jobs && shell.processes == a.processes + [p]
    requires shell.foregroundJob == a.foreground && shell.termOwner == a.owner && StatesOf(shell.processes) == a.states[p := p.Now()]
    requires MembersOf(shell.jobs) == a.members[job := job.processes] && GroupsOf(shell.jobs) == a.groups[job := job.pgid]
    requires job.pgid == (if a.groups[job] <= 0 then p.pid else a.groups[job])
    requires job.processes == a.members[job] + if setpgidOk then [p] else []
    ensures Added(a, Snapshot(shell), job, p.pid, setpgidOk)
  {
    hide MembersOf, GroupsOf, StatesOf;
  }

  /** The status of a job, by the polls of a view. */
  lemma StatusInView(shell: Shell, job: Job)
    requires shell.Valid() && job in shell.jobs
    ensures var v := Snapshot(shell);
      && Closed(v)
      && (job.Status() == TASK_STATUS_WAIT <==> SomePoll(v, job, TASK_STATUS_WAIT))
      && (job.Status() == TASK_STATUS_STOPPED <==> SomePoll(v, job, TASK_STATUS_STOPPED) && !SomePoll(v, job, TASK_STATUS_WAIT))
      && (job.Status() >= 0 <==> !SomePoll(v, job, TASK_STATUS_STOPPED) && !SomePoll(v, job, TASK_STATUS_WAIT))
  {
    ValidIsConsistent(shell);
    hide Shell.Valid, Job.Status, Closed, GroupsOf;
    shell.StatusMeans(job);
    Entry(shell.jobs, job);
    StatesHere(shell, job);
  }

  lemma StatesHere(shell: Shell, job: Job)
    requires shell.Valid() && job in shell.jobs
    ensures forall p <- job.processes :: p in StatesOf(shell.processes) && StatesOf(shell.processes)[p].Poll() == p.Poll()
  {
  }

  twostate lemma ContinuedStates(ps: seq<Process>, new job: Job, new continued: bool)
    requires forall p <- ps ::
      p.stopped == (old(p.stopped) && !(continued && p in job.processes)) && p.terminated == old(p.terminated) && p.stat == old(p.stat) && p.signal == old(p.signal)
    ensures Continued(old(StatesOf(ps)), StatesOf(ps), if continued then job.processes else [])
  {
  }

  method DoMove(shell: Shell, job: Job, foreground: bool, cont: bool, killOk: bool)
    requires shell.Valid() && job in shell.jobs && job.pgid > 0
    requires shell.jobControl && foreground ==> shell.foregroundJob == null || shell.foregroundJob == job
    modifies shell`foregroundJob, shell`termOwner, job`pendingNotification, job`lastStatus
    modifies (if cont then shell.processes else [])`stopped
    ensures shell.Valid()
    ensures Closed(old(Snapshot(shell))) && Closed(Snapshot(shell))
    ensures Moved(shell.jobControl, old(Snapshot(shell)), Snapshot(shell), job, foreground, cont, killOk)
  {
    hide Shell.Valid, MembersOf, GroupsOf, StatesOf, Closed, SomePoll, Record, Continued, Job.Status, Job.Notified, Process.Poll;
    ghost var continued := killOk && shell.Continues(job, cont);
    StatusInView(shell, job);
    Entry(shell.jobs, job);
    var _ := shell.JobSetForeground(job, foreground, cont, killOk);
    TablesKept(shell.jobs);
    ContinuedStates(shell.processes, job, continued);
    StatusInView(shell, job);
  }

  method DoReport(shell: Shell, pid: int, status: WaitStatus)
    requires shell.Valid()
    modifies shell`foregroundJob, shell`termOwner, shell.jobs`pendingNotification, shell.jobs`lastStatus
    modifies shell.processes`stopped, shell.processes`terminated, shell.processes`stat, shell.processes`signal
    ensures shell.Valid()
    ensures Closed(old(Snapshot(shell))) && Closed(Snapshot(shell))
    ensures Updated(shell.jobControl, old(Snapshot(shell)), Snapshot(shell), pid, status)
  {
    hide Shell.Valid, MembersOf, GroupsOf, StatesOf, Closed, SomePoll, Record, Continued, Job.Status, Job.Notified, Process.Poll;
    ValidIsConsistent(shell);
    shell.StatesIs();
    shell.UpdateJob(pid, status);
    shell.StatesIs();
    TablesKept(shell.jobs);
    ValidIsConsistent(shell);
    shell.JobsDiffer();
    if old(shell.foregroundJob) != null {
      StatusInView(shell, old(shell.foregroundJob));
    }
  }

  /** `update_process` alone: the jobs are not told. */
  method DoUpdate(shell: Shell, pid: int, status: WaitStatus)
    requires shell.Valid()
    modifies shell.processes`stopped, shell.processes`terminated, shell.processes`stat, shell.processes`signal
    ensures shell.Valid()
    ensures Closed(old(Snapshot(shell))) && Closed(Snapshot(shell))
    ensures Snapshot(shell).states == Record(shell.processes, old(Snapshot(shell)).states, pid, status)
    ensures SameTables(old(Snapshot(shell)), Snapshot(shell)) && shell.foregroundJob == old(shell.foregroundJob)
  {
    hide Shell.Valid, MembersOf, GroupsOf, StatesOf, Closed, SomePoll, Record, Continued, Job.Status, Job.Notified, Process.Poll;
    ValidIsConsistent(shell);
    shell.StatesIs();
    shell.UpdateProcess(pid, status);
    shell.StatesIs();
    TablesKept(shell.jobs);
    ValidIsConsistent(shell);
  }

  lemma ForegroundInView(shell: Shell, a: View, states: map<Process, State>, answers: seq<Answer>)
    requires a.foreground != null ==> a.foreground in a.members && a.foreground.processes == a.members[a.foreground]
    ensures shell.AfterReports(a.foreground, states, answers) == ForegroundAfter(shell.jobControl, a, states, answers)
  {
    hide SomeReport;
  }

  lemma AskedAllInView(shell: Shell, a: View, asked: seq<Process>, answers: seq<Answer>)
    requires forall j <- a.jobs :: j in a.members && j.processes == a.members[j]
    requires shell.Asks(asked, answers)
    requires SomeFailure(answers) || forall j <- a.jobs :: shell.Answered(j.processes, StatesOf(a.processes), asked)
    ensures AskedAll(a, StatesOf(a.processes), answers)
  {
    if !SomeFailure(answers) {
      forall j | j in a.jobs && RunsIn(a, StatesOf(a.processes), j)
        ensures exists p, n :: p in a.members[j] && n in answers && n.pid == p.pid
      {
        var p :| p in a.members[j] && p in asked;
        var i :| 0 <= i < |asked| && asked[i] == p;
        assert answers[i] in answers && answers[i].pid == p.pid;
      }
    }
  }

  /** What a view says of the processes of its jobs. */
  lemma MembersHere(shell: Shell)
    requires shell.Valid()
    ensures var a := Snapshot(shell);
      && (forall j <- a.jobs :: j in a.members && j.processes == a.members[j] && forall p <- a.members[j] :: p in a.processes)
      && (a.foreground != null ==> a.foreground in a.jobs)
  {
    shell.JobsDiffer();
  }

  method DoRefresh(shell: Shell)
    requires shell.Valid()
    modifies shell.kernel, shell`foregroundJob, shell`termOwner, shell.jobs`pendingNotification, shell.jobs`lastStatus
    modifies shell.processes`stopped, shell.processes`terminated, shell.processes`stat, shell.processes`signal
    ensures shell.Valid() && Closed(old(Snapshot(shell))) && Closed(Snapshot(shell))
    ensures Refreshed(shell.jobControl, old(Snapshot(shell)), Snapshot(shell))
  {
    hide Shell.Valid, MembersOf, GroupsOf, StatesOf, Closed, SomePoll, AllAbout, Replay, Shell.AboutJobs, Shell.Asks, Shell.Answered,
      Shell.AfterReports, AskedAll, ForegroundAfter, Job.Status, Job.Notified, Process.Poll;
    ValidIsConsistent(shell);
    MembersHere(shell);
    shell.StatesIs();
    ghost var a, n := Snapshot(shell), |shell.kernel.answers|;
    ghost var asked;
    var ok;
    ok, asked := shell.RefreshJobsStatus();
    shell.StatesIs();
    TablesKept(shell.jobs);
    ValidIsConsistent(shell);
    ghost var answers := Since(shell.kernel.answers, n);
    AboutTheseJobs(shell, a, answers);
    ForegroundInView(shell, a, StatesOf(a.processes), answers);
    AnsweredOrFailed(shell, ok, a, asked, answers);
    AskedAllInView(shell, a, asked, answers);
    assert Waited(shell.jobControl, a, Snapshot(shell), a.jobs, answers) && AskedAll(a, Snapshot(shell).states, answers);
  }

  lemma AnsweredOrFailed(shell: Shell, ok: bool, a: View, asked: seq<Process>, answers: seq<Answer>)
    requires ok <==> forall n <- answers :: n.result != Failed
    requires ok ==> forall k :: 0 <= k < |a.jobs| ==> shell.Answered(a.jobs[k].processes, StatesOf(a.processes), asked)
    ensures SomeFailure(answers) || forall j <- a.jobs :: shell.Answered(j.processes, StatesOf(a.processes), asked)
  {
    hide Shell.Answered, StatesOf;
  }

  lemma AboutTheseJobs(shell: Shell, a: View, answers: seq<Answer>)
    requires Closed(a) && forall j <- a.jobs :: j.processes == a.members[j]
    requires shell.AboutJobs(answers, a.jobs, a.states)
    ensures AllAbout(a, a.jobs, answers)
  {
    forall n | n in answers ensures IsAbout(a, a.jobs, n) {
      var j, p :| j in a.jobs && p in j.processes && p.pid == n.pid && p in a.states && a.states[p].Poll() == TASK_STATUS_WAIT;
      assert p in a.members[j];
    }
  }

  method DoWait(shell: Shell, job: Job)
    requires shell.Valid() && shell.DistinctPids() && job in shell.jobs
    modifies shell.kernel, shell`foregroundJob, shell`termOwner, shell.jobs`pendingNotification, shell.jobs`lastStatus
    modifies shell.processes`stopped, shell.processes`terminated, shell.processes`stat, shell.processes`signal
    ensures shell.Valid() && Closed(old(Snapshot(shell))) && Closed(Snapshot(shell))
    ensures WaitedFor(shell.jobControl, old(Snapshot(shell)), Snapshot(shell), job)
  {
    hide Shell.Valid, MembersOf, GroupsOf, StatesOf, Closed, SomePoll, AllAbout, Replay, LastExit, Shell.AboutRunning,
      Shell.AfterReports, ForegroundAfter, Job.Status, Job.Notified, Process.Poll;
    ValidIsConsistent(shell);
    MembersHere(shell);
    shell.StatesIs();
    ghost var a, n := Snapshot(shell), |shell.kernel.answers|;
    var status := shell.JobWait(job);
    shell.StatesIs();
    TablesKept(shell.jobs);
    ValidIsConsistent(shell);
    ghost var answers := Since(shell.kernel.answers, n);
    AboutThisJob(shell, a, job, answers);
    ForegroundInView(shell, a, StatesOf(a.processes), answers);
    NotRunning(shell, a, job, status, answers);
    assert Waited(shell.jobControl, a, Snapshot(shell), [job], answers);
  }

  lemma NotRunning(shell: Shell, a: View, job: Job, status: int, answers: seq<Answer>)
    requires shell.Valid() && job in shell.jobs && job in a.members && a.members[job] == job.processes
    requires status == TASK_STATUS_ERROR ==> SomeFailure(answers)
    requires status != TASK_STATUS_WAIT && (status == TASK_STATUS_ERROR || status == job.Status())
    ensures SomeFailure(answers) || !RunsIn(a, StatesOf(shell.processes), job)
  {
    shell.RunsIs(job);
    hide Job.Status, Shell.Valid, SomeFailure;
  }

  lemma AboutThisJob(shell: Shell, a: View, job: Job, answers: seq<Answer>)
    requires Closed(a) && job in a.jobs && shell.AboutRunning(answers, a.members[job], a.states)
    ensures AllAbout(a, [job], answers)
  {
    forall n | n in answers ensures IsAbout(a, [job], n) {
      var p :| p in a.members[job] && p.pid == n.pid && p in a.states && a.states[p].Poll() == TASK_STATUS_WAIT;
      assert job in [job];
    }
  }

  /** The jobs that are left out of the array, with their processes. */
  ghost function Members(a: View, gone: set<Job>): set<Process> {
    set j, p | j in gone && j in a.members && p in a.members[j] :: p
  }

  lemma GoneJobs(a: seq<Job>, b: seq<Job>, dead: set<Job>)
    requires (forall j <- dead :: j in a) && b == Minus(a, dead)
    ensures dead == set j | j in a && j !in b
  {
  }

  lemma GoneProcesses(shell: Shell, a: View, dead: set<Job>)
    requires forall j <- dead :: j in a.members && a.members[j] == j.processes
    ensures shell.ProcessesOf(dead) == Members(a, dead)
  {
  }

  /** All processes of a destroyed job have terminated, and none counts as stopped. */
  lemma LeftStates(shell: Shell, a: View, dead: set<Job>)
    requires Closed(a) && forall j <- dead :: j in a.jobs && j.processes == a.members[j] && j.Status() >= 0
    requires StatesOf(a.processes).Keys == a.states.Keys && forall p <- shell.processes :: p in a.processes
    ensures Left(a, Snapshot(shell), dead, StatesOf(a.processes))
  {
    hide Job.Status;
    forall j | j in dead
      ensures forall p <- a.members[j] :: p in StatesOf(a.processes) && StatesOf(a.processes)[p].terminated && !StatesOf(a.processes)[p].stopped
    {
      shell.StatusMeans(j);
      forall p | p in a.members[j] ensures p in StatesOf(a.processes) && StatesOf(a.processes)[p] == p.Now() {
        assert p in a.states.Keys;
      }
    }
  }

  lemma ReapedView(shell: Shell, a: View, dead: set<Job>, answers: seq<Answer>)
    requires shell.Valid() && Closed(a)
    requires forall j <- a.jobs :: j.processes == a.members[j] && j.pgid == a.groups[j]
    requires (forall j <- dead :: j in a.jobs) && forall j <- a.jobs :: j in dead <==> j.Status() >= 0
    requires shell.jobs == Minus(a.jobs, dead) && shell.processes == Minus(a.processes, shell.ProcessesOf(dead))
    requires AllAbout(a, a.jobs, answers) && StatesOf(a.processes) == Replay(a.processes, a.states, answers)
    requires AskedAll(a, StatesOf(a.processes), answers)
    requires var fg := ForegroundAfter(shell.jobControl, a, StatesOf(a.processes), answers);
      shell.foregroundJob == if fg in dead then null else fg
    ensures Closed(Snapshot(shell)) && Reaped(shell.jobControl, a, Snapshot(shell))
  {
    hide Shell.Valid, MembersOf, GroupsOf, StatesOf, SomePoll, Left, Replay, AllAbout, AskedAll, ForegroundAfter, Job.Status, Process.Poll,
      Shell.ProcessesOf, Members;
    ValidIsConsistent(shell);
    GoneJobs(a.jobs, shell.jobs, dead);
    GoneProcesses(shell, a, dead);
    ReplayStartsNone(a.processes, a.states, answers);
    LeftStates(shell, a, dead);
    assert AllAbout(a, a.jobs, answers) && ReapedAfter(shell.jobControl, a, Snapshot(shell), dead, answers);
    forall j | j in shell.jobs
      ensures j in MembersOf(shell.jobs) && MembersOf(shell.jobs)[j] == j.processes && GroupsOf(shell.jobs)[j] == j.pgid
      ensures SomePoll(Snapshot(shell), j, TASK_STATUS_WAIT) || SomePoll(Snapshot(shell), j, TASK_STATUS_STOPPED)
    {
      Entry(shell.jobs, j);
      StatusInView(shell, j);
    }
  }

  method DoReap(shell: Shell, notify: bool)
    requires shell.Valid()
    modifies shell.kernel, shell`jobs, shell`processes, shell`foregroundJob, shell`termOwner
    modifies shell.jobs`pendingNotification, shell.jobs`lastStatus
    modifies shell.processes`stopped, shell.processes`terminated, shell.processes`stat, shell.processes`signal
    ensures shell.Valid() && Closed(old(Snapshot(shell))) && Closed(Snapshot(shell))
    ensures SetOf(shell.jobs) <= SetOf(old(shell.jobs)) && SetOf(shell.processes) <= SetOf(old(shell.processes))
    ensures Reaped(shell.jobControl, old(Snapshot(shell)), Snapshot(shell))
  {
    hide Shell.Valid, Closed, SomePoll, AllAbout, Replay, Reaped, Shell.AboutJobs, Shell.Asks, Shell.Answered, Shell.AfterReports,
      AskedAll, ForegroundAfter, Job.Status, Process.Poll, Shell.ProcessesOf;
    ValidIsConsistent(shell);
    MembersHere(shell);
    shell.StatesIs();
    ghost var a, n := Snapshot(shell), |shell.kernel.answers|;
    ghost var dead, asked := shell.DestroyTerminatedJobs(notify);
    ghost var answers := Since(shell.kernel.answers, n);
    AboutTheseJobs(shell, a, answers);
    ForegroundInView(shell, a, StatesOf(a.processes), answers);
    AskedAllInView(shell, a, asked, answers);
    ReapedView(shell, a, dead, answers);
  }

  /** One event, if it is allowed. */
  method Perform(shell: Shell, e: Event)
    requires shell.Valid()
    modifies shell, shell.kernel, SetOf(shell.jobs), SetOf(shell.processes)
    ensures shell.Valid()
    ensures fresh(SetOf(shell.jobs) - SetOf(old(shell.jobs))) && fresh(SetOf(shell.processes) - SetOf(old(shell.processes)))
    ensures Transition(shell.jobControl, e, old(Snapshot(shell)), Snapshot(shell))
  {
    hide Shell.Valid, MembersOf, GroupsOf, StatesOf, Started, Added, Moved, Updated, Refreshed, WaitedFor, Reaped, Record, SameTables, Closed;
    ValidIsConsistent(shell);
    if Allowed(shell, e) {
      match e
      case StartJob(cmd) => DoStart(shell, cmd);
      case AddChild(job, pid, setpgidOk) => DoAdd(shell, shell.jobs[job], pid, setpgidOk);
      case SetForeground(job, foreground, cont, killOk) => DoMove(shell, shell.jobs[job], foreground, cont, killOk);
      case StatusChange(pid, status) => DoReport(shell, pid, status);
      case UpdateOnly(pid, status) => DoUpdate(shell, pid, status);
      case Refresh => DoRefresh(shell);
      case WaitFor(job) => DoWait(shell, shell.jobs[job]);
      case Reap(notify) => DoReap(shell, notify);
    }
    ValidIsConsistent(shell);
  }

  /** A run: each view follows from the one before it by its event, and all are consistent. */
  ghost predicate IsRun(jobControl: bool, pgid: int, events: seq<Event>, views: seq<View>) {
    && |views| == |events| + 1
    && views[0] == View([], map[], map[], [], map[], null, pgid)
    && (forall i :: 0 <= i < |views| ==> Consistent(jobControl, pgid, views[i]))
    && (forall i :: 0 <= i < |events| ==> Transition(jobControl, events[i], views[i], views[i + 1]))
  }

  lemma NothingYet(shell: Shell)
    requires shell.jobs == [] && shell.processes == [] && shell.foregroundJob == null
    ensures Snapshot(shell) == View([], map[], map[], [], map[], null, shell.termOwner)
  {
  }

  lemma RunExtends(jobControl: bool, pgid: int, events: seq<Event>, views: seq<View>, e: Event, v: View)
    requires IsRun(jobControl, pgid, events, views)
    requires Consistent(jobControl, pgid, v) && Transition(jobControl, e, views[|events|], v)
    ensures IsRun(jobControl, pgid, events + [e], views + [v])
    ensures (views + [v])[|events| + 1] == v
  {
    hide Consistent, Transition;
  }

  /** Any events, one after the other, on a new shell: what is seen after each is a run. */
  method Run(jobControl: bool, pgid: int, child: bool, events: seq<Event>) returns (shell: Shell, ghost views: seq<View>)
    ensures shell.Valid() && shell.jobControl == jobControl && shell.pgid == pgid && shell.child == child
    ensures IsRun(jobControl, pgid, events, views) && Snapshot(shell) == views[|events|]
  {
    hide Shell.Valid, Consistent, Transition;
    var kernel := new Kernel();
    shell := new Shell(jobControl, pgid, child, kernel);
    ValidIsConsistent(shell);
    NothingYet(shell);
    views := [Snapshot(shell)];
    for i := 0 to |events|
      invariant shell.Valid() && fresh(shell) && fresh(shell.kernel) && fresh(SetOf(shell.jobs)) && fresh(SetOf(shell.processes))
      invariant shell.jobControl == jobControl && shell.pgid == pgid && shell.child == child
      invariant IsRun(jobControl, pgid, events[..i], views) && |views| == i + 1 && Snapshot(shell) == views[i]
    {
      hide IsRun, Snapshot;
      Perform(shell, events[i]);
      ValidIsConsistent(shell);
      RunExtends(jobControl, pgid, events[..i], views, events[i], Snapshot(shell));
      views := views + [Snapshot(shell)];
      assert events[..i + 1] == events[..i] + [events[i]];
    }
    assert events[..|events|] == events;
  }

  /**
   * A process that is stopped and then killed stays stopped for the shell, whether the reports
   * come through the jobs or from the builtin `wait`: the job is never reported as terminated,
   * and destroying terminated jobs leaves it in the array.
   */
  method StoppedThenKilled(cmd: string, pid: int, stop: nat, kill: nat) returns (shell: Shell, job: Job, p: Process)
    requires pid > 0
    ensures p.terminated && p.stopped && p.stat == Signaled(kill) && job.processes == [p]
    ensures job.Status() == TASK_STATUS_STOPPED && shell.jobs == [job]
  {
    var kernel := new Kernel();
    shell := new Shell(false, 1, false, kernel);
    job := shell.JobCreate(cmd);
    p := shell.ProcessCreate(pid);
    shell.JobAddProcess(job, p, true);
    StopAndKill(shell, job, p, stop, kill);
  }

  method StopAndKill(shell: Shell, job: Job, p: Process, stop: nat, kill: nat)
    requires shell.Valid() && shell.jobs == [job] && shell.processes == [p] && job.processes == [p]
    modifies shell, shell.jobs, shell.processes
    ensures p.terminated && p.stopped && p.stat == Signaled(kill) && job.processes == [p]
    ensures job.Status() == TASK_STATUS_STOPPED && shell.jobs == [job]
  {
    hide Shell.Valid;
    Report(shell, job, p, Stopped(stop));
    Report(shell, job, p, Signaled(kill));
    assert job.Polls() == [TASK_STATUS_STOPPED];
    ghost var dead := shell.DestroyTerminated(false);
    assert job !in dead && Minus([job], dead) == [job] + Minus([], dead);
  }

  /** A report about the one process of the one job, by `update_process`. */
  method Report(shell: Shell, job: Job, p: Process, status: WaitStatus)
    requires shell.Valid() && shell.jobs == [job] && shell.processes == [p] && job.processes == [p]
    modifies shell.processes
    ensures shell.Valid()
    ensures if status.Stopped? then p.stopped && p.terminated == old(p.terminated) && p.stat == old(p.stat)
            else p.terminated && p.stat == status && p.stopped == old(p.stopped)
  {
    hide Shell.Valid;
    shell.UpdateProcess(p.pid, status);
    assert shell.processes[0] == p && StatesOf(shell.processes)[p] == p.Now();
  }
}

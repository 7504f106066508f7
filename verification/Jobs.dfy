/** Jobs and processes of the shell (shell/job.c, shell/process.c). */
module Jobs {
  import opened Chars
  import opened Sequences

  const TASK_STATUS_WAIT := -1
  const TASK_STATUS_ERROR := -2
  const TASK_STATUS_STOPPED := -3

  /** What `waitpid` reports of a child. */
  datatype WaitStatus = Exited(code: nat) | Signaled(signal: nat) | Stopped(signal: nat)

  datatype WaitResult = NoStatus | Failed | Report(status: WaitStatus)

  /** One call of `waitpid`, and what it said. */
  datatype Answer = Answer(pid: int, noHang: bool, untraced: bool, result: WaitResult)

  /** The system, and all the answers that it gave. */
  class Kernel {
    ghost var answers: seq<Answer>

    constructor ()
      ensures answers == []
    {
      answers := [];
    }

    /** `waitpid` on one child: it may report nothing only when asked not to block, or fail. */
    method WaitPid(pid: int, noHang: bool, untraced: bool) returns (r: WaitResult)
      modifies this
      ensures answers == old(answers) + [Answer(pid, noHang, untraced, r)]
      ensures r == NoStatus ==> noHang
      ensures r.Report? && r.status.Stopped? ==> untraced
    {
      r :| (r == NoStatus ==> noHang) && (r.Report? && r.status.Stopped? ==> untraced);
      answers := answers + [Answer(pid, noHang, untraced, r)];
    }
  }

  /** The exit status of a terminated process; one above 128 if a signal killed it. */
  function ExitStatus(stat: WaitStatus): (status: nat)
    ensures if stat.Exited? then status == stat.code else status > 128
  {
    match stat
    case Exited(code) => code
    case _ => 129
  }

  /** What the shell knows of a process. */
  datatype State = State(stopped: bool, terminated: bool, stat: WaitStatus, signal: nat) {
    /** Running, stopped, or the exit status; being stopped hides having terminated. */
    function Poll(): int {
      if stopped then TASK_STATUS_STOPPED else if terminated then ExitStatus(stat) else TASK_STATUS_WAIT
    }
  }

  const NEW := State(false, false, Exited(0), 0)

  class Process {
    const pid: int
    var stopped: bool
    var terminated: bool
    var stat: WaitStatus  // of a terminated process
    var signal: nat       // of a stopped process
    ghost var owner: Job?  // the job that lists this process

    constructor (pid: int)
      ensures this.pid == pid && Now() == NEW && owner == null
    {
      this.pid := pid;
      owner := null;
      stopped, terminated, stat, signal := false, false, Exited(0), 0;
    }

    function Now(): State
      reads this
    {
      State(stopped, terminated, stat, signal)
    }

    /** `process_poll`: running, stopped, or the exit status, which is above 128 after a signal. */
    function Poll(): (status: int)
      reads this
      ensures status == TASK_STATUS_WAIT <==> !stopped && !terminated
      ensures status == TASK_STATUS_STOPPED <==> stopped
      ensures status >= 0 <==> terminated && !stopped
      ensures status >= 0 && stat.Exited? ==> status == stat.code
      ensures status >= 0 && !stat.Exited? ==> status > 128
      ensures status == Now().Poll()
    {
      if stopped then TASK_STATUS_STOPPED
      else if !terminated then TASK_STATUS_WAIT
      else match stat
        case Exited(code) => code
        case _ => 129
    }
  }

  /** A job's status, from those of its processes: any running, else any stopped, else the last one's. */
  function StatusOf(polls: seq<int>): int {
    if TASK_STATUS_WAIT in polls then TASK_STATUS_WAIT
    else if TASK_STATUS_STOPPED in polls then TASK_STATUS_STOPPED
    else if polls == [] then 0
    else polls[|polls| - 1]
  }

  function PollsIn(ps: seq<Process>): (r: seq<int>)
    reads ps
    ensures |r| == |ps| && forall i :: 0 <= i < |r| ==> r[i] == ps[i].Poll()
  {
    seq(|ps|, i requires 0 <= i < |ps| reads ps => ps[i].Poll())
  }

  class Job {
    const jobId: int
    const cmd: string
    var pgid: int
    var processes: seq<Process>
    var pendingNotification: bool
    var lastStatus: int

    constructor (jobId: int, cmd: string)
      ensures this.jobId == jobId && this.cmd == cmd
      ensures pgid == -1 && processes == [] && !pendingNotification && lastStatus == TASK_STATUS_WAIT
    {
      this.jobId, this.cmd := jobId, cmd;
      pgid, processes, pendingNotification, lastStatus := -1, [], false, TASK_STATUS_WAIT;
    }

    function Polls(): (r: seq<int>)
      reads this`processes, processes
      ensures |r| == |processes| && forall i :: 0 <= i < |r| ==> r[i] == processes[i].Poll()
    {
      PollsIn(processes)
    }

    function Status(): int
      reads this`processes, processes
    {
      StatusOf(Polls())
    }

    /**
     * What a look at the job after a report has noted: a job that does not run has its status
     * recorded, and if that is news a notification is due, unless the job terminated in the
     * foreground.
     */
    ghost predicate Notified(last: int, pending: bool, foreground: bool)
      reads this, processes
    {
      var status := Status();
      var news := status != TASK_STATUS_WAIT && status != last && pgid > 0;
      && lastStatus == (if status == TASK_STATUS_WAIT then last else status)
      && pendingNotification == (pending || (news && (status == TASK_STATUS_STOPPED || !foreground)))
    }

    ghost function Running(): set<Process>
      reads this`processes, processes
    {
      set p | p in processes && p.Poll() == TASK_STATUS_WAIT
    }

    /** `job_poll` */
    method JobPoll() returns (status: int)
      ensures status == Status()
    {
      status := 0;
      var stopped := false;
      for j := 0 to |processes|
        invariant TASK_STATUS_WAIT !in Polls()[..j]
        invariant stopped <==> TASK_STATUS_STOPPED in Polls()[..j]
        invariant status == if j == 0 then 0 else Polls()[j - 1]
      {
        assert Polls()[..j + 1] == Polls()[..j] + [Polls()[j]];
        status := processes[j].Poll();
        if status == TASK_STATUS_WAIT {
          return;
        }
        if status == TASK_STATUS_STOPPED {
          stopped := true;
        }
      }
      assert Polls()[..|processes|] == Polls();
      if stopped {
        return TASK_STATUS_STOPPED;
      }
    }

    /** `job_get_running_process` */
    method RunningProcess() returns (p: Process?)
      ensures if p == null then Running() == {} else p in Running() && p in processes
    {
      for j := 0 to |processes|
        invariant forall k :: 0 <= k < j ==> processes[k] !in Running()
      {
        if processes[j].Poll() == TASK_STATUS_WAIT {
          return processes[j];
        }
      }
      p := null;
    }
  }

  // -----------------------------------------------------------------------
  // Job ids (section 3.204 of POSIX.1-2017 XBD).

  /** What looking a job up needs to know of each job. */
  datatype Row = Row(id: int, status: int, cmd: string)

  const LONG_MAX := 0x7FFF_FFFF_FFFF_FFFF

  /** The value of a string of digits; too large ones saturate. */
  function Strtol(digits: string): (n: nat)
    ensures n <= LONG_MAX
  {
    if digits == "" then 0
    else
      var n := 10 * Strtol(digits[..|digits| - 1]) + (digits[|digits| - 1] as int - '0' as int);
      if n < 0 then 0 else if n > LONG_MAX then LONG_MAX else n
  }

  /** The number that decimal digits stand for. */
  function Value(digits: string): int {
    if digits == "" then 0 else 10 * Value(digits[..|digits| - 1]) + (digits[|digits| - 1] as int - '0' as int)
  }

  lemma {:induction false} StrtolSaturates(digits: string)
    requires forall c <- digits :: IsDigit(c)
    ensures Value(digits) >= 0
    ensures Strtol(digits) == if Value(digits) > 9223372036854775807 then 9223372036854775807 else Value(digits)
  {
    if digits != "" {
      var front, last := digits[..|digits| - 1], digits[|digits| - 1];
      assert last in digits && forall c <- front :: c in digits;
      StrtolSaturates(front);
    }
  }

  /** A `long` assigned to an `int`. */
  function ToInt(n: int): int {
    var m := n % 0x1_0000_0000;
    if m < 0x8000_0000 then m else m - 0x1_0000_0000
  }

  function LastWith(rows: seq<Row>, status: int, n: nat): (r: Option<nat>)
    requires n <= |rows|
    ensures r.Some? ==> r.value < n && rows[r.value].status == status
    ensures r.Some? ==> forall i :: r.value < i < n ==> rows[i].status != status
    ensures r.None? ==> forall i :: 0 <= i < n ==> rows[i].status != status
  {
    if n == 0 then None
    else if rows[n - 1].status == status then Some(n - 1)
    else LastWith(rows, status, n - 1)
  }

  /** The last but one. */
  function LastButOneWith(rows: seq<Row>, status: int): Option<nat> {
    var last := LastWith(rows, status, |rows|);
    if last.None? then None else LastWith(rows, status, last.value)
  }

  function FirstWhere(rows: seq<Row>, p: Row -> bool): (r: Option<nat>)
    ensures r.Some? ==> r.value < |rows| && p(rows[r.value])
    ensures r.Some? ==> forall i :: 0 <= i < r.value ==> !p(rows[i])
    ensures r.None? ==> forall i :: 0 <= i < |rows| ==> !p(rows[i])
  {
    if rows == [] then None
    else if p(rows[0]) then Some(0)
    else
      var rest := FirstWhere(rows[1..], p);
      if rest.None? then None else Some(rest.value + 1)
  }

  predicate Contains(s: string, part: string) {
    part <= s || (s != "" && Contains(s[1..], part))
  }

  /** `%?text` names a job whose command contains the text, `%text` one whose command starts with it. */
  predicate Names(id: string, cmd: string)
    requires |id| >= 2
  {
    if id[1] == '?' then Contains(cmd, id[2..]) else id[1..] <= cmd
  }

  /** `%%` and `%+`: the last stopped job, else the last running one. */
  function Current(rows: seq<Row>): Option<nat> {
    var stopped := LastWith(rows, TASK_STATUS_STOPPED, |rows|);
    if stopped.Some? then stopped else LastWith(rows, TASK_STATUS_WAIT, |rows|)
  }

  /** `%-`: the last stopped job but one, else the last running one but one. */
  function Previous(rows: seq<Row>): Option<nat> {
    var stopped := LastButOneWith(rows, TASK_STATUS_STOPPED);
    if stopped.Some? then stopped else LastButOneWith(rows, TASK_STATUS_WAIT)
  }

  function FindJob(rows: seq<Row>, id: string): Option<nat> {
    if |id| < 2 || id[0] != '%' then None
    else if id == "%%" || id == "%+" then Current(rows)
    else if id == "%-" then Previous(rows)
    else if IsDigit(id[1]) then
      if exists c <- id[1..] :: !IsDigit(c) then None
      else FirstWhere(rows, (r: Row) => r.id == ToInt(Strtol(id[1..])))
    else FirstWhere(rows, (r: Row) => Names(id, r.cmd))
  }

  function Named(jobs: seq<Job>, i: Option<nat>): Job? {
    if i.Some? && i.value < |jobs| then jobs[i.value] else null
  }

  /** In any table, `%+` and `%-` never name the same job. */
  lemma CurrentIsNotPrevious(rows: seq<Row>)
    ensures FindJob(rows, "%+").Some? ==> FindJob(rows, "%+") != FindJob(rows, "%-")
    ensures FindJob(rows, "%-").Some? ==> FindJob(rows, "%+").Some?
  {
  }

  /** Job `i` is the last one with a status. */
  predicate IsLast(rows: seq<Row>, status: int, i: nat) {
    i < |rows| && rows[i].status == status && forall k :: i < k < |rows| ==> rows[k].status != status
  }

  /** Job `i` has a status, and exactly one job after it has. */
  ghost predicate IsLastButOne(rows: seq<Row>, status: int, i: nat) {
    i < |rows| && rows[i].status == status
    && exists j :: i < j && IsLast(rows, status, j) && forall k :: i < k < j ==> rows[k].status != status
  }

  /** `%%` and `%+` name the last stopped job, or if none is stopped the last running one. */
  lemma CurrentIff(rows: seq<Row>, i: nat)
    ensures FindJob(rows, "%%") == FindJob(rows, "%+")
    ensures FindJob(rows, "%+") == Some(i) <==>
      if exists k :: 0 <= k < |rows| && rows[k].status == TASK_STATUS_STOPPED
      then IsLast(rows, TASK_STATUS_STOPPED, i)
      else IsLast(rows, TASK_STATUS_WAIT, i)
  {
    LastIff(rows, TASK_STATUS_STOPPED, i);
    LastIff(rows, TASK_STATUS_WAIT, i);
  }

  lemma LastIff(rows: seq<Row>, status: int, i: nat)
    ensures LastWith(rows, status, |rows|) == Some(i) <==> IsLast(rows, status, i)
  {
    var last := LastWith(rows, status, |rows|);
    if last.Some? && IsLast(rows, status, i) {
      assert !(i < last.value) && !(last.value < i);
    }
  }

  lemma LastButOneIff(rows: seq<Row>, status: int, i: nat)
    ensures LastButOneWith(rows, status) == Some(i) <==> IsLastButOne(rows, status, i)
  {
    var last := LastWith(rows, status, |rows|);
    if last.Some? {
      LastIff(rows, status, last.value);
      var r := LastWith(rows, status, last.value);
      if r == Some(i) {
        assert i < last.value && IsLast(rows, status, last.value);
      }
      if IsLastButOne(rows, status, i) {
        var j :| i < j && IsLast(rows, status, j) && forall k :: i < k < j ==> rows[k].status != status;
        LastIff(rows, status, j);
        assert r.Some? && !(i < r.value) && !(r.value < i);
      }
    } else if IsLastButOne(rows, status, i) {
      assert false;
    }
  }

  /** `%-` names the last stopped job but one, or if there is none the last running one but one. */
  lemma PreviousIff(rows: seq<Row>, i: nat)
    ensures FindJob(rows, "%-") == Some(i) <==>
      if exists k :: IsLastButOne(rows, TASK_STATUS_STOPPED, k)
      then IsLastButOne(rows, TASK_STATUS_STOPPED, i)
      else IsLastButOne(rows, TASK_STATUS_WAIT, i)
  {
    LastButOneIff(rows, TASK_STATUS_STOPPED, i);
    LastButOneIff(rows, TASK_STATUS_WAIT, i);
    forall k: nat ensures IsLastButOne(rows, TASK_STATUS_STOPPED, k) <==> LastButOneWith(rows, TASK_STATUS_STOPPED) == Some(k) {
      LastButOneIff(rows, TASK_STATUS_STOPPED, k);
    }
    hide LastButOneWith, IsLastButOne;
    var stopped := LastButOneWith(rows, TASK_STATUS_STOPPED);
    assert stopped.Some? ==> IsLastButOne(rows, TASK_STATUS_STOPPED, stopped.value);
  }

  lemma {:induction false} ContainsIff(s: string, part: string)
    ensures Contains(s, part) <==> exists k :: 0 <= k <= |s| && part <= s[k..]
  {
    assert s[0..] == s;
    if s != "" {
      ContainsIff(s[1..], part);
      if Contains(s[1..], part) {
        var k :| 0 <= k <= |s[1..]| && part <= s[1..][k..];
        assert s[1..][k..] == s[k + 1..];
      }
      if k :| 0 < k <= |s| && part <= s[k..] {
        assert s[1..][k - 1..] == s[k..];
      }
    }
  }

  /** Job `i` is the first one whose command meets the condition. */
  predicate IsFirst(rows: seq<Row>, p: string -> bool, i: nat) {
    i < |rows| && p(rows[i].cmd) && forall k :: 0 <= k < i ==> !p(rows[k].cmd)
  }

  /** `%text` names the first job whose command starts with the text. */
  lemma PrefixNamesFirst(rows: seq<Row>, text: string, i: nat)
    requires text != "" && text[0] !in "0123456789?" && text != "%" && text != "+" && text != "-"
    ensures FindJob(rows, "%" + text) == Some(i) <==> IsFirst(rows, (cmd: string) => text <= cmd, i)
  {
    var id := "%" + text;
    assert id[1..] == text && id[1] == text[0];
    var found := FirstWhere(rows, (r: Row) => Names(id, r.cmd));
    assert FindJob(rows, id) == found;
  }

  /** `%?text` names the first job whose command contains the text. */
  lemma PartNamesFirst(rows: seq<Row>, text: string, i: nat)
    ensures FindJob(rows, "%?" + text) == Some(i)
      <==> i < |rows| && HasPart(rows[i].cmd, text) && forall k :: 0 <= k < i ==> !HasPart(rows[k].cmd, text)
  {
    var id := "%?" + text;
    assert id[2..] == text && id[1] == '?';
    forall k | 0 <= k < |rows| ensures Names(id, rows[k].cmd) <==> HasPart(rows[k].cmd, text) {
      ContainsIff(rows[k].cmd, text);
    }
    hide Contains, HasPart;
    var found := FirstWhere(rows, (r: Row) => Names(id, r.cmd));
    assert FindJob(rows, id) == found;
  }

  ghost predicate HasPart(s: string, part: string) {
    exists k :: 0 <= k <= |s| && part <= s[k..]
  }

  predicate IsNumber(id: string) {
    |id| >= 2 && id[0] == '%' && forall c <- id[1..] :: IsDigit(c)
  }

  /** When ids increase along the table, a number finds the one job whose id it is as an `int`, or nothing. */
  lemma NumberNamesOneJob(rows: seq<Row>, id: string, k: nat)
    requires forall i, j :: 0 <= i < j < |rows| ==> rows[i].id < rows[j].id
    requires IsNumber(id) && k < |rows|
    ensures FindJob(rows, id) == Some(k) <==> rows[k].id == ToInt(Strtol(id[1..]))
  {
    assert IsDigit(id[1]) by {
      assert id[1] == id[1..][0];
    }
    var n := ToInt(Strtol(id[1..]));
    var found := FirstWhere(rows, (r: Row) => r.id == n);
    assert FindJob(rows, id) == found;
    if found.Some? && rows[k].id == n {
      assert !(found.value < k) && !(k < found.value);
    }
  }

  /** A number names a job with another id exactly when it does not fit an `int`. */
  lemma NumberNamesAnotherJobIff(rows: seq<Row>, id: string, k: nat)
    requires forall i, j :: 0 <= i < j < |rows| ==> rows[i].id < rows[j].id
    requires IsNumber(id) && FindJob(rows, id) == Some(k) && k < |rows|
    ensures rows[k].id != Strtol(id[1..]) <==> Strtol(id[1..]) >= 0x8000_0000
  {
    NumberNamesOneJob(rows, id, k);
  }

  /** The number 2^32 + 1 names job 1. */
  lemma LargeNumberNamesJobOne(status: int, cmd: string)
    ensures FindJob([Row(1, status, cmd)], "%4294967297") == Some(0)
  {
    var id := "%4294967297";
    assert id[1..] == "4294967297";
    LargeNumber();
    hide Strtol;
    NumberNamesOneJob([Row(1, status, cmd)], id, 0);
  }

  lemma LargeNumber()
    ensures Strtol("4294967297") == 4294967297
  {
    var digits := "4294967297";
    var values := [0, 4, 42, 429, 4294, 42949, 429496, 4294967, 42949672, 429496729, 4294967297];
    for i := 0 to |digits|
      invariant Strtol(digits[..i]) == values[i]
    {
      assert digits[..i + 1][..i] == digits[..i];
    }
    assert digits[..|digits|] == digits;
  }

  // -----------------------------------------------------------------------
  // Reports.

  ghost function StatesOf(ps: seq<Process>): map<Process, State>
    reads ps
  {
    map p | p in ps :: p.Now()
  }

  twostate lemma StatesKept(ps: seq<Process>)
    requires forall p <- ps ::
      p.stopped == old(p.stopped) && p.terminated == old(p.terminated) && p.stat == old(p.stat) && p.signal == old(p.signal)
    ensures StatesOf(ps) == old(StatesOf(ps))
  {
  }

  /** The first process with a pid. */
  function FirstWith(ps: seq<Process>, pid: int): (p: Process?)
    ensures p == null ==> forall q <- ps :: q.pid != pid
    ensures p != null ==> p in ps && p.pid == pid
  {
    if ps == [] then null else if ps[0].pid == pid then ps[0] else FirstWith(ps[1..], pid)
  }

  /** A report that a process was stopped says nothing of its end, and the other way round. */
  function Noted(s: State, status: WaitStatus): State {
    if status.Stopped? then State(true, s.terminated, s.stat, status.signal) else State(s.stopped, true, status, s.signal)
  }

  /** A report is about the first process with the pid, if there is one. */
  ghost function Record(ps: seq<Process>, states: map<Process, State>, pid: int, status: WaitStatus): map<Process, State> {
    var p := FirstWith(ps, pid);
    if p != null && p in states then states[p := Noted(states[p], status)] else states
  }

  ghost function Told(ps: seq<Process>, states: map<Process, State>, a: Answer): map<Process, State> {
    if a.result.Report? then Record(ps, states, a.pid, a.result.status) else states
  }

  /** The states after any number of answers. */
  ghost function Replay(ps: seq<Process>, states: map<Process, State>, answers: seq<Answer>): map<Process, State> {
    if answers == [] then states else Told(ps, Replay(ps, states, answers[..|answers| - 1]), answers[|answers| - 1])
  }

  lemma ReplayNext(ps: seq<Process>, states: map<Process, State>, answers: seq<Answer>, a: Answer)
    ensures Replay(ps, states, answers + [a]) == Told(ps, Replay(ps, states, answers), a)
  {
    assert (answers + [a])[..|answers|] == answers;
  }

  /** The end of a process that was reported last. */
  function LastExit(answers: seq<Answer>, pid: int): Option<WaitStatus> {
    if answers == [] then None
    else
      var a := answers[|answers| - 1];
      if a.pid == pid && a.result.Report? && !a.result.status.Stopped? then Some(a.result.status)
      else LastExit(answers[..|answers| - 1], pid)
  }

  predicate WasStopped(answers: seq<Answer>, pid: int) {
    exists a <- answers :: a.pid == pid && a.result.Report? && a.result.status.Stopped?
  }

  lemma WasStoppedNext(answers: seq<Answer>, a: Answer, pid: int)
    ensures WasStopped(answers + [a], pid)
      <==> WasStopped(answers, pid) || (a.pid == pid && a.result.Report? && a.result.status.Stopped?)
  {
    assert forall b :: b in answers + [a] <==> b in answers || b == a;
  }

  /**
   * The first process with its pid is stopped if it was or a stop was reported, and terminated,
   * with the status reported last, if an end was reported.
   */
  lemma {:induction false} ReplayMeans(ps: seq<Process>, states: map<Process, State>, answers: seq<Answer>, p: Process)
    requires p in states && FirstWith(ps, p.pid) == p
    ensures p in Replay(ps, states, answers)
    ensures var s, exit := Replay(ps, states, answers)[p], LastExit(answers, p.pid);
      && s.stopped == (states[p].stopped || WasStopped(answers, p.pid))
      && s.terminated == (states[p].terminated || exit.Some?)
      && s.stat == (if exit.Some? then exit.value else states[p].stat)
  {
    if answers != [] {
      var front, a := answers[..|answers| - 1], answers[|answers| - 1];
      assert answers == front + [a];
      ReplayMeans(ps, states, front, p);
      WasStoppedNext(front, a, p.pid);
    }
  }

  /** Reports start no process, and let no stopped one go on. */
  ghost predicate NoneStarted(before: map<Process, State>, after: map<Process, State>) {
    && after.Keys == before.Keys
    && forall p <- after ::
      (after[p].Poll() == TASK_STATUS_WAIT ==> before[p].Poll() == TASK_STATUS_WAIT)
      && (before[p].Poll() == TASK_STATUS_STOPPED ==> after[p].Poll() == TASK_STATUS_STOPPED)
  }

  /** A report changes only processes with that pid. */
  ghost predicate Reported(before: map<Process, State>, after: map<Process, State>, pid: int) {
    NoneStarted(before, after) && forall p <- after :: p.pid != pid ==> after[p] == before[p]
  }

  lemma RecordReports(ps: seq<Process>, states: map<Process, State>, pid: int, status: WaitStatus)
    ensures Reported(states, Record(ps, states, pid, status), pid)
    ensures var p := FirstWith(ps, pid);
      p != null && p in states ==> Record(ps, states, pid, status)[p].Poll() != TASK_STATUS_WAIT
  {
  }

  lemma {:induction false} ReplayStartsNone(ps: seq<Process>, states: map<Process, State>, answers: seq<Answer>)
    ensures NoneStarted(states, Replay(ps, states, answers))
  {
    if answers != [] {
      var front, a := answers[..|answers| - 1], answers[|answers| - 1];
      ReplayStartsNone(ps, states, front);
      var before := Replay(ps, states, front);
      if a.result.Report? {
        RecordReports(ps, before, a.pid, a.result.status);
      }
      hide Replay, Record;
      assert forall p <- Replay(ps, states, answers) :: p in before.Keys;
    }
  }

  /** The answers that came after the first `n`. */
  function Since(answers: seq<Answer>, n: nat): seq<Answer> {
    if n <= |answers| then answers[n..] else []
  }

  /** One more call of `waitpid` was made. */
  ghost predicate OneMore(before: seq<Answer>, after: seq<Answer>, pid: int, noHang: bool, untraced: bool) {
    && |after| == |before| + 1 && before <= after
    && var a := after[|before|]; a.pid == pid && a.noHang == noHang && a.untraced == untraced
  }

  predicate SomeReport(answers: seq<Answer>) {
    exists a <- answers :: a.result.Report?
  }

  lemma SomeReportNext(answers: seq<Answer>, a: Answer)
    ensures SomeReport(answers + [a]) <==> SomeReport(answers) || a.result.Report?
  {
    assert forall b :: b in answers + [a] <==> b in answers || b == a;
  }

  lemma SinceNext(before: seq<Answer>, after: seq<Answer>, n: nat)
    requires n <= |before| && |after| == |before| + 1 && before <= after
    ensures Since(after, n) == Since(before, n) + [after[|before|]]
  {
  }

  class Shell {
    var processes: seq<Process>
    var jobs: seq<Job>
    var foregroundJob: Job?
    const jobControl: bool
    const pgid: int
    const child: bool           // not the main shell process
    const kernel: Kernel
    ghost var termOwner: int    // the process group in the foreground of the terminal

    /** Job ids are positive and strictly increasing along the array. */
    ghost predicate Numbered()
      reads this
    {
      && (forall i :: 0 <= i < |jobs| ==> jobs[i].jobId >= 1)
      && (forall i, j :: 0 <= i < j < |jobs| ==> jobs[i].jobId < jobs[j].jobId)
    }

    /** The processes of jobs are registered ones, of one job each; a job with processes has a process group. */
    ghost predicate Owned()
      reads this, jobs, processes
    {
      && NoDuplicates(processes)
      && (forall p <- processes :: p.pid > 0)
      && (forall j <- jobs :: forall p <- j.processes :: p in processes && p.owner == j)
      && (forall j <- jobs :: j.processes != [] ==> j.pgid > 0)
    }

    /** The foreground job is a job with a process group, and its group owns the terminal; else the shell's does. */
    ghost predicate Terminal()
      reads this, jobs
    {
      if !jobControl then foregroundJob == null
      else if foregroundJob == null then termOwner == pgid
      else foregroundJob in jobs && foregroundJob.pgid > 0 && termOwner == foregroundJob.pgid
    }

    ghost predicate Valid()
      reads this, jobs, processes
    {
      Numbered() && Owned() && Terminal()
    }

    /** No two registered processes have the same pid. */
    predicate DistinctPids()
      reads this
    {
      forall i, j :: 0 <= i < j < |processes| ==> processes[i].pid != processes[j].pid
    }

    constructor (jobControl: bool, pgid: int, child: bool, kernel: Kernel)
      ensures Valid() && jobs == [] && processes == [] && foregroundJob == null && termOwner == pgid
      ensures this.jobControl == jobControl && this.pgid == pgid && this.child == child && this.kernel == kernel
    {
      processes, jobs, foregroundJob := [], [], null;
      this.jobControl, this.pgid, this.child, this.kernel := jobControl, pgid, child, kernel;
      termOwner := pgid;
    }

    /** `process_create` */
    method ProcessCreate(pid: int) returns (p: Process)
      requires Valid() && pid > 0
      modifies this`processes
      ensures Valid() && fresh(p) && p.pid == pid && p.Now() == NEW && p.owner == null
      ensures processes == old(processes) + [p] && jobs == old(jobs) && foregroundJob == old(foregroundJob)
    {
      p := new Process(pid);
      NoDuplicatesConcat(processes, [p]);
      processes := processes + [p];
    }

    /** `process_destroy`: the process leaves the table, the others keep their order. */
    method ProcessDestroy(p: Process)
      requires NoDuplicates(processes)
      modifies this`processes
      ensures processes == Minus(old(processes), {p}) && NoDuplicates(processes)
    {
      MinusKeepsDistinct(processes, {p});
      for i := 0 to |processes|
        invariant processes == old(processes) && p !in processes[..i]
      {
        if processes[i] == p {
          RemoveAtIsMinus(processes, i);
          processes := processes[..i] + processes[i + 1..];
          return;
        }
      }
      MinusNothing(processes, {p});
    }

    method NextJobId() returns (id: int)
      requires Numbered()
      ensures id == if jobs == [] then 1 else jobs[|jobs| - 1].jobId + 1
      ensures id >= 1 && forall j <- jobs :: j.jobId < id
    {
      id := 1;
      for i := 0 to |jobs|
        invariant id == if i == 0 then 1 else jobs[i - 1].jobId + 1
      {
        if id < jobs[i].jobId + 1 {
          id := jobs[i].jobId + 1;
        }
      }
    }

    /** `job_create`: one more than the largest id in use. */
    method JobCreate(cmd: string) returns (job: Job)
      requires Valid()
      modifies this`jobs
      ensures Valid() && fresh(job) && job.cmd == cmd && job.processes == [] && job.pgid == -1
      ensures jobs == old(jobs) + [job] && processes == old(processes) && foregroundJob == old(foregroundJob)
      ensures job.jobId == if old(jobs) == [] then 1 else old(jobs)[|old(jobs)| - 1].jobId + 1
      ensures !job.pendingNotification && job.lastStatus == TASK_STATUS_WAIT
    {
      var id := NextJobId();
      job := new Job(id, cmd);
      jobs := jobs + [job];
    }

    /** `job_add_process`; `setpgid` may fail, and then the job keeps its processes. */
    method JobAddProcess(job: Job, p: Process, setpgidOk: bool)
      requires Valid() && job in jobs && p in processes && p.owner == null
      modifies job`pgid, job`processes, p`owner
      ensures Valid()
      ensures job.pgid == if old(job.pgid) <= 0 then p.pid else old(job.pgid)
      ensures job.processes == old(job.processes) + if setpgidOk then [p] else []
    {
      hide Valid;
      if job.pgid <= 0 {
        job.pgid := p.pid;
      }
      GroupKept(job, p);
      if !setpgidOk {
        return;
      }
      label grouped:
      job.processes := job.processes + [p];
      p.owner := job;
      MemberKept@grouped(p, job);
    }

    /** A job without a group gets that of a process; then it is not in the foreground. */
    twostate lemma GroupKept(job: Job, new p: Process)
      requires old(Valid()) && job in jobs && p in processes
      requires jobs == old(jobs) && processes == old(processes) && foregroundJob == old(foregroundJob) && termOwner == old(termOwner)
      requires forall j <- jobs :: j.processes == old(j.processes) && (j != job ==> j.pgid == old(j.pgid))
      requires job.pgid == if old(job.pgid) <= 0 then p.pid else old(job.pgid)
      requires forall q <- processes :: q.owner == old(q.owner)
      ensures Valid() && job.pgid > 0
    {
      hide NoDuplicates;
      assert job == foregroundJob && jobControl ==> old(job.pgid) > 0;
    }

    twostate lemma MemberKept(p: Process, new job: Job)
      requires old(Valid()) && p in processes && old(p.owner) == null && p.owner == job && job.pgid > 0
      requires jobs == old(jobs) && job in jobs && processes == old(processes) && foregroundJob == old(foregroundJob) && termOwner == old(termOwner)
      requires forall j <- jobs :: j.pgid == old(j.pgid) && (j != job ==> j.processes == old(j.processes))
      requires job.processes == old(job.processes) + [p]
      requires forall q <- processes :: q != p ==> q.owner == old(q.owner)
      ensures Valid()
    {
      hide NoDuplicates;
    }

    /** `job_queue_notification` */
    method JobQueueNotification(job: Job)
      requires Valid() && job in jobs
      modifies job`pendingNotification, job`lastStatus
      ensures Valid() && job.lastStatus == job.Status()
      ensures job.pendingNotification ==
        (old(job.pendingNotification)
         || (job.Status() != old(job.lastStatus) && job.pgid > 0 && foregroundJob != job))
    {
      hide Shell.Valid, Shell.Owned, Shell.Numbered, Shell.Terminal, StatusOf, Job.Polls;
      var status := job.JobPoll();
      if status != job.lastStatus && job.pgid > 0 && foregroundJob != job {
        job.pendingNotification := true;
      }
      job.lastStatus := status;
      ValidKept();
    }

    /** Notifications and the flags of processes are no part of validity. */
    twostate lemma ValidKept()
      requires old(Valid()) && jobs == old(jobs) && processes == old(processes)
      requires foregroundJob == old(foregroundJob) && termOwner == old(termOwner)
      requires forall j <- jobs :: j.processes == old(j.processes) && j.pgid == old(j.pgid)
      requires forall p <- processes :: p.owner == old(p.owner)
      ensures Valid()
    {
    }

    /** Gives the terminal to the job, or takes it back to the shell. */
    method HandTerminal(job: Job, foreground: bool)
      requires Valid() && jobControl && job in jobs && job.pgid > 0
      requires foreground ==> foregroundJob == null || foregroundJob == job
      modifies this`foregroundJob, this`termOwner
      ensures Valid()
      ensures foregroundJob == if foreground then job else if old(foregroundJob) == job then null else old(foregroundJob)
    {
      if foreground && foregroundJob != job {
        termOwner := job.pgid;
        foregroundJob := job;
      }
      if !foreground && foregroundJob == job {
        termOwner := pgid;
        foregroundJob := null;
      }
    }

    /** None of the job's processes is stopped any more. */
    method ContinueProcesses(job: Job)
      requires Valid() && job in jobs
      modifies processes`stopped
      ensures Valid()
      ensures forall p <- processes :: p.stopped == (old(p.stopped) && p !in job.processes)
    {
      for i := 0 to |job.processes|
        invariant Valid()
        invariant forall p <- processes :: p.stopped == (old(p.stopped) && p !in job.processes[..i])
      {
        assert job.processes[i] in job.processes;
        job.processes[i].stopped := false;
        assert job.processes[..i + 1] == job.processes[..i] + [job.processes[i]];
      }
      assert job.processes[..|job.processes|] == job.processes;
    }

    /** Only a stopped job is continued. */
    predicate Continues(job: Job, cont: bool)
      reads this, job, job.processes
    {
      jobControl && cont && job.Status() == TASK_STATUS_STOPPED
    }

    /**
     * `job_set_foreground`: moves the job to or from the foreground, and continues it if it is
     * stopped and `cont` is set. No other job may be in the foreground when one is put there.
     */
    method JobSetForeground(job: Job, foreground: bool, cont: bool, killOk: bool) returns (ok: bool)
      requires Valid() && job in jobs && job.pgid > 0
      requires jobControl && foreground ==> foregroundJob == null || foregroundJob == job
      modifies this`foregroundJob, this`termOwner, job`pendingNotification, job`lastStatus
      modifies (if cont then processes else [])`stopped
      ensures Valid()
      ensures ok == (jobControl && (old(Continues(job, cont)) ==> killOk))
      ensures forall p <- processes ::
        p.stopped == (old(p.stopped) && !(killOk && old(Continues(job, cont)) && p in job.processes))
      ensures foregroundJob ==
        if !jobControl then old(foregroundJob)
        else if foreground then job
        else if old(foregroundJob) == job then null else old(foregroundJob)
      ensures if ok
        then job.lastStatus == job.Status()
             && job.pendingNotification
                == (old(job.pendingNotification) || (job.Status() != old(job.lastStatus) && foregroundJob != job))
        else job.lastStatus == old(job.lastStatus) && job.pendingNotification == old(job.pendingNotification)
    {
      hide Shell.Owned, Shell.Numbered, StatusOf, Job.Polls;
      if !jobControl {
        return false;
      }
      var continues := cont;
      var status := job.JobPoll();
      if status != TASK_STATUS_STOPPED {
        continues := false;
      }
      assert continues == old(Continues(job, cont));
      HandTerminal(job, foreground);
      if continues {
        if !killOk {
          return false;
        }
        ContinueProcesses(job);
      }
      JobQueueNotification(job);
      return true;
    }

    // ---------------------------------------------------------------------
    // Status changes.

    ghost function States(): map<Process, State>
      reads this, processes
    {
      StatesOf(processes)
    }

    /** `update_process`: the first process with the pid, if any, takes the reported status. */
    method UpdateProcess(pid: int, status: WaitStatus)
      requires Valid()
      modifies processes`stopped, processes`terminated, processes`stat, processes`signal
      ensures Valid()
      ensures States() == Record(processes, old(States()), pid, status)
    {
      hide Shell.Valid;
      for i := 0 to |processes|
        invariant FirstWith(processes, pid) == FirstWith(processes[i..], pid)
      {
        var p := processes[i];
        assert processes[i..][0] == p && processes[i..][1..] == processes[i + 1..];
        if p.pid == pid {
          if status.Stopped? {
            p.stopped := true;
            p.signal := status.signal;
          } else {
            p.terminated := true;
            p.stat := status;
          }
          ValidKept();
          StateNoted(processes, p, status);
          return;
        }
      }
      ValidKept();
    }

    /** One process has taken the status. */
    twostate lemma StateNoted(ps: seq<Process>, new p: Process, new status: WaitStatus)
      requires p in ps && p.Now() == Noted(old(p.Now()), status)
      requires forall q <- ps :: q != p ==> q.Now() == old(q.Now())
      ensures StatesOf(ps) == old(StatesOf(ps))[p := Noted(old(p.Now()), status)]
    {
    }

    /**
     * `update_job`: the process takes the status; then a foreground job that no longer runs has
     * left the foreground, and every job that does not run has its status recorded and a
     * notification due if that is news.
     */
    method UpdateJob(pid: int, status: WaitStatus)
      requires Valid()
      modifies this`foregroundJob, this`termOwner, jobs`pendingNotification, jobs`lastStatus
      modifies processes`stopped, processes`terminated, processes`stat, processes`signal
      ensures Valid()
      ensures States() == Record(processes, old(States()), pid, status)
      ensures !jobControl ==> foregroundJob == old(foregroundJob)
      ensures jobControl ==>
        foregroundJob == (var job := old(foregroundJob); if job != null && job.Status() == TASK_STATUS_WAIT then job else null)
      ensures jobControl ==> forall k :: 0 <= k < |jobs| ==>
        jobs[k].Notified(old(jobs[k].lastStatus), old(jobs[k].pendingNotification), old(foregroundJob) == jobs[k])
      ensures !jobControl ==> forall k :: 0 <= k < |jobs| ==>
        jobs[k].lastStatus == old(jobs[k].lastStatus) && jobs[k].pendingNotification == old(jobs[k].pendingNotification)
    {
      hide Shell.Owned, Shell.Numbered, StatusOf, Job.Polls, Record;
      ghost var fg := foregroundJob;
      UpdateProcess(pid, status);
      if jobControl {
        label reported:
        BackgroundNotRunning();
        if fg != null {
          SameStatus@reported(fg);
        }
      }
    }

    /** With distinct pids every process is the first one with its pid. */
    lemma FirstIsOnly(p: Process)
      requires DistinctPids() && p in processes
      ensures FirstWith(processes, p.pid) == p
    {
      var q := FirstWith(processes, p.pid);
      assert q != null;
      var i :| 0 <= i < |processes| && processes[i] == p;
      var j :| 0 <= j < |processes| && processes[j] == q;
    }

    /** Is there a foreground job, and does it run? */
    ghost predicate ForegroundRuns()
      reads this, jobs, processes, foregroundJob, if foregroundJob == null then [] else foregroundJob.processes
    {
      foregroundJob != null && foregroundJob.Status() == TASK_STATUS_WAIT
    }

    /** The loop of `update_job` over the jobs. */
    method BackgroundNotRunning()
      requires Valid() && jobControl
      modifies this`foregroundJob, this`termOwner, jobs`pendingNotification, jobs`lastStatus
      ensures Valid() && States() == old(States())
      ensures foregroundJob == if old(ForegroundRuns()) then old(foregroundJob) else null
      ensures forall k :: 0 <= k < |jobs| ==>
        jobs[k].Notified(old(jobs[k].lastStatus), old(jobs[k].pendingNotification), old(foregroundJob) == jobs[k])
    {
      hide Shell.Valid, Job.Status, Job.Notified;
      ghost var fg, runs := foregroundJob, ForegroundRuns();
      JobsDiffer();
      for i := 0 to |jobs|
        invariant Valid() && States() == old(States())
        invariant foregroundJob == if fg != null && !runs && fg in jobs[..i] then null else fg
        invariant forall k :: i <= k < |jobs| ==>
          jobs[k].lastStatus == old(jobs[k].lastStatus) && jobs[k].pendingNotification == old(jobs[k].pendingNotification)
        invariant forall k :: 0 <= k < i ==>
          jobs[k].Notified(old(jobs[k].lastStatus), old(jobs[k].pendingNotification), fg == jobs[k])
      {
        SameStatus(jobs[i]);
        assert jobs[i] !in jobs[..i];
        BackgroundIfNotRunning(jobs[i]);
        assert jobs[..i + 1] == jobs[..i] + [jobs[i]];
      }
      assert jobs[..|jobs|] == jobs;
    }

    twostate lemma SameStatus(job: Job)
      requires old(Valid()) && Valid() && job in jobs && jobs == old(jobs) && job.processes == old(job.processes)
      requires States() == old(States())
      ensures job.Status() == old(job.Status())
    {
      assert job.Polls() == old(job.Polls()) by {
        forall i | 0 <= i < |job.processes| ensures job.Polls()[i] == old(job.Polls())[i] {
          assert job.processes[i] in job.processes && States()[job.processes[i]] == old(States())[job.processes[i]];
        }
      }
    }

    /** Only a job with processes can be stopped. */
    lemma StoppedHasGroup(job: Job)
      requires Valid() && job in jobs
      ensures job.Status() >= 0 || job.Status() == TASK_STATUS_WAIT || job.Status() == TASK_STATUS_STOPPED
      ensures job.Status() == TASK_STATUS_STOPPED ==> job.pgid > 0
    {
    }

    lemma JobsDiffer()
      requires Valid()
      ensures forall i, j :: 0 <= i < j < |jobs| ==> jobs[i] != jobs[j]
      ensures foregroundJob != null ==> foregroundJob in jobs
    {
      assert forall i, j :: 0 <= i < j < |jobs| ==> jobs[i].jobId < jobs[j].jobId;
    }

    /** One round of that loop. */
    method BackgroundIfNotRunning(job: Job)
      requires Valid() && jobControl && job in jobs
      modifies this`foregroundJob, this`termOwner, job`pendingNotification, job`lastStatus
      ensures Valid() && States() == old(States())
      ensures foregroundJob ==
        if old(foregroundJob) == job && old(job.Status()) != TASK_STATUS_WAIT then null else old(foregroundJob)
      ensures job.Notified(old(job.lastStatus), old(job.pendingNotification), old(foregroundJob) == job)
    {
      hide Shell.Owned, Shell.Numbered, StatusOf, Job.Polls;
      StoppedHasGroup(job);
      var status := job.JobPoll();
      if status >= 0 {
        JobQueueNotification(job);
        SameStatus(job);
      }
      if status != TASK_STATUS_WAIT && job.pgid > 0 {
        Background(job);
        SameStatus(job);
      }
    }

    /** `job_set_foreground(job, false, false)`: no process changes. */
    method Background(job: Job)
      requires Valid() && job in jobs && job.pgid > 0
      modifies this`foregroundJob, this`termOwner, job`pendingNotification, job`lastStatus
      ensures Valid() && States() == old(States())
      ensures foregroundJob == if jobControl && old(foregroundJob) == job then null else old(foregroundJob)
      ensures job.lastStatus == if jobControl then job.Status() else old(job.lastStatus)
      ensures job.pendingNotification == (old(job.pendingNotification) || (jobControl && job.Status() != old(job.lastStatus)))
    {
      hide Shell.Owned, Shell.Numbered;
      var _ := JobSetForeground(job, false, false, true);
    }

    // ---------------------------------------------------------------------
    // Waiting.

    /** `_job_wait`: one `waitpid` on a child, and the update it asks for. */
    method WaitForProcess(pid: int, noHang: bool) returns (ok: bool)
      requires Valid()
      modifies kernel, this`foregroundJob, this`termOwner, jobs`pendingNotification, jobs`lastStatus
      modifies processes`stopped, processes`terminated, processes`stat, processes`signal
      ensures Valid() && OneMore(old(kernel.answers), kernel.answers, pid, noHang, !child)
      ensures var a := kernel.answers[|old(kernel.answers)|];
        && States() == Told(processes, old(States()), a)
        && ok == (a.result != Failed)
        && (a.result == NoStatus ==> noHang)
        && (a.result.Report? && a.result.status.Stopped? ==> !child)
        && foregroundJob == (
          if jobControl && a.result.Report? && !RunsBy(old(foregroundJob), States()) then null else old(foregroundJob))
        && forall k :: 0 <= k < |jobs| ==>
          if jobControl && a.result.Report?
          then jobs[k].Notified(old(jobs[k].lastStatus), old(jobs[k].pendingNotification), old(foregroundJob) == jobs[k])
          else jobs[k].lastStatus == old(jobs[k].lastStatus) && jobs[k].pendingNotification == old(jobs[k].pendingNotification)
    {
      hide Shell.Owned, Shell.Numbered, Shell.Terminal, Record, Job.Status, Job.Notified;
      var r := kernel.WaitPid(pid, noHang, !child);
      match r
      case NoStatus => return true;
      case Failed => return false;
      case Report(status) =>
        ghost var fg := foregroundJob;
        ForegroundIsJob();
        UpdateJob(pid, status);
        if fg != null {
          RunsIs(fg);
        }
        return true;
    }

    /** Does a job run, by the states of its processes? */
    ghost predicate RunsBy(job: Job?, states: map<Process, State>)
      reads (if job == null then {} else {job})`processes
    {
      job != null && exists p <- job.processes :: p in states && states[p].Poll() == TASK_STATUS_WAIT
    }

    /** The foreground job after answers: a report takes it away if it does not run. */
    ghost function AfterReports(fg: Job?, states: map<Process, State>, answers: seq<Answer>): Job?
      reads (if fg == null then {} else {fg})`processes
    {
      if jobControl && SomeReport(answers) && !RunsBy(fg, states) then null else fg
    }

    lemma RunsIs(job: Job)
      requires Valid() && job in jobs
      ensures RunsBy(job, States()) <==> job.Status() == TASK_STATUS_WAIT
    {
      StatusMeans(job);
      assert forall p <- job.processes :: p in processes && States()[p] == p.Now();
      hide Job.Status, States;
    }

    /** One more answer, and what it did to the foreground. */
    lemma AfterNext(fg: Job?, now: Job?, next: Job?, before: map<Process, State>, after: map<Process, State>,
                    answers: seq<Answer>, a: Answer)
      requires after == Told(processes, before, a) && now == AfterReports(fg, before, answers)
      requires next == if jobControl && a.result.Report? && !RunsBy(now, after) then null else now
      ensures next == AfterReports(fg, after, answers + [a])
    {
      SomeReportNext(answers, a);
      RunsStillOnly(fg, before, after);
      ToldStartsNone(processes, before, a);
      assert !a.result.Report? ==> after == before;
      hide Told, SomeReport, NoneStarted;
    }

    /** A job that runs after an answer ran before. */
    lemma RunsStillOnly(job: Job?, before: map<Process, State>, after: map<Process, State>)
      ensures NoneStarted(before, after) && RunsBy(job, after) ==> RunsBy(job, before)
    {
      if NoneStarted(before, after) && RunsBy(job, after) {
        var p :| p in job.processes && p in after && after[p].Poll() == TASK_STATUS_WAIT;
        assert p in before.Keys;
      }
    }

    /** All these calls were blocking ones, about processes that were running; only the main shell asks for stopped ones. */
    ghost predicate AboutRunning(answers: seq<Answer>, ps: seq<Process>, states: map<Process, State>) {
      forall a <- answers :: !a.noHang && a.untraced == !child && exists p <- ps :: p.pid == a.pid && p in states && states[p].Poll() == TASK_STATUS_WAIT
    }

    /**
     * `job_wait`: terminates, since each round leaves one process of the job less running, and
     * reports the job's status unless `waitpid` fails: the status last reported of the end of its
     * last process, if no process is stopped.
     */
    method JobWait(job: Job) returns (status: int)
      requires Valid() && DistinctPids() && job in jobs
      modifies kernel, this`foregroundJob, this`termOwner, jobs`pendingNotification, jobs`lastStatus
      modifies processes`stopped, processes`terminated, processes`stat, processes`signal
      ensures Valid() && old(kernel.answers) <= kernel.answers
      ensures States() == Replay(processes, old(States()), Since(kernel.answers, |old(kernel.answers)|))
      ensures AboutRunning(Since(kernel.answers, |old(kernel.answers)|), job.processes, old(States()))
      ensures status != TASK_STATUS_WAIT
      ensures status == TASK_STATUS_ERROR || status == job.Status()
      ensures status == TASK_STATUS_ERROR <==>
        exists a <- Since(kernel.answers, |old(kernel.answers)|) :: a.result == Failed
      ensures status >= 0 ==> forall p <- job.processes :: p.terminated && !p.stopped
      ensures status >= 0 && job.processes != [] ==>
        var last := job.processes[|job.processes| - 1];
        var exit := LastExit(Since(kernel.answers, |old(kernel.answers)|), last.pid);
        && (exit.Some? || old(last.terminated))
        && status == ExitStatus(if exit.Some? then exit.value else old(last.stat))
      ensures status == TASK_STATUS_STOPPED ==>
        (exists p <- job.processes :: p.stopped) && forall p <- job.processes :: p.stopped || p.terminated
      ensures foregroundJob == AfterReports(old(foregroundJob), States(), Since(kernel.answers, |old(kernel.answers)|))
    {
      hide Shell.Valid, Shell.States, Job.Running, AboutRunning, StatusOf, Job.Status, Job.Polls, Replay, LastExit, AfterReports;
      ghost var start, n, fg := States(), |kernel.answers|, foregroundJob;
      NothingReported(fg);
      NothingHeard(processes, job.processes, start);
      StatesIs();
      assert Since(kernel.answers, n) == [];
      while true
        invariant Valid() && old(kernel.answers) <= kernel.answers
        invariant States() == Replay(processes, start, Since(kernel.answers, n))
        invariant AboutRunning(Since(kernel.answers, n), job.processes, start)
        invariant forall a <- Since(kernel.answers, n) :: a.result != Failed
        invariant foregroundJob == AfterReports(fg, States(), Since(kernel.answers, n))
        decreases job.Running()
      {
        status := job.JobPoll();
        if status != TASK_STATUS_WAIT {
          StatusMeans(job);
          StoppedHasGroup(job);
          LastExitIs(job, start, Since(kernel.answers, n));
          return;
        }
        ghost var before, answers := States(), kernel.answers;
        var ok := WaitForOne(job, start, Since(kernel.answers, n), fg);
        SinceNext(answers, kernel.answers, n);
        ReplayNext(processes, start, Since(answers, n), kernel.answers[|answers|]);
        if !ok {
          return TASK_STATUS_ERROR;
        }
      }
    }

    lemma ForegroundIsJob()
      requires Valid()
      ensures foregroundJob != null ==> foregroundJob in jobs
    {
    }

    lemma NothingReported(fg: Job?)
      ensures AfterReports(fg, States(), []) == fg
    {
    }

    lemma NothingHeard(ps: seq<Process>, own: seq<Process>, states: map<Process, State>)
      ensures Replay(ps, states, []) == states && AboutRunning([], own, states)
    {
    }

    /** The exit status of the last process, by the answers. */
    lemma LastExitIs(job: Job, start: map<Process, State>, news: seq<Answer>)
      requires Valid() && DistinctPids() && job in jobs
      requires start.Keys == SetOf(processes) && States() == Replay(processes, start, news)
      ensures job.Status() >= 0 && job.processes != [] ==>
        var last := job.processes[|job.processes| - 1];
        var exit := LastExit(news, last.pid);
        && last in start
        && (exit.Some? || start[last].terminated)
        && job.Status() == ExitStatus(if exit.Some? then exit.value else start[last].stat)
    {
      hide StatusOf, Job.Status, Job.Polls, Replay, LastExit;
      StatusMeans(job);
      if job.Status() >= 0 && job.processes != [] {
        var last := job.processes[|job.processes| - 1];
        assert last in job.processes && last in processes;
        FirstIsOnly(last);
        ReplayMeans(processes, start, news, last);
        assert States()[last] == last.Now();
      }
    }

    /** One round: waits for a running process of the job, which then runs no more. */
    method WaitForOne(job: Job, ghost start: map<Process, State>, ghost news: seq<Answer>, ghost fg: Job?) returns (ok: bool)
      requires Valid() && DistinctPids() && job in jobs && job.Status() == TASK_STATUS_WAIT
      requires States() == Replay(processes, start, news) && AboutRunning(news, job.processes, start)
      requires foregroundJob == AfterReports(fg, States(), news)
      modifies kernel, this`foregroundJob, this`termOwner, jobs`pendingNotification, jobs`lastStatus
      modifies processes`stopped, processes`terminated, processes`stat, processes`signal
      ensures Valid() && |kernel.answers| == |old(kernel.answers)| + 1 && old(kernel.answers) <= kernel.answers
      ensures var a := kernel.answers[|old(kernel.answers)|];
        States() == Told(processes, old(States()), a) && ok == (a.result != Failed)
        && AboutRunning(news + [a], job.processes, start)
        && foregroundJob == AfterReports(fg, States(), news + [a])
      ensures ok ==> job.Running() < old(job.Running())
    {
      hide Shell.Valid, Shell.States, Job.Running, AboutRunning, Reported, NoneStarted, StatusOf, Job.Status, Job.Polls, Replay, Record, Told,
        RunsBy, AfterReports, Job.Notified;
      var p := job.RunningProcess();
      if p == null {
        NoneRunning(job);
        assert false;
      }
      RunningByStates(job, p);
      FirstIsOnly(p);
      ghost var before := States();
      ok := WaitForProcess(p.pid, false);
      ghost var a := kernel.answers[|old(kernel.answers)|];
      RunningByStates(job, p);
      RanAtStart(processes, start, news, p);
      OneMoreAbout(news, a, p, job.processes, start);
      AfterNext(fg, old(foregroundJob), foregroundJob, before, States(), news, a);
      if ok {
        ToldStops(processes, before, a, p);
        FewerRunning(job.processes, p, before, States());
      }
    }

    lemma RanAtStart(ps: seq<Process>, start: map<Process, State>, news: seq<Answer>, p: Process)
      requires var now := Replay(ps, start, news); p in now && now[p].Poll() == TASK_STATUS_WAIT
      ensures p in start && start[p].Poll() == TASK_STATUS_WAIT
    {
      ReplayStartsNone(ps, start, news);
      hide Replay;
      assert p in Replay(ps, start, news).Keys;
    }

    lemma OneMoreAbout(news: seq<Answer>, a: Answer, p: Process, ps: seq<Process>, start: map<Process, State>)
      requires AboutRunning(news, ps, start) && !a.noHang && a.untraced == !child
      requires p in ps && p.pid == a.pid && p in start && start[p].Poll() == TASK_STATUS_WAIT
      ensures AboutRunning(news + [a], ps, start)
    {
    }

    /** An answer to a blocking call that did not fail stops or ends the process. */
    lemma ToldStops(ps: seq<Process>, states: map<Process, State>, a: Answer, p: Process)
      requires a.result.Report? && FirstWith(ps, a.pid) == p && p in states
      ensures Reported(states, Told(ps, states, a), a.pid)
      ensures p in Told(ps, states, a) && Told(ps, states, a)[p].Poll() != TASK_STATUS_WAIT
    {
      RecordReports(ps, states, a.pid, a.result.status);
    }

    lemma JobsDistinct()
      requires Valid()
      ensures NoDuplicates(jobs)
    {
      DistinctIds(jobs);
    }

    lemma NoneRunning(job: Job)
      requires job.Status() == TASK_STATUS_WAIT
      ensures job.Running() != {}
    {
      var i :| 0 <= i < |job.Polls()| && job.Polls()[i] == TASK_STATUS_WAIT;
      assert job.processes[i] in job.Running();
    }

    /** The running processes of a job, by the states of all; a running one is among them. */
    lemma RunningByStates(job: Job, p: Process)
      requires Valid() && job in jobs && p in job.processes
      ensures job.Running() == RunningIn(job.processes, States())
      ensures p in processes && p in States() && States()[p].Poll() == p.Poll()
    {
      assert forall q <- job.processes :: q in processes;
    }

    ghost function RunningIn(ps: seq<Process>, states: map<Process, State>): set<Process> {
      set q | q in ps && q in states && states[q].Poll() == TASK_STATUS_WAIT
    }

    lemma FewerRunning(ps: seq<Process>, p: Process, before: map<Process, State>, after: map<Process, State>)
      requires Reported(before, after, p.pid)
      requires p in RunningIn(ps, before) && p in after && after[p].Poll() != TASK_STATUS_WAIT
      ensures RunningIn(ps, after) < RunningIn(ps, before)
    {
      forall q | q in RunningIn(ps, after) ensures q in RunningIn(ps, before) {
        assert q in after.Keys;
      }
    }

    /** What the value of a job's status says about its processes. */
    lemma StatusMeans(job: Job)
      ensures job.Status() == TASK_STATUS_WAIT <==> exists p <- job.processes :: !p.stopped && !p.terminated
      ensures job.Status() == TASK_STATUS_STOPPED <==>
        (exists p <- job.processes :: p.stopped) && forall p <- job.processes :: p.stopped || p.terminated
      ensures job.Status() >= 0 <==> forall p <- job.processes :: p.terminated && !p.stopped
      ensures job.Status() >= 0 && job.processes != [] ==> job.Status() == job.processes[|job.processes| - 1].Poll()
    {
      var polls := job.Polls();
      forall p | p in job.processes ensures p.Poll() in polls {
        var i :| 0 <= i < |job.processes| && job.processes[i] == p;
        assert polls[i] == p.Poll();
      }
      forall x | x in polls ensures exists p <- job.processes :: p.Poll() == x {
        var i :| 0 <= i < |polls| && polls[i] == x;
        assert job.processes[i] in job.processes;
      }
    }

    /** All these calls were about running processes of these jobs, and did not block. */
    ghost predicate AboutJobs(answers: seq<Answer>, js: seq<Job>, states: map<Process, State>)
      reads js`processes
    {
      forall a <- answers :: a.noHang && a.untraced == !child
        && exists j, p :: j in js && p in j.processes && p.pid == a.pid && p in states && states[p].Poll() == TASK_STATUS_WAIT
    }

    /** Each answer is to a call that does not block, about one of these processes. */
    ghost predicate Asks(asked: seq<Process>, answers: seq<Answer>) {
      |asked| == |answers|
      && forall i :: 0 <= i < |asked| ==> answers[i].pid == asked[i].pid && answers[i].noHang && answers[i].untraced == !child
    }

    /**
     * `refresh_jobs_status`: asks for news of one running process of each job that has one, and
     * of no other process, until `waitpid` fails.
     */
    method RefreshJobsStatus() returns (ok: bool, ghost asked: seq<Process>)
      requires Valid()
      modifies kernel, this`foregroundJob, this`termOwner, jobs`pendingNotification, jobs`lastStatus
      modifies processes`stopped, processes`terminated, processes`stat, processes`signal
      ensures Valid() && old(kernel.answers) <= kernel.answers
      ensures foregroundJob == AfterReports(old(foregroundJob), States(), Since(kernel.answers, |old(kernel.answers)|))
      ensures States() == Replay(processes, old(States()), Since(kernel.answers, |old(kernel.answers)|))
      ensures Asks(asked, Since(kernel.answers, |old(kernel.answers)|))
      ensures AboutJobs(Since(kernel.answers, |old(kernel.answers)|), jobs, old(States()))
      ensures forall p <- asked :: p in old(States()) && old(States())[p].Poll() == TASK_STATUS_WAIT
      ensures forall i, j :: 0 <= i < j < |asked| ==> asked[i].owner != asked[j].owner
      ensures ok <==> forall a <- Since(kernel.answers, |old(kernel.answers)|) :: a.result != Failed
      ensures ok ==> forall k :: 0 <= k < |jobs| ==> Answered(jobs[k].processes, States(), asked)
    {
      hide Shell.Valid, Shell.States, Answered, Idle, Replay, Told, NoneStarted, Asks, AskedOf, AboutJobs, AfterReports;
      ghost var start, n, fg := States(), |kernel.answers|, foregroundJob;
      NothingReported(fg);
      asked := [];
      NothingAsked(start);
      assert Since(kernel.answers, n) == [];
      for i := 0 to |jobs|
        invariant Valid() && old(kernel.answers) <= kernel.answers
        invariant foregroundJob == AfterReports(fg, States(), Since(kernel.answers, n))
        invariant States() == Replay(processes, start, Since(kernel.answers, n))
        invariant Asks(asked, Since(kernel.answers, n))
        invariant forall a <- Since(kernel.answers, n) :: a.result != Failed
        invariant AskedOf(asked, start, jobs[..i])
        invariant forall k :: 0 <= k < i ==> Answered(jobs[k].processes, States(), asked)
      {
        ghost var now, was, answers := States(), asked, kernel.answers;
        ghost var p;
        ok, p := AskForNews(jobs[i], Since(answers, n), fg);
        if p != null {
          SinceNext(answers, kernel.answers, n);
          ReplayNext(processes, start, Since(answers, n), kernel.answers[|answers|]);
          asked := asked + [p];
          RanAtStart(processes, start, Since(answers, n), p);
          AskedOneMore(was, Since(answers, n), kernel.answers[|answers|], p, start, i);
          ToldStartsNone(processes, now, kernel.answers[|answers|]);
        } else {
          NothingStarted(now);
          AskedNoMore(asked, start, i);
        }
        AllAnsweredStill(i, now, States(), was, asked);
        AnsweredHere(jobs[i].processes, States(), asked, p);
        AskedMeans(asked, Since(kernel.answers, n), start, i + 1);
        if !ok {
          return;
        }
      }
      AskedMeans(asked, Since(kernel.answers, n), start, |jobs|);
      ok := true;
    }

    /** Processes that were running, each of another one of these jobs. */
    ghost predicate AskedOf(asked: seq<Process>, start: map<Process, State>, js: seq<Job>)
      reads asked`owner, js`processes
    {
      && (forall p <- asked :: p in start && start[p].Poll() == TASK_STATUS_WAIT && p.owner != null && p.owner in js)
      && (forall p <- asked :: exists j <- js :: p in j.processes)
      && forall i, j :: 0 <= i < j < |asked| ==> asked[i].owner != asked[j].owner
    }

    lemma NothingAsked(start: map<Process, State>)
      ensures Asks([], []) && AskedOf([], start, jobs[..0]) && Replay(processes, start, []) == start
    {
    }

    lemma AskedOneMore(asked: seq<Process>, answers: seq<Answer>, a: Answer, p: Process, start: map<Process, State>, i: nat)
      requires Valid() && i < |jobs| && Asks(asked, answers) && AskedOf(asked, start, jobs[..i])
      requires p in jobs[i].processes && a.pid == p.pid && a.noHang && a.untraced == !child
      requires p in start && start[p].Poll() == TASK_STATUS_WAIT
      ensures Asks(asked + [p], answers + [a]) && AskedOf(asked + [p], start, jobs[..i + 1])
    {
      hide Numbered, Terminal;
      assert jobs[i] in jobs && p.owner == jobs[i];
      JobsDiffer();
      assert jobs[..i + 1] == jobs[..i] + [jobs[i]];
      assert jobs[i] !in jobs[..i];
    }

    lemma AskedNoMore(asked: seq<Process>, start: map<Process, State>, i: nat)
      requires i < |jobs| && AskedOf(asked, start, jobs[..i])
      ensures AskedOf(asked, start, jobs[..i + 1])
    {
      assert jobs[..i + 1] == jobs[..i] + [jobs[i]];
    }

    lemma AskedMeans(asked: seq<Process>, answers: seq<Answer>, start: map<Process, State>, i: nat)
      requires i <= |jobs| && AskedOf(asked, start, jobs[..i]) && Asks(asked, answers)
      ensures forall p <- asked :: p in start && start[p].Poll() == TASK_STATUS_WAIT
      ensures forall i, j :: 0 <= i < j < |asked| ==> asked[i].owner != asked[j].owner
      ensures AboutJobs(answers, jobs, start)
    {
      forall a | a in answers
        ensures a.noHang && a.untraced == !child
        ensures exists j, p :: j in jobs && p in j.processes && p.pid == a.pid && p in start && start[p].Poll() == TASK_STATUS_WAIT
      {
        var k :| 0 <= k < |answers| && answers[k] == a;
        assert asked[k] in asked;
        var j :| j in jobs[..i] && asked[k] in j.processes;
        assert j in jobs;
      }
    }

    lemma AnsweredHere(ps: seq<Process>, states: map<Process, State>, asked: seq<Process>, p: Process?)
      requires if p == null then Idle(ps, states) else p in ps && p in asked
      ensures Answered(ps, states, asked)
    {
    }

    lemma NothingStarted(states: map<Process, State>)
      ensures NoneStarted(states, states)
    {
    }

    lemma ToldStartsNone(ps: seq<Process>, states: map<Process, State>, a: Answer)
      ensures NoneStarted(states, Told(ps, states, a))
    {
      if a.result.Report? {
        RecordReports(ps, states, a.pid, a.result.status);
      }
    }

    /** One round of that loop. */
    method AskForNews(job: Job, ghost news: seq<Answer>, ghost fg: Job?) returns (ok: bool, ghost asked: Process?)
      requires Valid() && job in jobs && foregroundJob == AfterReports(fg, States(), news)
      modifies kernel, this`foregroundJob, this`termOwner, jobs`pendingNotification, jobs`lastStatus
      modifies processes`stopped, processes`terminated, processes`stat, processes`signal
      ensures Valid()
      ensures asked == null ==> foregroundJob == AfterReports(fg, States(), news)
      ensures asked == null ==>
        ok && kernel.answers == old(kernel.answers) && States() == old(States()) && Idle(job.processes, States())
      ensures asked != null ==>
        && asked in job.processes && asked in old(States()) && old(States())[asked].Poll() == TASK_STATUS_WAIT
        && OneMore(old(kernel.answers), kernel.answers, asked.pid, true, !child)
        && var a := kernel.answers[|old(kernel.answers)|];
          States() == Told(processes, old(States()), a) && ok == (a.result != Failed)
          && foregroundJob == AfterReports(fg, States(), news + [a])
    {
      hide Shell.Valid, Told, AfterReports, RunsBy, Job.Notified, Job.Status;
      var p := job.RunningProcess();
      RunningIs(job);
      asked := p;
      if p == null {
        return true, null;
      }
      ok := WaitForProcess(p.pid, true);
      AfterNext(fg, old(foregroundJob), foregroundJob, old(States()), States(), news, kernel.answers[|old(kernel.answers)|]);
    }

    /** None of the processes runs, or one of them was asked for news. */
    ghost predicate Answered(ps: seq<Process>, states: map<Process, State>, asked: seq<Process>) {
      Idle(ps, states) || exists p <- ps :: p in asked
    }

    lemma AnsweredStill(ps: seq<Process>, before: map<Process, State>, after: map<Process, State>, a: seq<Process>, b: seq<Process>)
      requires Answered(ps, before, a) && NoneStarted(before, after) && forall p <- a :: p in b
      ensures Answered(ps, after, b)
    {
      if Idle(ps, before) {
        assert forall p <- ps :: p in after ==> p in before.Keys;
      }
    }

    lemma AllAnsweredStill(n: nat, before: map<Process, State>, after: map<Process, State>, a: seq<Process>, b: seq<Process>)
      requires n <= |jobs| && forall k :: 0 <= k < n ==> Answered(jobs[k].processes, before, a)
      requires NoneStarted(before, after) && forall p <- a :: p in b
      ensures forall k :: 0 <= k < n ==> Answered(jobs[k].processes, after, b)
    {
      hide Answered, NoneStarted;
      forall k | 0 <= k < n ensures Answered(jobs[k].processes, after, b) {
        AnsweredStill(jobs[k].processes, before, after, a, b);
      }
    }

    ghost predicate Idle(ps: seq<Process>, states: map<Process, State>) {
      forall p <- ps :: p in states ==> states[p].Poll() != TASK_STATUS_WAIT
    }

    /** The running processes of a job, by the states of all. */
    lemma RunningIs(job: Job)
      requires Valid() && job in jobs
      ensures job.Running() == {} <==> Idle(job.processes, States())
      ensures forall p <- job.Running() :: p in job.processes && p in processes && p.Poll() == TASK_STATUS_WAIT
    {
      assert forall p <- job.processes :: p in processes;
      if job.Running() == {} {
        forall p | p in job.processes ensures States()[p].Poll() != TASK_STATUS_WAIT {
          assert p !in job.Running();
        }
      }
    }

    // ---------------------------------------------------------------------
    // Looking jobs up.

    /** The last job with a status among the first `n`. */
    method LastJob(status: int, n: nat, ghost rows: seq<Row>) returns (i: Option<nat>)
      requires |rows| == |jobs| && n <= |jobs|
      requires forall k :: 0 <= k < |jobs| ==> rows[k].status == jobs[k].Status()
      ensures i == LastWith(rows, status, n)
    {
      hide StatusOf, Job.Status, Job.Polls;
      var k: int := n;
      while k > 0
        invariant 0 <= k <= n && LastWith(rows, status, k) == LastWith(rows, status, n)
      {
        var s := jobs[k - 1].JobPoll();
        if s == status {
          return Some(k - 1);
        }
        k := k - 1;
      }
      return None;
    }

    /** `%%`, `%+` and `%-` */
    method RecentJob(previous: bool, ghost rows: seq<Row>) returns (i: Option<nat>)
      requires |rows| == |jobs|
      requires forall k :: 0 <= k < |jobs| ==> rows[k].status == jobs[k].Status()
      ensures i == if previous then Previous(rows) else Current(rows)
    {
      hide StatusOf, Job.Status, Job.Polls;
      i := LastJob(TASK_STATUS_STOPPED, |jobs|, rows);
      if previous && i.Some? {
        i := LastJob(TASK_STATUS_STOPPED, i.value, rows);
      }
      if i.None? {
        i := LastJob(TASK_STATUS_WAIT, |jobs|, rows);
        if previous && i.Some? {
          i := LastJob(TASK_STATUS_WAIT, i.value, rows);
        }
      }
    }

    /** `job_by_id`; the rows say what is known of each job. */
    method JobById(id: string, ghost rows: seq<Row>) returns (job: Job?)
      requires |rows| == |jobs|
      requires forall k :: 0 <= k < |jobs| ==> rows[k] == Row(jobs[k].jobId, jobs[k].Status(), jobs[k].cmd)
      ensures job == Named(jobs, FindJob(rows, id))
    {
      hide StatusOf, Job.Status, Job.Polls, Contains, Strtol;
      if |id| < 2 || id[0] != '%' {
        return null;
      }
      if |id| == 2 && (id[1] == '%' || id[1] == '+' || id[1] == '-') {
        assert id == "%%" || id == "%+" || id == "%-";
        var i := RecentJob(id[1] == '-', rows);
        return if i.Some? then jobs[i.value] else null;
      }
      if IsDigit(id[1]) {
        if exists c <- id[1..] :: !IsDigit(c) {
          return null;
        }
        var n := ToInt(Strtol(id[1..]));
        for i := 0 to |jobs|
          invariant forall k :: 0 <= k < i ==> rows[k].id != n
        {
          if jobs[i].jobId == n {
            return jobs[i];
          }
        }
        return null;
      }
      for i := 0 to |jobs|
        invariant forall k :: 0 <= k < i ==> !Names(id, rows[k].cmd)
      {
        if Names(id, jobs[i].cmd) {
          return jobs[i];
        }
      }
      return null;
    }

    // ---------------------------------------------------------------------
    // Removal.

    /**
     * `job_destroy`: the job leaves the array and its processes leave the table, everything else
     * keeps its order; a foreground job hands the terminal back.
     */
    method JobDestroy(job: Job)
      requires Valid() && job in jobs
      modifies this`jobs, this`processes, this`foregroundJob, this`termOwner
      modifies job`pendingNotification, job`lastStatus
      ensures Valid()
      ensures jobs == Minus(old(jobs), {job})
      ensures processes == Minus(old(processes), SetOf(job.processes))
      ensures foregroundJob == if old(foregroundJob) == job then null else old(foregroundJob)
    {
      hide Shell.Numbered;
      if foregroundJob == job {
        Background(job);
      }
      RemoveJob(job);
      RemoveProcesses(job);
    }

    method RemoveJob(job: Job)
      requires Valid() && job in jobs && foregroundJob != job
      modifies this`jobs
      ensures Valid() && jobs == Minus(old(jobs), {job})
    {
      hide Valid, Minus, NoDuplicates;
      var i := IndexOf(job);
      JobsDistinct();
      RemoveAtIsMinus(jobs, i);
      jobs := jobs[..i] + jobs[i + 1..];
      ValidWithout(i);
    }

    twostate lemma ValidWithout(i: nat)
      requires old(Valid()) && i < |old(jobs)| && jobs == old(jobs)[..i] + old(jobs)[i + 1..] && foregroundJob != old(jobs)[i]
      requires processes == old(processes) && foregroundJob == old(foregroundJob) && termOwner == old(termOwner)
      requires forall j <- old(jobs) :: j.processes == old(j.processes) && j.pgid == old(j.pgid)
      requires forall p <- processes :: p.owner == old(p.owner)
      ensures Valid()
    {
      hide NoDuplicates;
      IdsWithout(old(jobs), i);
      assert forall j <- jobs :: j in old(jobs);
    }

    method IndexOf(job: Job) returns (i: nat)
      requires job in jobs
      ensures i < |jobs| && jobs[i] == job
    {
      i := 0;
      while i < |jobs| && jobs[i] != job
        invariant i <= |jobs| && job !in jobs[..i]
      {
        assert jobs[..i + 1] == jobs[..i] + [jobs[i]];
        i := i + 1;
      }
    }

    /** Drops the processes of a job that is no longer in the array. */
    method RemoveProcesses(job: Job)
      requires Valid() && job !in jobs
      requires forall p <- job.processes :: p.owner == job
      modifies this`processes
      ensures Valid() && processes == Minus(old(processes), SetOf(job.processes))
    {
      ghost var all := processes;
      MinusNothing(all, SetOf(job.processes[..0]));
      for j := 0 to |job.processes|
        invariant NoDuplicates(processes)
        invariant processes == Minus(all, SetOf(job.processes[..j]))
      {
        MinusTwice(all, SetOf(job.processes[..j]), {job.processes[j]});
        SetOfNext(job.processes, j);
        ProcessDestroy(job.processes[j]);
      }
      assert job.processes[..|job.processes|] == job.processes;
    }

    ghost function ProcessesOf(js: set<Job>): set<Process>
      reads js
    {
      set j, p | j in js && p in j.processes :: p
    }

    /**
     * `mrsh_destroy_terminated_jobs`: looks for news of every job, then destroys exactly those
     * with a status of 0 or more: all their processes have terminated, and none counts as stopped.
     */
    method DestroyTerminatedJobs(notify: bool) returns (ghost dead: set<Job>, ghost asked: seq<Process>)
      requires Valid()
      modifies kernel, this`jobs, this`processes, this`foregroundJob, this`termOwner, jobs`pendingNotification, jobs`lastStatus
      modifies processes`stopped, processes`terminated, processes`stat, processes`signal
      ensures Valid() && old(kernel.answers) <= kernel.answers
      ensures StatesOf(old(processes))
        == Replay(old(processes), old(States()), Since(kernel.answers, |old(kernel.answers)|))
      ensures AboutJobs(Since(kernel.answers, |old(kernel.answers)|), old(jobs), old(States()))
      ensures Asks(asked, Since(kernel.answers, |old(kernel.answers)|))
      ensures (exists a <- Since(kernel.answers, |old(kernel.answers)|) :: a.result == Failed)
        || forall j <- old(jobs) :: Answered(j.processes, StatesOf(old(processes)), asked)
      ensures forall j <- dead :: j in old(jobs)
      ensures forall j <- old(jobs) :: j in dead <==> j.Status() >= 0
      ensures jobs == Minus(old(jobs), dead)
      ensures processes == Minus(old(processes), ProcessesOf(dead))
      ensures var fg := AfterReports(old(foregroundJob), StatesOf(old(processes)), Since(kernel.answers, |old(kernel.answers)|));
        foregroundJob == if fg in dead then null else fg
    {
      hide *;
      StatesIs();
      var ok;
      ok, asked := RefreshJobsStatus();
      label refreshed:
      StatesIs();
      NotAnsweredFails(ok, Since(kernel.answers, |old(kernel.answers)|), asked);
      dead := DestroyTerminated(notify);
      StatesKept@refreshed(old(processes));
    }

    lemma NotAnsweredFails(ok: bool, news: seq<Answer>, asked: seq<Process>)
      requires ok <==> forall a <- news :: a.result != Failed
      requires ok ==> forall k :: 0 <= k < |jobs| ==> Answered(jobs[k].processes, States(), asked)
      ensures (exists a <- news :: a.result == Failed) || forall j <- jobs :: Answered(j.processes, States(), asked)
    {
      hide Answered, States;
    }

    lemma StatesIs()
      ensures States() == StatesOf(processes) && States().Keys == SetOf(processes)
    {
    }

    /**
     * The walk over the array: exactly the jobs with a negative status stay, in their order, and
     * exactly the processes of the others leave the table. A removal steps the index back.
     */
    method DestroyTerminated(notify: bool) returns (ghost dead: set<Job>)
      requires Valid()
      modifies this`jobs, this`processes, this`foregroundJob, this`termOwner, jobs`pendingNotification, jobs`lastStatus
      ensures Valid()
      ensures forall j <- dead :: j in old(jobs)
      ensures forall j <- old(jobs) :: j in dead <==> old(j.Status()) >= 0
      ensures jobs == Minus(old(jobs), dead)
      ensures processes == Minus(old(processes), old(ProcessesOf(dead)))
      ensures ProcessesOf(dead) == old(ProcessesOf(dead))
      ensures forall j <- old(jobs) :: j.Status() == old(j.Status())
      ensures foregroundJob == if old(foregroundJob) in dead then null else old(foregroundJob)
    {
      hide *;
      dead := set j | j in jobs && j.Status() >= 0;
      ghost var owned := map j | j in jobs :: SetOf(j.processes);
      UnionIsProcessesOf(owned, dead);
      DestroyDead(notify, dead, owned);
      AllKept();
      UnionIsProcessesOf(owned, dead);
    }

    /** The loop. */
    method DestroyDead(notify: bool, ghost dead: set<Job>, ghost owned: map<Job, set<Process>>)
      requires Valid()
      requires dead == set j | j in jobs && j.Status() >= 0
      requires owned == map j | j in jobs :: SetOf(j.processes)
      modifies this`jobs, this`processes, this`foregroundJob, this`termOwner, jobs`pendingNotification, jobs`lastStatus
      ensures Valid()
      ensures jobs == Minus(old(jobs), dead)
      ensures processes == Minus(old(processes), Union(owned, dead))
      ensures foregroundJob == if old(foregroundJob) in dead then null else old(foregroundJob)
    {
      hide *;
      ghost var all, ps, fg := jobs, processes, foregroundJob;
      ghost var n, gone: set<Job> := 0, {};
      WalkStart(all, dead);
      UnionOfNone(owned);
      MinusNothing(ps, {});
      var i: int := 0;
      while i < |jobs|
        invariant Valid()
        invariant 0 <= i <= |jobs| && n <= |all| && Walking(all, n, jobs, i, dead, gone)
        invariant processes == Minus(ps, Union(owned, gone))
        invariant foregroundJob == if fg in gone then null else fg
        decreases |all| - n
      {
        var job := jobs[i];
        JobsDistinct();
        NextDestroyed(all, n, jobs, i, dead, gone, ps, owned);
        StatusKept(job);
        var status := DestroyIfTerminated(job, notify);
        if status >= 0 {
          gone := gone + {job};
          i := i - 1;
        }
        n := n + 1;
        i := i + 1;
      }
      WalkEnd(all, n, jobs, i, dead, gone);
    }

    lemma UnionIsProcessesOf(owned: map<Job, set<Process>>, js: set<Job>)
      requires forall j <- js :: j in owned && owned[j] == SetOf(j.processes)
      ensures ProcessesOf(js) == Union(owned, js)
    {
      forall p ensures p in ProcessesOf(js) <==> p in Union(owned, js) {
        if p in ProcessesOf(js) {
          var j :| j in js && p in j.processes;
          assert p in owned[j];
        }
      }
    }

    /** One round of that loop. */
    method DestroyIfTerminated(job: Job, notify: bool) returns (status: int)
      requires Valid() && job in jobs
      modifies this`jobs, this`processes, this`foregroundJob, this`termOwner
      modifies job`pendingNotification, job`lastStatus
      ensures Valid() && status == old(job.Status())
      ensures jobs == if status >= 0 then Minus(old(jobs), {job}) else old(jobs)
      ensures processes == if status >= 0 then Minus(old(processes), SetOf(job.processes)) else old(processes)
      ensures foregroundJob == if status >= 0 && old(foregroundJob) == job then null else old(foregroundJob)
    {
      hide Shell.Owned, Shell.Numbered, Shell.Terminal;
      status := job.JobPoll();
      if notify && job.pendingNotification {
        job.pendingNotification := false;
      }
      ValidKept();
      if status >= 0 {
        JobDestroy(job);
      }
    }

    /** A job whose processes changed no flag has its status still. */
    twostate lemma StatusKept(job: Job)
      requires old(Valid()) && job in old(jobs) && job.processes == old(job.processes)
      requires forall p <- old(processes) ::
        p.stopped == old(p.stopped) && p.terminated == old(p.terminated) && p.stat == old(p.stat)
      ensures job.Status() == old(job.Status())
    {
      forall i | 0 <= i < |job.processes| ensures job.Polls()[i] == old(job.Polls())[i] {
        assert job.processes[i] in job.processes;
      }
      assert job.Polls() == old(job.Polls());
    }

    twostate lemma AllKept()
      requires old(Valid()) && (forall j <- old(jobs) :: j.processes == old(j.processes))
      requires forall p <- old(processes) ::
        p.stopped == old(p.stopped) && p.terminated == old(p.terminated) && p.stat == old(p.stat)
      ensures forall j <- old(jobs) :: j.Status() == old(j.Status())
    {
      forall j | j in old(jobs) ensures j.Status() == old(j.Status()) {
        StatusKept(j);
      }
    }
  }

  ghost function Union(owned: map<Job, set<Process>>, js: set<Job>): set<Process> {
    set j, p | j in js && j in owned && p in owned[j] :: p
  }

  lemma UnionOfNone(owned: map<Job, set<Process>>)
    ensures Union(owned, {}) == {}
  {
  }

  lemma UnionNext(ps: seq<Process>, owned: map<Job, set<Process>>, js: set<Job>, job: Job)
    requires job in owned
    ensures Minus(Minus(ps, Union(owned, js)), owned[job]) == Minus(ps, Union(owned, js + {job}))
  {
    MinusTwice(ps, Union(owned, js), owned[job]);
    assert Union(owned, js + {job}) == Union(owned, js) + owned[job];
  }

  /** One round of the walk over the jobs. */
  lemma NextDestroyed(all: seq<Job>, n: nat, left: seq<Job>, i: nat, dead: set<Job>, gone: set<Job>,
                      ps: seq<Process>, owned: map<Job, set<Process>>)
    requires Walking(all, n, left, i, dead, gone) && i < |left| && NoDuplicates(left)
    requires forall j <- all :: j in owned
    ensures n < |all| && left[i] in all
    ensures left[i] in dead ==>
      i <= |Minus(left, {left[i]})| && Walking(all, n + 1, Minus(left, {left[i]}), i, dead, gone + {left[i]})
    ensures left[i] !in dead ==> Walking(all, n + 1, left, i + 1, dead, gone)
    ensures Minus(Minus(ps, Union(owned, gone)), owned[left[i]]) == Minus(ps, Union(owned, gone + {left[i]}))
  {
    hide Minus, NoDuplicates, Union;
    WalkAt(all, n, left, i, dead, gone);
    UnionNext(ps, owned, gone, left[i]);
    if left[i] in dead {
      WalkDrop(all, n, left, i, dead, gone);
    } else {
      WalkKeep(all, n, left, i, dead, gone);
    }
  }

  lemma IdsWithout(jobs: seq<Job>, i: nat)
    requires i < |jobs| && forall k :: 0 <= k < |jobs| ==> jobs[k].jobId >= 1
    requires forall j, k :: 0 <= j < k < |jobs| ==> jobs[j].jobId < jobs[k].jobId
    ensures var rest := jobs[..i] + jobs[i + 1..];
      && (forall k :: 0 <= k < |rest| ==> rest[k].jobId >= 1)
      && (forall j, k :: 0 <= j < k < |rest| ==> rest[j].jobId < rest[k].jobId)
  {
  }

  lemma {:induction false} DistinctIds(jobs: seq<Job>)
    requires forall i, j :: 0 <= i < j < |jobs| ==> jobs[i].jobId < jobs[j].jobId
    ensures NoDuplicates(jobs)
  {
    if jobs != [] {
      DistinctIds(jobs[1..]);
    }
  }
}

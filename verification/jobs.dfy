/**
 * The background job table of src/jobs.c: MAX_JOBS slots, a free slot
 * holding pid -1, and `job_count` counting the occupied ones. `add_job`
 * takes the lowest free slot, `remove_job` frees the first slot holding a
 * pid, and `update_jobs` consumes the pids that waitpid reports (given here
 * as a sequence) and announces each finished job. Also the command text a
 * job is stored under (src/shell.c).
 */
module Jobs {
  import opened Common

  /** `job_t`; `command` is None for a NULL pointer. `status` 0 means running. */
  datatype Job = Job(pid: int, command: Option<string>, jobId: int, status: int)

  /** The contents of a slot after `init_jobs` or `remove_job`. */
  const FreeSlot: Job := Job(-1, None, -1, -1)

  predicate IsFree(j: Job) {
    j.pid == -1
  }

  /** The number of occupied slots. */
  function LiveCount(js: seq<Job>): (n: nat)
    ensures n <= |js|
  {
    if js == [] then 0
    else LiveCount(js[..|js| - 1]) + (if IsFree(js[|js| - 1]) then 0 else 1)
  }

  /** The first slot whose pid is p: the search loop of `add_job` (p = -1) and `remove_job`. */
  function FirstWithPid(js: seq<Job>, p: int): (r: Option<nat>)
    ensures r.Some? ==> r.value < |js| && js[r.value].pid == p
    ensures r.Some? ==> forall k | 0 <= k < r.value :: js[k].pid != p
    ensures r.None? ==> forall k | 0 <= k < |js| :: js[k].pid != p
  {
    if js == [] then None
    else if js[0].pid == p then Some(0)
    else
      match FirstWithPid(js[1..], p)
      case None => None
      case Some(k) => Some(k + 1)
  }

  /** The table after `add_job(pid, command)`. */
  function AddedJobs(js: seq<Job>, count: int, pid: int, command: string): (r: seq<Job>)
    ensures |r| == |js|
  {
    if count >= MAX_JOBS then js
    else
      match FirstWithPid(js, -1)
      case None => js
      case Some(i) => js[i := Job(pid, Some(command), i + 1, 0)]
  }

  /** `job_count` after `add_job`. */
  function AddedCount(js: seq<Job>, count: int): int {
    if count >= MAX_JOBS || FirstWithPid(js, -1).None? then count else count + 1
  }

  /** The table after `remove_job(pid)`. */
  function RemovedJobs(js: seq<Job>, pid: int): (r: seq<Job>)
    ensures |r| == |js|
  {
    match FirstWithPid(js, pid)
    case None => js
    case Some(i) => js[i := FreeSlot]
  }

  /** `job_count` after `remove_job`. */
  function RemovedCount(js: seq<Job>, count: int, pid: int): int {
    if FirstWithPid(js, pid).None? then count else count - 1
  }

  // ---------------------------------------------------------------------
  // The occupied-slot count.

  lemma {:induction false} LiveCountUpdate(js: seq<Job>, i: nat, v: Job)
    requires i < |js|
    ensures LiveCount(js[i := v]) ==
      LiveCount(js) - (if IsFree(js[i]) then 0 else 1) + (if IsFree(v) then 0 else 1)
    decreases |js|
  {
    var n := |js| - 1;
    var js' := js[i := v];
    if i < n {
      assert js'[..n] == js[..n][i := v];
      LiveCountUpdate(js[..n], i, v);
    } else {
      assert js'[..n] == js[..n];
    }
  }

  lemma {:induction false} LiveCountAllFree(js: seq<Job>)
    requires forall k | 0 <= k < |js| :: IsFree(js[k])
    ensures LiveCount(js) == 0
  {
    if js != [] {
      LiveCountAllFree(js[..|js| - 1]);
    }
  }

  lemma {:induction false} LiveCountNoneFree(js: seq<Job>)
    requires forall k | 0 <= k < |js| :: !IsFree(js[k])
    ensures LiveCount(js) == |js|
  {
    if js != [] {
      LiveCountNoneFree(js[..|js| - 1]);
    }
  }

  /** While the count is right and below capacity, a free slot exists. */
  lemma FreeSlotExists(js: seq<Job>)
    requires |js| == MAX_JOBS && LiveCount(js) < MAX_JOBS
    ensures FirstWithPid(js, -1).Some?
  {
    if FirstWithPid(js, -1).None? {
      LiveCountNoneFree(js);
    }
  }

  /** `add_job` keeps `job_count` equal to the number of occupied slots for a real pid. */
  lemma AddKeepsCount(js: seq<Job>, count: int, pid: int, command: string)
    requires count == LiveCount(js) && pid != -1
    ensures AddedCount(js, count) == LiveCount(AddedJobs(js, count, pid, command))
  {
    if count < MAX_JOBS {
      match FirstWithPid(js, -1)
      case None =>
      case Some(i) =>
        LiveCountUpdate(js, i, Job(pid, Some(command), i + 1, 0));
    }
  }

  /**
   * Below capacity, `add_job` fills the lowest free slot with the job (job id
   * = slot + 1, running) and changes no other slot; at capacity nothing changes.
   */
  lemma AddFillsLowestFree(js: seq<Job>, count: int, pid: int, command: string)
    requires |js| == MAX_JOBS && count == LiveCount(js)
    ensures count >= MAX_JOBS ==> AddedJobs(js, count, pid, command) == js
    ensures count < MAX_JOBS ==> exists i | 0 <= i < |js| ::
      IsFree(js[i]) && (forall k | 0 <= k < i :: !IsFree(js[k])) &&
      AddedJobs(js, count, pid, command) == js[i := Job(pid, Some(command), i + 1, 0)]
  {
    if count < MAX_JOBS {
      FreeSlotExists(js);
      var i := FirstWithPid(js, -1).value;
      assert IsFree(js[i]) && forall k | 0 <= k < i :: !IsFree(js[k]);
    }
  }

  /** `remove_job` of a real pid keeps the count right. */
  lemma RemoveKeepsCount(js: seq<Job>, count: int, pid: int)
    requires count == LiveCount(js) && pid != -1
    ensures RemovedCount(js, count, pid) == LiveCount(RemovedJobs(js, pid))
  {
    match FirstWithPid(js, pid)
    case None =>
    case Some(i) =>
      LiveCountUpdate(js, i, FreeSlot);
  }

  /** `remove_job(-1)` on a table with a free slot decrements the count anyway. */
  lemma RemoveFreePidMiscounts(js: seq<Job>, count: int)
    requires count == LiveCount(js) && FirstWithPid(js, -1).Some?
    ensures LiveCount(RemovedJobs(js, -1)) == count
    ensures RemovedCount(js, count, -1) == count - 1
  {
    var i := FirstWithPid(js, -1).value;
    LiveCountUpdate(js, i, FreeSlot);
  }

  /** Duplicate pids are accepted; removing that pid frees only the lower slot. */
  lemma DuplicatePids(js: seq<Job>, pid: int, c1: string, c2: string)
    requires |js| == MAX_JOBS && 2 <= MAX_JOBS && pid != -1
    requires forall k | 0 <= k < |js| :: IsFree(js[k])
    ensures
      var once := AddedJobs(js, 0, pid, c1);
      var twice := AddedJobs(once, 1, pid, c2);
      twice[0] == Job(pid, Some(c1), 1, 0) && twice[1] == Job(pid, Some(c2), 2, 0) &&
      RemovedJobs(twice, pid) == twice[0 := FreeSlot]
  {
    var once := AddedJobs(js, 0, pid, c1);
    assert FirstWithPid(js, -1) == Some(0);
    assert once == js[0 := Job(pid, Some(c1), 1, 0)];
    assert once[0].pid != -1 && once[1].pid == -1;
    assert FirstWithPid(once, -1) == Some(1);
  }

  // ---------------------------------------------------------------------
  // The reap pass.

  /** How a reaped child ended (WIFEXITED, WIFSIGNALED, neither). */
  datatype Ending = Exited | Signaled | OtherEnding

  /** One successful `waitpid(-1, &status, WNOHANG)`: its return value and status. */
  datatype Reaped = Reaped(pid: int, ending: Ending)

  /** The "[id] Done cmd" and "[id] Killed cmd" lines of `update_jobs`. */
  datatype Notice = Done(jobId: int, command: Option<string>) | Killed(jobId: int, command: Option<string>)

  datatype Table = Table(jobs: seq<Job>, count: int)

  function NoticeFor(j: Job, e: Ending): seq<Notice> {
    match e
    case Exited => [Done(j.jobId, j.command)]
    case Signaled => [Killed(j.jobId, j.command)]
    case OtherEnding => []
  }

  /** `update_jobs`: the table afterwards and the notices, in order. The loop ends at the first pid <= 0. */
  function UpdateFrom(t: Table, reaped: seq<Reaped>): (r: (Table, seq<Notice>))
    ensures |r.0.jobs| == |t.jobs|
    decreases |reaped|
  {
    if reaped == [] || reaped[0].pid <= 0 then (t, [])
    else
      var step := Reap(t, reaped[0]);
      var rest := UpdateFrom(step.0, reaped[1..]);
      (rest.0, step.1 + rest.1)
  }

  /** One reaped pid: the table without that job and its notice; an unknown pid changes nothing. */
  function Reap(t: Table, r: Reaped): (Table, seq<Notice>) {
    match FirstWithPid(t.jobs, r.pid)
    case None => (t, [])
    case Some(i) => (Table(RemovedJobs(t.jobs, r.pid), RemovedCount(t.jobs, t.count, r.pid)), NoticeFor(t.jobs[i], r.ending))
  }

  /** The reap pass from the n-th reaped pid on handles that pid, then carries on. */
  lemma UpdateFromAt(t: Table, reaped: seq<Reaped>, n: nat)
    requires n < |reaped| && reaped[n].pid > 0
    ensures UpdateFrom(t, reaped[n..]).0 == UpdateFrom(Reap(t, reaped[n]).0, reaped[n + 1..]).0
    ensures UpdateFrom(t, reaped[n..]).1 == Reap(t, reaped[n]).1 + UpdateFrom(Reap(t, reaped[n]).0, reaped[n + 1..]).1
  {
    assert reaped[n..][0] == reaped[n] && reaped[n..][1..] == reaped[n + 1..];
  }

  /** The reap pass stops at the end of the reaped pids or at the first pid <= 0. */
  lemma UpdateFromStops(t: Table, reaped: seq<Reaped>, n: nat)
    requires n <= |reaped| && (n == |reaped| || reaped[n].pid <= 0)
    ensures UpdateFrom(t, reaped[n..]) == (t, [])
  {
    assert n == |reaped| || reaped[n..][0].pid <= 0;
  }

  /** Keeping the `update_jobs` loop invariant across one reaped pid. */
  lemma ReapAllStep(t: Table, reaped: seq<Reaped>, n: nat, notices: seq<Notice>, total: (Table, seq<Notice>))
    requires n < |reaped| && reaped[n].pid > 0
    requires UpdateFrom(t, reaped[n..]).0 == total.0
    requires notices + UpdateFrom(t, reaped[n..]).1 == total.1
    ensures UpdateFrom(Reap(t, reaped[n]).0, reaped[n + 1..]).0 == total.0
    ensures notices + Reap(t, reaped[n]).1 + UpdateFrom(Reap(t, reaped[n]).0, reaped[n + 1..]).1 == total.1
  {
    UpdateFromAt(t, reaped, n);
  }

  /** The `update_jobs` loop invariant at a pid <= 0 or the end gives the whole result. */
  lemma ReapAllDone(t: Table, reaped: seq<Reaped>, n: nat, notices: seq<Notice>, total: (Table, seq<Notice>))
    requires n <= |reaped| && (n == |reaped| || reaped[n].pid <= 0)
    requires UpdateFrom(t, reaped[n..]).0 == total.0
    requires notices + UpdateFrom(t, reaped[n..]).1 == total.1
    ensures t == total.0 && notices == total.1
  {
    UpdateFromStops(t, reaped, n);
    assert notices + [] == notices;
  }

  predicate Counted(t: Table) {
    t.count == LiveCount(t.jobs)
  }

  /** The reap pass keeps the count right. */
  lemma {:induction false} UpdateKeepsCount(t: Table, reaped: seq<Reaped>)
    requires Counted(t)
    ensures Counted(UpdateFrom(t, reaped).0)
    decreases |reaped|
  {
    if !(reaped == [] || reaped[0].pid <= 0) {
      var p := reaped[0].pid;
      match FirstWithPid(t.jobs, p)
      case None => UpdateKeepsCount(t, reaped[1..]);
      case Some(i) =>
        RemoveKeepsCount(t.jobs, t.count, p);
        UpdateKeepsCount(Table(RemovedJobs(t.jobs, p), RemovedCount(t.jobs, t.count, p)), reaped[1..]);
    }
  }

  /** The pids the loop consumes: those before the first pid <= 0. */
  function ConsumedPids(reaped: seq<Reaped>): set<int>
    decreases |reaped|
  {
    if reaped == [] || reaped[0].pid <= 0 then {} else {reaped[0].pid} + ConsumedPids(reaped[1..])
  }

  /**
   * The reap pass only frees slots, and only slots whose pid was reaped;
   * every other slot is left as it was; at most one notice per reaped pid.
   */
  lemma {:induction false} UpdateOnlyFreesReaped(t: Table, reaped: seq<Reaped>)
    ensures forall k | 0 <= k < |t.jobs| ::
      UpdateFrom(t, reaped).0.jobs[k] == t.jobs[k] ||
      (UpdateFrom(t, reaped).0.jobs[k] == FreeSlot && t.jobs[k].pid in ConsumedPids(reaped))
    ensures |UpdateFrom(t, reaped).1| <= |reaped|
    decreases |reaped|
  {
    if !(reaped == [] || reaped[0].pid <= 0) {
      var p := reaped[0].pid;
      match FirstWithPid(t.jobs, p)
      case None => UpdateOnlyFreesReaped(t, reaped[1..]);
      case Some(i) =>
        var t' := Table(RemovedJobs(t.jobs, p), RemovedCount(t.jobs, t.count, p));
        UpdateOnlyFreesReaped(t', reaped[1..]);
        assert t'.jobs == t.jobs[i := FreeSlot];
    }
  }

  /** A reaped pid that no job holds changes nothing and announces nothing. */
  lemma UnknownPidIgnored(t: Table, p: int, e: Ending)
    requires p > 0 && forall k | 0 <= k < |t.jobs| :: t.jobs[k].pid != p
    ensures UpdateFrom(t, [Reaped(p, e)]) == (t, [])
  {
    var reaped := [Reaped(p, e)];
    assert FirstWithPid(t.jobs, p).None?;
    UpdateFromAt(t, reaped, 0);
    UpdateFromStops(t, reaped, 1);
    assert reaped[0..] == reaped;
    assert [] + [] == UpdateFrom(t, []).1;
  }

  /** A reaped pid that a job holds frees that job's slot and announces that job. */
  lemma KnownPidReaped(t: Table, i: nat, e: Ending)
    requires i < |t.jobs| && t.jobs[i].pid > 0
    requires forall k | 0 <= k < i :: t.jobs[k].pid != t.jobs[i].pid
    ensures UpdateFrom(t, [Reaped(t.jobs[i].pid, e)]) ==
      (Table(t.jobs[i := FreeSlot], t.count - 1),
       if e == Exited then [Done(t.jobs[i].jobId, t.jobs[i].command)]
       else if e == Signaled then [Killed(t.jobs[i].jobId, t.jobs[i].command)]
       else [])
  {
    var p := t.jobs[i].pid;
    assert FirstWithPid(t.jobs, p) == Some(i);
    assert RemovedJobs(t.jobs, p) == t.jobs[i := FreeSlot];
    assert RemovedCount(t.jobs, t.count, p) == t.count - 1;
    assert [Reaped(p, e)][1..] == [];
    var t' := Table(t.jobs[i := FreeSlot], t.count - 1);
    assert UpdateFrom(t', []) == (t', []);
    var notice := NoticeFor(t.jobs[i], e);
    assert UpdateFrom(t, [Reaped(p, e)]) == (t', notice + []);
    assert notice + [] == notice;
  }

  // ---------------------------------------------------------------------
  // The table itself.

  class JobTable {
    /** `job_list[]`. */
    const slots: array<Job>
    /** `job_count`. */
    var count: int

    predicate Shaped()
      reads this
    {
      slots.Length == MAX_JOBS
    }

    /** The count invariant. */
    predicate Valid()
      reads this, slots
    {
      Shaped() && count == LiveCount(slots[..])
    }

    /** The state after `init_jobs()`. */
    constructor ()
      ensures Valid() && fresh(slots) && count == 0
      ensures forall k | 0 <= k < slots.Length :: slots[k] == FreeSlot
    {
      slots := new Job[MAX_JOBS](_ => FreeSlot);
      count := 0;
      new;
      LiveCountAllFree(slots[..]);
    }

    /** `init_jobs()`: every slot free, count 0. */
    method Init()
      requires Shaped()
      modifies this, slots
      ensures Valid() && count == 0
      ensures forall k | 0 <= k < slots.Length :: slots[k] == FreeSlot
    {
      var i := 0;
      while i < MAX_JOBS
        invariant 0 <= i <= MAX_JOBS
        invariant forall k | 0 <= k < i :: slots[k] == FreeSlot
      {
        slots[i] := FreeSlot;
        i := i + 1;
      }
      count := 0;
      LiveCountAllFree(slots[..]);
    }

    /** `add_job(pid, command)`. */
    method AddJob(pid: int, command: string)
      requires Shaped()
      modifies this, slots
      ensures slots[..] == AddedJobs(old(slots[..]), old(count), pid, command)
      ensures count == AddedCount(old(slots[..]), old(count))
      ensures old(Valid()) && pid != -1 ==> Valid()
    {
      ghost var js := slots[..];
      ghost var c := count;
      if count >= MAX_JOBS {
        return;
      }
      var i := 0;
      while i < MAX_JOBS
        invariant 0 <= i <= MAX_JOBS
        invariant slots[..] == js && count == c
        invariant forall k | 0 <= k < i :: slots[k].pid != -1
      {
        if slots[i].pid == -1 {
          assert FirstWithPid(js, -1) == Some(i);
          slots[i] := Job(pid, Some(command), i + 1, 0);
          count := count + 1;
          if c == LiveCount(js) && pid != -1 {
            AddKeepsCount(js, c, pid, command);
          }
          return;
        }
        i := i + 1;
      }
      assert FirstWithPid(js, -1).None?;
    }

    /** `remove_job(pid)`. */
    method RemoveJob(pid: int)
      requires Shaped()
      modifies this, slots
      ensures slots[..] == RemovedJobs(old(slots[..]), pid)
      ensures count == RemovedCount(old(slots[..]), old(count), pid)
      ensures old(Valid()) && pid != -1 ==> Valid()
    {
      ghost var js := slots[..];
      ghost var c := count;
      var i := 0;
      while i < MAX_JOBS
        invariant 0 <= i <= MAX_JOBS
        invariant slots[..] == js && count == c
        invariant forall k | 0 <= k < i :: slots[k].pid != pid
      {
        if slots[i].pid == pid {
          assert FirstWithPid(js, pid) == Some(i);
          slots[i] := FreeSlot;
          count := count - 1;
          if c == LiveCount(js) && pid != -1 {
            RemoveKeepsCount(js, c, pid);
          }
          return;
        }
        i := i + 1;
      }
      assert FirstWithPid(js, pid).None?;
    }

    /** One pass of the `update_jobs` loop: look the reaped pid up and, if it is a job, remove it. */
    method ReapPid(r: Reaped) returns (notice: seq<Notice>)
      requires Shaped()
      modifies this, slots
      ensures Table(slots[..], count) == Reap(Table(old(slots[..]), old(count)), r).0
      ensures notice == Reap(Table(old(slots[..]), old(count)), r).1
    {
      ghost var t := Table(slots[..], count);
      notice := [];
      var i := 0;
      while i < MAX_JOBS
        invariant 0 <= i <= MAX_JOBS
        invariant slots[..] == t.jobs && count == t.count
        invariant forall k | 0 <= k < i :: slots[k].pid != r.pid
      {
        if slots[i].pid == r.pid {
          assert FirstWithPid(t.jobs, r.pid) == Some(i);
          notice := NoticeFor(slots[i], r.ending);
          RemoveJob(r.pid);
          return;
        }
        i := i + 1;
      }
      assert FirstWithPid(t.jobs, r.pid).None?;
    }

    /** `update_jobs()` with the waitpid results as input; returns the printed notices. */
    method UpdateJobs(reaped: seq<Reaped>) returns (notices: seq<Notice>)
      requires Shaped()
      modifies this, slots
      ensures Table(slots[..], count) == UpdateFrom(Table(old(slots[..]), old(count)), reaped).0
      ensures notices == UpdateFrom(Table(old(slots[..]), old(count)), reaped).1
      ensures old(Valid()) ==> Valid()
    {
      ghost var start := Table(slots[..], count);
      notices := ReapAll(reaped);
      if Counted(start) {
        UpdateKeepsCount(start, reaped);
      }
    }

    /** The `while` loop of `update_jobs`: one ReapPid per reaped pid, up to the first pid <= 0. */
    method ReapAll(reaped: seq<Reaped>) returns (notices: seq<Notice>)
      requires Shaped()
      modifies this, slots
      ensures Table(slots[..], count) == UpdateFrom(Table(old(slots[..]), old(count)), reaped).0
      ensures notices == UpdateFrom(Table(old(slots[..]), old(count)), reaped).1
    {
      ghost var total := UpdateFrom(Table(slots[..], count), reaped);
      ghost var t := Table(slots[..], count);
      notices := [];
      var n := 0;
      while n < |reaped| && reaped[n].pid > 0
        invariant 0 <= n <= |reaped| && Shaped()
        invariant t == Table(slots[..], count)
        invariant UpdateFrom(t, reaped[n..]).0 == total.0
        invariant notices + UpdateFrom(t, reaped[n..]).1 == total.1
      {
        var notice := ReapPid(reaped[n]);
        ReapAllStep(t, reaped, n, notices, total);
        t := Reap(t, reaped[n]).0;
        notices := notices + notice;
        n := n + 1;
      }
      ReapAllDone(t, reaped, n, notices, total);
    }
  }

  // ---------------------------------------------------------------------
  // The job command text (src/shell.c, execute_pipeline and execute_single_command).

  /** Every argument followed by one space, as the strcat loop builds it. */
  function JobCommand(args: seq<string>): (r: string)
  {
    if args == [] then [] else JobCommand(args[..|args| - 1]) + args[|args| - 1] + " "
  }

  function TotalLength(args: seq<string>): nat {
    if args == [] then 0 else TotalLength(args[..|args| - 1]) + |args[|args| - 1]| + 1
  }

  /** The text is the arguments with a space after each, and nothing else. */
  lemma {:induction false} JobCommandConcat(a: seq<string>, b: seq<string>)
    ensures JobCommand(a + b) == JobCommand(a) + JobCommand(b)
    decreases |b|
  {
    if b == [] {
      assert a + b == a;
    } else {
      var n := |b| - 1;
      assert (a + b)[..|a + b| - 1] == a + b[..n];
      JobCommandConcat(a, b[..n]);
    }
  }

  /** Its length is the sum of the argument lengths plus one per argument. */
  lemma {:induction false} JobCommandLength(args: seq<string>)
    ensures |JobCommand(args)| == TotalLength(args)
  {
    if args != [] {
      JobCommandLength(args[..|args| - 1]);
    }
  }

  /** The `char job_cmd[1024]` buffer holds the text only when it is shorter than 1024. */
  predicate FitsJobBuffer(args: seq<string>) {
    TotalLength(args) < 1024
  }

  lemma JobCommandOfOne(w: string)
    ensures JobCommand([w]) == w + " "
  {
    assert [w][..0] == [];
  }
}

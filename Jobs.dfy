/**
 * The job table of shell/src/jobs.c: a static array of 64 job slots and the
 * global counter `next_job_id`, with registration, lookups, the reaper's
 * status-driven transitions, the `activities` listing and the `fg`, `bg` and
 * `ping` builtins.
 *
 * What the operating system reports (wait statuses, whether a pid exists) is
 * an input; the signals the source sends are returned as values.
 */
module Jobs {
  import opened Strings

  const MaxJobs: nat := 64
  /** `char command[1024]` holds at most 1023 characters. */
  const CommandCapacity: nat := 1023

  datatype JobState = Running | Stopped

  datatype Job = Job(pgid: int, jobId: int, command: string, state: JobState, active: bool)

  /** A slot of the zero-initialised static array. */
  const ZeroSlot: Job := Job(0, 0, "", Running, false)

  /** A status `waitpid(..., WUNTRACED)` can report for one child. */
  datatype ChildStatus = ExitedWith(code: int) | KilledBy(signal: int) | StoppedBy(signal: int)

  /** SIGKILL and SIGCONT on Linux. */
  const SigKill: int := 9
  const SigCont: int := 18

  // ---------------------------------------------------------------------------
  // Specification functions over the slots
  // ---------------------------------------------------------------------------

  /** The first slot from `from` on that satisfies `p`. */
  function FirstWhere(s: seq<Job>, p: Job -> bool, from: nat): (r: Option<nat>)
    requires from <= |s|
    ensures r.Some? ==> from <= r.value < |s| && p(s[r.value])
    ensures r.Some? ==> forall k :: from <= k < r.value ==> !p(s[k])
    ensures r.None? ==> forall k :: from <= k < |s| ==> !p(s[k])
    decreases |s| - from
  {
    if from == |s| then None
    else if p(s[from]) then Some(from)
    else FirstWhere(s, p, from + 1)
  }

  function FirstFree(s: seq<Job>): Option<nat> {
    FirstWhere(s, (j: Job) => !j.active, 0)
  }

  /** `find_job_by_pgid` as a function: no match for `pgid < 1`, else the first active slot with that pgid. */
  function PgidSlot(s: seq<Job>, pgid: int): Option<nat> {
    if pgid < 1 then None else FirstWhere(s, (j: Job) => j.active && j.pgid == pgid, 0)
  }

  /** The jobs of the active slots, in slot order. */
  function ActiveJobs(s: seq<Job>): (r: seq<Job>)
    ensures |r| <= |s|
  {
    if |s| == 0 then []
    else (if s[0].active then [s[0]] else []) + ActiveJobs(s[1..])
  }

  /** `ActiveJobs` keeps exactly the active slots. */
  lemma {:induction false} ActiveJobsMembers(s: seq<Job>)
    ensures forall j :: j in ActiveJobs(s) ==> j in s && j.active
    ensures forall k :: 0 <= k < |s| && s[k].active ==> s[k] in ActiveJobs(s)
  {
    if |s| > 0 {
      ActiveJobsMembers(s[1..]);
      forall k | 1 <= k < |s| && s[k].active
        ensures s[k] in ActiveJobs(s)
      {
        assert s[1..][k - 1] == s[k];
      }
    }
  }

  function CountActive(s: seq<Job>): nat {
    |ActiveJobs(s)|
  }

  predicate SortedByCommand(s: seq<Job>) {
    forall a, b :: 0 <= a < b < |s| ==> StrLe(s[a].command, s[b].command)
  }

  /** The jobs of `s` whose command is `c`, in their order in `s`. */
  function WithCommand(s: seq<Job>, c: string): seq<Job> {
    if |s| == 0 then []
    else (if s[0].command == c then [s[0]] else []) + WithCommand(s[1..], c)
  }

  /** `t` lists the jobs sharing any one command in the same order as `s` does. */
  ghost predicate SameOrderPerCommand(s: seq<Job>, t: seq<Job>) {
    forall c :: WithCommand(s, c) == WithCommand(t, c)
  }

  lemma {:induction false} WithCommandAppend(s: seq<Job>, t: seq<Job>, c: string)
    ensures WithCommand(s + t, c) == WithCommand(s, c) + WithCommand(t, c)
  {
    if |s| == 0 {
      assert s + t == t;
    } else {
      var head := if s[0].command == c then [s[0]] else [];
      assert (s + t)[0] == s[0] && (s + t)[1..] == s[1..] + t;
      assert WithCommand(s + t, c) == head + WithCommand(s[1..] + t, c);
      WithCommandAppend(s[1..], t, c);
      assert WithCommand(s, c) == head + WithCommand(s[1..], c);
    }
  }

  /** Exchanging two neighbours with different commands keeps every command's order. */
  lemma WithCommandSwap(p: seq<Job>, x: Job, y: Job, q: seq<Job>, c: string)
    requires x.command != y.command
    ensures WithCommand(p + [y, x] + q, c) == WithCommand(p + [x, y] + q, c)
  {
    WithCommandAppend(p + [y, x], q, c);
    WithCommandAppend(p, [y, x], c);
    WithCommandAppend(p + [x, y], q, c);
    WithCommandAppend(p, [x, y], c);
    WithCommandAppend([x], [y], c);
    WithCommandAppend([y], [x], c);
    assert [x, y] == [x] + [y] && [y, x] == [y] + [x];
  }

  /** `t` is `s` with the neighbours at `j` and `j + 1` exchanged, and their commands differ. */
  lemma SwapKeepsOrder(s: seq<Job>, t: seq<Job>, j: nat)
    requires j + 1 < |s| == |t| && s[j].command != s[j + 1].command
    requires t[j] == s[j + 1] && t[j + 1] == s[j]
    requires forall x :: 0 <= x < |s| && x != j && x != j + 1 ==> t[x] == s[x]
    ensures SameOrderPerCommand(t, s)
  {
    var p, q := s[..j], s[j + 2..];
    assert s == p + [s[j], s[j + 1]] + q;
    assert t == p + [s[j + 1], s[j]] + q;
    forall c
      ensures WithCommand(t, c) == WithCommand(s, c)
    {
      WithCommandSwap(p, s[j], s[j + 1], q, c);
    }
  }

  /** Every slot's id is below `next`, and active slots carry distinct ids. */
  predicate IdsFresh(s: seq<Job>, next: int) {
    && (forall k :: 0 <= k < |s| ==> s[k].jobId < next)
    && (forall k, l :: 0 <= k < l < |s| && s[k].active && s[l].active ==> s[k].jobId != s[l].jobId)
  }

  predicate StrictlyIncreasing(xs: seq<int>) {
    forall a, b :: 0 <= a < b < |xs| ==> xs[a] < xs[b]
  }

  // ---------------------------------------------------------------------------
  // The reaper as a function of the events it collects
  // ---------------------------------------------------------------------------

  /** One collected child: the process group it belonged to, and its status. */
  datatype Reaped = Reaped(pgid: int, status: ChildStatus)

  function DoneNotice(j: Job): string {
    "[" + IntToString(j.jobId) + "]+ Done\t\t" + j.command
  }

  /**
   * One iteration of the `jobs_reap` loop as intended: the job is looked up
   * by the group the child belonged to before it was collected.
   */
  function ReapOne(s: seq<Job>, e: Reaped): (seq<Job>, Option<string>) {
    match PgidSlot(s, e.pgid)
    case None => (s, None)
    case Some(k) =>
      if e.status.StoppedBy? then (s[k := s[k].(state := Stopped)], None)
      else (s[k := s[k].(active := false)], Some(DoneNotice(s[k])))
  }

  /** The whole intended `jobs_reap` sweep: new slots and the notices printed, in order. */
  function ReapAll(s: seq<Job>, es: seq<Reaped>): (r: (seq<Job>, seq<string>))
    ensures |r.0| == |s|
    decreases |es|
  {
    if |es| == 0 then (s, [])
    else
      var (s1, n) := ReapOne(s, es[0]);
      var (s2, ns) := ReapAll(s1, es[1..]);
      (s2, (if n.Some? then [n.value] else []) + ns)
  }

  lemma ReapAllUnfold(s: seq<Job>, es: seq<Reaped>)
    requires |es| > 0
    ensures ReapAll(s, es) ==
      (ReapAll(ReapOne(s, es[0]).0, es[1..]).0,
       (if ReapOne(s, es[0]).1.Some? then [ReapOne(s, es[0]).1.value] else []) + ReapAll(ReapOne(s, es[0]).0, es[1..]).1)
  {
  }

  /** One step of the sweep, with the notices printed so far in front. */
  lemma ReapAllStep(s: seq<Job>, es: seq<Reaped>, i: nat, printed: seq<string>)
    requires i < |es|
    ensures var (s1, n) := ReapOne(s, es[i]);
      && ReapAll(s, es[i..]).0 == ReapAll(s1, es[i + 1..]).0
      && printed + ReapAll(s, es[i..]).1
         == (printed + (if n.Some? then [n.value] else [])) + ReapAll(s1, es[i + 1..]).1
  {
    ReapAllUnfold(s, es[i..]);
    assert es[i..][0] == es[i] && es[i..][1..] == es[i + 1..];
  }

  lemma {:induction false} ActiveJobsUpdate(s: seq<Job>, k: nat, j: Job)
    requires k < |s|
    ensures CountActive(s[k := j]) ==
      CountActive(s) - (if s[k].active then 1 else 0) + (if j.active then 1 else 0)
  {
    if k > 0 {
      assert s[k := j][1..] == s[1..][k - 1 := j];
      ActiveJobsUpdate(s[1..], k - 1, j);
    }
  }

  /** The reaper changes only the liveness flag and the state of a slot. */
  predicate SameJobs(s: seq<Job>, t: seq<Job>) {
    |s| == |t| &&
    forall k :: 0 <= k < |s| ==>
      t[k].pgid == s[k].pgid && t[k].jobId == s[k].jobId && t[k].command == s[k].command &&
      (t[k].active ==> s[k].active)
  }

  /**
   * A sweep prints exactly one "Done" notice per job it retires, keeps every
   * job's identity, and never revives a slot.
   */
  lemma {:induction false} ReapAllRetires(s: seq<Job>, es: seq<Reaped>)
    ensures SameJobs(s, ReapAll(s, es).0)
    ensures CountActive(s) == CountActive(ReapAll(s, es).0) + |ReapAll(s, es).1|
    decreases |es|
  {
    if |es| > 0 {
      var (s1, n) := ReapOne(s, es[0]);
      var found := PgidSlot(s, es[0].pgid);
      if found.Some? {
        ActiveJobsUpdate(s, found.value, s1[found.value]);
      }
      ReapAllRetires(s1, es[1..]);
    }
  }

  /** A sweep that collects nothing changes nothing and prints nothing. */
  lemma ReapIdle(s: seq<Job>)
    ensures ReapAll(s, []) == (s, [])
  {
  }

  /** A child whose process group no active job owns is skipped. */
  lemma ReapUnknownSkipped(s: seq<Job>, e: Reaped)
    requires forall k :: 0 <= k < |s| ==> !(s[k].active && s[k].pgid == e.pgid)
    ensures ReapOne(s, e) == (s, None)
  {
  }

  /** A child of an active job: exit or signal retires the job, a stop marks it Stopped. */
  lemma ReapKnown(s: seq<Job>, k: nat, e: Reaped)
    requires k < |s| && s[k].active && s[k].pgid == e.pgid && e.pgid >= 1
    requires forall l :: 0 <= l < |s| && l != k ==> !(s[l].active && s[l].pgid == e.pgid)
    ensures e.status.StoppedBy? ==> ReapOne(s, e) == (s[k := s[k].(state := Stopped)], None)
    ensures !e.status.StoppedBy? ==>
      ReapOne(s, e) == (s[k := s[k].(active := false)], Some(DoneNotice(s[k])))
  {
    var p := PgidSlot(s, e.pgid);
    assert p == Some(k);
  }

  // ---------------------------------------------------------------------------
  // The reaper as written: the group is asked for after the child is gone
  // ---------------------------------------------------------------------------

  /**
   * What `getpgid(pid)` answers once `waitpid` has collected the child. An
   * exited or killed child has been reaped and no longer exists, so the call
   * fails with -1. A stopped child still exists and keeps its group.
   */
  function GetpgidAfterWait(e: Reaped): int {
    if e.status.StoppedBy? then e.pgid else -1
  }

  /** One iteration of the `jobs_reap` loop as written: the lookup uses `getpgid`'s answer. */
  function ReapOneAsWritten(s: seq<Job>, e: Reaped): (seq<Job>, Option<string>) {
    ReapOne(s, Reaped(GetpgidAfterWait(e), e.status))
  }

  /** The whole `jobs_reap` sweep as written. */
  function ReapAllAsWritten(s: seq<Job>, es: seq<Reaped>): (r: (seq<Job>, seq<string>))
    ensures |r.0| == |s|
    decreases |es|
  {
    if |es| == 0 then (s, [])
    else
      var (s1, n) := ReapOneAsWritten(s, es[0]);
      var (s2, ns) := ReapAllAsWritten(s1, es[1..]);
      (s2, (if n.Some? then [n.value] else []) + ns)
  }

  /**
   * As written, a sweep never retires a job and never prints "Done": the
   * only change it can make to a slot is its state.
   */
  lemma {:induction false} ReapAsWrittenNeverRetires(s: seq<Job>, es: seq<Reaped>)
    ensures ReapAllAsWritten(s, es).1 == []
    ensures forall k :: 0 <= k < |s| ==>
      ReapAllAsWritten(s, es).0[k] == s[k].(state := ReapAllAsWritten(s, es).0[k].state)
    decreases |es|
  {
    if |es| > 0 {
      var (s1, n) := ReapOneAsWritten(s, es[0]);
      assert n == None;
      assert forall k :: 0 <= k < |s| ==> s1[k] == s[k].(state := s1[k].state);
      ReapAsWrittenNeverRetires(s1, es[1..]);
    }
  }

  /**
   * A background job in group 100 whose process exits: the sweep as written
   * leaves it active and silent, the intended sweep retires it with a notice.
   */
  lemma FinishedJobStaysActive()
    ensures var s := [Job(100, 1, "sleep 1", Running, true)];
      var e := Reaped(100, ExitedWith(0));
      && ReapAllAsWritten(s, [e]) == (s, [])
      && ReapAll(s, [e]) == ([s[0].(active := false)], [DoneNotice(s[0])])
  {
    var s := [Job(100, 1, "sleep 1", Running, true)];
    var e := Reaped(100, ExitedWith(0));
    ReapAsWrittenNeverRetires(s, [e]);
    ReapKnown(s, 0, e);
    assert [e][0] == e && [e][1..] == [];
    var s1 := [s[0].(active := false)];
    assert s[0 := s[0].(active := false)] == s1;
    assert ReapOne(s, e) == (s1, Some(DoneNotice(s[0])));
    assert ReapAll(s1, []) == (s1, []);
    assert ReapAll(s, [e]) == (s1, [DoneNotice(s[0])] + []);
    assert [DoneNotice(s[0])] + [] == [DoneNotice(s[0])];
  }

  // ---------------------------------------------------------------------------
  // do_ping
  // ---------------------------------------------------------------------------

  /** Signals are taken modulo 32. */
  const SignalCount: int := 32

  /** C's `sig % 32` on `int`: truncates toward zero, the remainder takes the dividend's sign. */
  function SignalRem(a: int): (r: int)
    ensures a >= 0 ==> 0 <= r < SignalCount
    ensures a < 0 ==> -SignalCount < r <= 0
    ensures -SignalCount < a < SignalCount ==> r == a
  {
    if a >= 0 then a % SignalCount else -((-a) % SignalCount)
  }

  /** The remainder differs from the dividend by a multiple of 32. */
  lemma SignalRemCongruent(a: int)
    ensures (a - SignalRem(a)) % SignalCount == 0
  {
  }

  /** Unlike Euclidean `%`, C's remainder is odd in the dividend. */
  lemma SignalRemOdd(a: int)
    ensures SignalRem(-a) == -SignalRem(a)
  {
  }

  datatype PingOutcome =
    | PingUsage                                   // "ping: Invalid syntax" on stderr
    | NoSuchProcess                               // "No such process found"
    | Sent(pid: int, requested: int, delivered: int)  // kill(pid, sig % 32), then "Sent signal ..."

  /** `do_ping`: argument count, the existence probe, then the signal modulo 32. */
  function Ping(args: seq<string>, pidExists: bool): (r: PingOutcome)
    ensures |args| != 3 <==> r.PingUsage?
    ensures |args| == 3 ==> (r.Sent? <==> pidExists)
    ensures r.Sent? ==> pidExists && r.pid == Atoi(args[1]) && r.requested == Atoi(args[2])
    ensures r.Sent? && r.requested >= 0 ==> 0 <= r.delivered < 32
    ensures r.Sent? && r.requested < 0 ==> -32 < r.delivered <= 0
    ensures r.Sent? && -32 < r.requested < 32 ==> r.delivered == r.requested
  {
    if |args| != 3 then PingUsage
    else if !pidExists then NoSuchProcess
    else
      var sig := Atoi(args[2]);
      Sent(Atoi(args[1]), sig, SignalRem(sig))
  }

  // ---------------------------------------------------------------------------
  // The table
  // ---------------------------------------------------------------------------

  datatype AddOutcome = Added(jobId: int) | TableFull

  /** The slots and `next_job_id` after `jobs_add(pgid, command, state)`. */
  function Registered(s: seq<Job>, next: int, pgid: int, command: string, state: JobState): (r: (seq<Job>, int))
    ensures |r.0| == |s|
    ensures FirstFree(s).None? ==> r == (s, next)
    ensures FirstFree(s).Some? ==> r.1 == next + 1 && r.0[FirstFree(s).value].jobId == next && r.0[FirstFree(s).value].active
    ensures forall k :: 0 <= k < |s| && Some(k) != FirstFree(s) ==> r.0[k] == s[k]
  {
    match FirstFree(s)
    case None => (s, next)
    case Some(k) => (s[k := Job(pgid, next, Truncate(command, CommandCapacity), state, true)], next + 1)
  }

  /** Registration keeps ids fresh: the new id exceeds every id in the table. */
  lemma RegisteredKeepsIdsFresh(s: seq<Job>, next: int, pgid: int, command: string, state: JobState)
    requires IdsFresh(s, next)
    ensures IdsFresh(Registered(s, next, pgid, command, state).0, Registered(s, next, pgid, command, state).1)
  {
  }

  /** What `jobs_add` prints: "[id] pgid" for a running job, an error when the table is full. */
  function AddNotice(r: AddOutcome, pgid: int, state: JobState): (out: Option<string>)
    ensures out.None? <==> r.Added? && state.Stopped?
    ensures r.Added? && state == Running ==> out == Some("[" + IntToString(r.jobId) + "] " + IntToString(pgid))
    ensures r.TableFull? ==> out == Some("shell: Error: too many background jobs")
  {
    match r
    case TableFull => Some("shell: Error: too many background jobs")
    case Added(id) => if state == Running then Some("[" + IntToString(id) + "] " + IntToString(pgid)) else None
  }

  function StateWord(state: JobState): string {
    if state == Running then "Running" else "Stopped"
  }

  /**
   * One line of the `do_activities` listing: the process group in brackets
   * (not the job id), the command, and the state.
   */
  function ActivityLine(j: Job): string {
    "[" + IntToString(j.pgid) + "] : " + j.command + " - " + StateWord(j.state)
  }

  /** The fields of an activities line can be read back: the pgid, the command and the state. */
  lemma ActivityLineFields(j: Job)
    ensures var p, line := IntToString(j.pgid), ActivityLine(j);
      && |line| == |p| + |j.command| + 15
      && line[0] == '[' && line[1 + |p|] == ']'
      && Atoi(line[1..1 + |p|]) == j.pgid
      && line[5 + |p|..5 + |p| + |j.command|] == j.command
      && (line[|line| - 7..] == "Running" <==> j.state == Running)
  {
    var p, c, w := IntToString(j.pgid), j.command, StateWord(j.state);
    var line := ActivityLine(j);
    assert line == "[" + p + "] : " + c + " - " + w;
    assert line[1..1 + |p|] == p;
    AtoiDecimal(j.pgid);
    assert line[5 + |p|..5 + |p| + |c|] == c;
    assert line[|line| - 7..] == w;
    assert "Stopped"[0] != "Running"[0];
  }

  /** What `do_bg` prints after continuing a job: "[id] command &". */
  function BgNotice(j: Job): string {
    "[" + IntToString(j.jobId) + "] " + j.command + " &"
  }

  datatype FgOutcome =
    | FgNoSuchJob                                  // "No such job"
    | FgWaited(jobId: int, continued: bool, stopped: bool)

  datatype BgOutcome =
    | BgUsage                                      // "bg: Invalid syntax"
    | BgNoSuchJob                                  // "No such job"
    | BgAlreadyRunning                             // "Job already running"
    | BgResumed(jobId: int, notice: string)        // SIGCONT, then `BgNotice`

  class JobTable {
    var slots: array<Job>
    var nextJobId: int
    /** The job ids handed out so far, in order. */
    ghost var Issued: seq<int>

    ghost predicate Valid()
      reads this, slots
    {
      && slots.Length == MaxJobs
      && nextJobId >= 1
      && IdsFresh(slots[..], nextJobId)
      && StrictlyIncreasing(Issued)
      && (forall k :: 0 <= k < |Issued| ==> 1 <= Issued[k] < nextJobId)
    }

    /** The static storage before `jobs_init`: zeroed slots, `next_job_id = 1`. */
    constructor ()
      ensures Valid() && fresh(slots)
      ensures slots[..] == seq(MaxJobs, _ => ZeroSlot)
      ensures nextJobId == 1 && Issued == []
    {
      slots := new Job[MaxJobs](_ => ZeroSlot);
      nextJobId := 1;
      Issued := [];
    }

    /** `jobs_init`: every slot becomes inactive; nothing else changes. */
    method Init()
      requires Valid()
      modifies slots
      ensures Valid()
      ensures forall k :: 0 <= k < MaxJobs ==> slots[k] == old(slots[k]).(active := false)
    {
      var i := 0;
      while i < MaxJobs
        invariant 0 <= i <= MaxJobs
        invariant forall k :: 0 <= k < i ==> slots[k] == old(slots[k]).(active := false)
        invariant forall k :: i <= k < MaxJobs ==> slots[k] == old(slots[k])
      {
        slots[i] := slots[i].(active := false);
        i := i + 1;
      }
    }

    /**
     * `jobs_add`: the first inactive slot gets the job and the id
     * `next_job_id`, which then advances; a full table changes nothing.
     */
    method Add(pgid: int, command: string, state: JobState) returns (r: AddOutcome)
      requires Valid()
      modifies this, slots
      ensures Valid() && slots == old(slots)
      ensures FirstFree(old(slots[..])).None? ==>
        r == TableFull && slots[..] == old(slots[..]) && nextJobId == old(nextJobId) && Issued == old(Issued)
      ensures FirstFree(old(slots[..])).Some? ==>
        && r == Added(old(nextJobId))
        && slots[..] == old(slots[..])[FirstFree(old(slots[..])).value :=
             Job(pgid, old(nextJobId), Truncate(command, CommandCapacity), state, true)]
        && nextJobId == old(nextJobId) + 1
        && Issued == old(Issued) + [old(nextJobId)]
      ensures (slots[..], nextJobId) == Registered(old(slots[..]), old(nextJobId), pgid, command, state)
    {
      var i := 0;
      while i < MaxJobs
        invariant 0 <= i <= MaxJobs
        invariant FirstFree(slots[..]) == FirstWhere(slots[..], (j: Job) => !j.active, i)
      {
        if !slots[i].active {
          slots[i] := Job(pgid, nextJobId, Truncate(command, CommandCapacity), state, true);
          r := Added(nextJobId);
          Issued := Issued + [nextJobId];
          nextJobId := nextJobId + 1;
          return;
        }
        i := i + 1;
      }
      r := TableFull;
    }

    /** `find_job_by_pgid`. */
    method FindByPgid(pgid: int) returns (slot: Option<nat>)
      requires Valid()
      ensures slot == PgidSlot(slots[..], pgid)
      ensures slot.None? <==> pgid < 1 || forall k :: 0 <= k < MaxJobs ==> !(slots[k].active && slots[k].pgid == pgid)
      ensures slot.Some? ==> slot.value < MaxJobs && slots[slot.value].active && slots[slot.value].pgid == pgid
    {
      if pgid < 1 {
        return None;
      }
      var i := 0;
      while i < MaxJobs
        invariant 0 <= i <= MaxJobs
        invariant FirstWhere(slots[..], (j: Job) => j.active && j.pgid == pgid, 0)
               == FirstWhere(slots[..], (j: Job) => j.active && j.pgid == pgid, i)
      {
        if slots[i].active && slots[i].pgid == pgid {
          return Some(i);
        }
        i := i + 1;
      }
      return None;
    }

    /** `find_job_by_jid`: the first active slot with that job id. */
    method FindByJid(jid: int) returns (slot: Option<nat>)
      requires Valid()
      ensures slot.None? <==> forall k :: 0 <= k < MaxJobs ==> !(slots[k].active && slots[k].jobId == jid)
      ensures slot.Some? ==> slot.value < MaxJobs && slots[slot.value].active && slots[slot.value].jobId == jid
    {
      var i := 0;
      while i < MaxJobs
        invariant 0 <= i <= MaxJobs
        invariant forall k :: 0 <= k < i ==> !(slots[k].active && slots[k].jobId == jid)
      {
        if slots[i].active && slots[i].jobId == jid {
          return Some(i);
        }
        i := i + 1;
      }
      return None;
    }

    /** `get_latest_job`: the active job with the largest id, none when no job is active. */
    method GetLatest() returns (slot: Option<nat>)
      requires Valid()
      ensures slot.None? <==> forall k :: 0 <= k < MaxJobs ==> !slots[k].active
      ensures slot.Some? ==> slot.value < MaxJobs && slots[slot.value].active
      ensures slot.Some? ==> forall k :: 0 <= k < MaxJobs && slots[k].active ==> slots[k].jobId <= slots[slot.value].jobId
    {
      slot := None;
      var i := 0;
      while i < MaxJobs
        invariant 0 <= i <= MaxJobs
        invariant slot.None? <==> forall k :: 0 <= k < i ==> !slots[k].active
        invariant slot.Some? ==> slot.value < i && slots[slot.value].active
        invariant slot.Some? ==> forall k :: 0 <= k < i && slots[k].active ==> slots[k].jobId <= slots[slot.value].jobId
      {
        if slots[i].active {
          if slot.None? || slots[i].jobId > slots[slot.value].jobId {
            slot := Some(i);
          }
        }
        i := i + 1;
      }
    }

    /**
     * `jobs_reap`: for each collected child, find the active job of its
     * process group; exit or signal retires it with a "Done" notice, a stop
     * marks it Stopped; children of unknown groups are skipped.
     */
    method Reap(events: seq<Reaped>) returns (notices: seq<string>)
      requires Valid()
      modifies slots
      ensures Valid()
      ensures (slots[..], notices) == ReapAll(old(slots[..]), events)
    {
      ghost var initial := slots[..];
      notices := [];
      var i := 0;
      assert events[0..] == events;
      while i < |events|
        invariant 0 <= i <= |events|
        invariant Valid()
        invariant ReapAll(initial, events).0 == ReapAll(slots[..], events[i..]).0
        invariant ReapAll(initial, events).1 == notices + ReapAll(slots[..], events[i..]).1
      {
        ReapAllStep(slots[..], events, i, notices);
        var notice := ReapChild(events[i]);
        if notice.Some? {
          notices := notices + [notice.value];
        }
        i := i + 1;
      }
      assert events[i..] == [];
      assert ReapAll(slots[..], events[i..]) == (slots[..], []);
      assert notices + [] == notices;
    }

    /** One iteration of the `jobs_reap` loop, for a child of group `e.pgid`. */
    method ReapChild(e: Reaped) returns (notice: Option<string>)
      requires Valid()
      modifies slots
      ensures Valid()
      ensures (slots[..], notice) == ReapOne(old(slots[..]), e)
    {
      var found := FindByPgid(e.pgid);
      notice := None;
      if found.Some? {
        var k := found.value;
        if e.status.StoppedBy? {
          slots[k] := slots[k].(state := Stopped);
        } else {
          notice := Some(DoneNotice(slots[k]));
          slots[k] := slots[k].(active := false);
        }
      }
    }

    /** `jobs_kill_all`: the process groups sent SIGKILL, one per active job in slot order. */
    method KillAll() returns (groups: seq<int>)
      requires Valid()
      ensures |groups| == CountActive(slots[..])
      ensures forall k :: 0 <= k < |groups| ==> groups[k] == ActiveJobs(slots[..])[k].pgid
    {
      groups := [];
      var i := 0;
      while i < MaxJobs
        invariant 0 <= i <= MaxJobs
        invariant |groups| == CountActive(slots[..i])
        invariant forall k :: 0 <= k < |groups| ==> groups[k] == ActiveJobs(slots[..i])[k].pgid
      {
        ActiveJobsSnoc(slots[..i], slots[i]);
        assert slots[..i + 1] == slots[..i] + [slots[i]];
        if slots[i].active {
          groups := groups + [slots[i].pgid];
        }
        i := i + 1;
      }
      assert slots[..i] == slots[..];
    }

    /**
     * `do_activities`: the active jobs, copied in slot order, bubble-sorted
     * by command under `strcmp`, then printed one line each; the table itself
     * is untouched.
     */
    method Activities() returns (listing: seq<Job>, lines: seq<string>)
      requires Valid()
      ensures SortedByCommand(listing)
      ensures multiset(listing) == multiset(ActiveJobs(slots[..]))
      ensures SameOrderPerCommand(listing, ActiveJobs(slots[..]))
      ensures |lines| == |listing|
      ensures forall i :: 0 <= i < |lines| ==> lines[i] == ActivityLine(listing[i])
    {
      var temp, count := CopyActive();
      BubbleSortByCommand(temp, count);
      listing := temp[..count];
      lines := ActivityLines(temp, count);
    }

    /** The copy loop of `do_activities`: the active jobs into a fresh array, in slot order. */
    method CopyActive() returns (temp: array<Job>, count: nat)
      requires slots.Length == MaxJobs
      ensures fresh(temp) && temp.Length == MaxJobs && count <= MaxJobs
      ensures temp[..count] == ActiveJobs(slots[..])
    {
      temp := new Job[MaxJobs](_ => ZeroSlot);
      count := 0;
      var i := 0;
      while i < MaxJobs
        invariant 0 <= i <= MaxJobs && count <= i
        invariant temp[..count] == ActiveJobs(slots[..i])
      {
        ActiveJobsSnoc(slots[..i], slots[i]);
        assert slots[..i + 1] == slots[..i] + [slots[i]];
        ghost var copied := temp[..count];
        if slots[i].active {
          temp[count] := slots[i];
          assert temp[..count + 1] == copied + [slots[i]];
          count := count + 1;
        }
        i := i + 1;
      }
      assert slots[..i] == slots[..];
    }

    /**
     * `do_fg`: with no argument the latest job, else the job whose id is
     * `atoi(args[1])`. A stopped job is continued; the single status
     * `waitpid` then reports either stops the job again or retires it.
     */
    method Fg(args: seq<string>, status: ChildStatus) returns (r: FgOutcome)
      requires Valid() && |args| >= 1
      modifies slots
      ensures Valid()
      ensures r.FgNoSuchJob? ==> slots[..] == old(slots[..])
      ensures r.FgWaited? ==> exists k :: 0 <= k < MaxJobs && old(slots[k]).active && FgTransition(old(slots[..]), k, status, r, slots[..])
      ensures |args| == 1 && r.FgNoSuchJob? ==> forall k :: 0 <= k < MaxJobs ==> !old(slots[k]).active
      ensures |args| == 1 && r.FgWaited? ==>
        forall k :: 0 <= k < MaxJobs && old(slots[k]).active ==> old(slots[k]).jobId <= r.jobId
      ensures |args| > 1 && r.FgNoSuchJob? ==>
        forall k :: 0 <= k < MaxJobs ==> !(old(slots[k]).active && old(slots[k]).jobId == Atoi(args[1]))
      ensures |args| > 1 && r.FgWaited? ==> r.jobId == Atoi(args[1])
    {
      var found;
      if |args| == 1 {
        found := GetLatest();
      } else {
        found := FindByJid(Atoi(args[1]));
      }
      if found.None? {
        return FgNoSuchJob;
      }
      var k := found.value;
      var continued := slots[k].state == Stopped;
      if status.StoppedBy? {
        r := FgWaited(slots[k].jobId, continued, true);
        slots[k] := slots[k].(state := Stopped);
      } else {
        r := FgWaited(slots[k].jobId, continued, false);
        slots[k] := slots[k].(active := false);
      }
    }

    /**
     * `do_bg`: exactly one argument naming an active job; a running job is
     * left alone, a stopped one is continued and marked Running.
     */
    method Bg(args: seq<string>) returns (r: BgOutcome)
      requires Valid()
      modifies slots
      ensures Valid()
      ensures !r.BgResumed? ==> slots[..] == old(slots[..])
      ensures |args| != 2 <==> r.BgUsage?
      ensures r.BgNoSuchJob? <==>
        (|args| == 2 && forall k :: 0 <= k < MaxJobs ==> !(old(slots[k]).active && old(slots[k]).jobId == Atoi(args[1])))
      ensures r.BgAlreadyRunning? ==>
        (exists k :: 0 <= k < MaxJobs && old(slots[k]).active && old(slots[k]).jobId == Atoi(args[1]) && old(slots[k]).state == Running)
      ensures r.BgResumed? ==> r.jobId == Atoi(args[1])
      ensures r.BgResumed? ==>
        (exists k :: 0 <= k < MaxJobs && old(slots[k]).active && old(slots[k]).jobId == r.jobId && old(slots[k]).state == Stopped &&
          slots[..] == old(slots[..])[k := old(slots[k]).(state := Running)] &&
          r.notice == BgNotice(old(slots[k])))
    {
      if |args| != 2 {
        return BgUsage;
      }
      var found := FindByJid(Atoi(args[1]));
      if found.None? {
        return BgNoSuchJob;
      }
      var k := found.value;
      if slots[k].state == Running {
        return BgAlreadyRunning;
      }
      slots[k] := slots[k].(state := Running);
      r := BgResumed(slots[k].jobId, BgNotice(slots[k]));
    }
  }

  /** The slots after `do_fg` picked slot `k` and `waitpid` reported `status`. */
  predicate FgTransition(before: seq<Job>, k: nat, status: ChildStatus, r: FgOutcome, after: seq<Job>)
    requires k < |before|
  {
    && r == FgWaited(before[k].jobId, before[k].state == Stopped, status.StoppedBy?)
    && after == before[k := if status.StoppedBy? then before[k].(state := Stopped) else before[k].(active := false)]
  }

  lemma {:induction false} ActiveJobsSnoc(s: seq<Job>, j: Job)
    ensures ActiveJobs(s + [j]) == ActiveJobs(s) + (if j.active then [j] else [])
  {
    if |s| > 0 {
      assert (s + [j])[1..] == s[1..] + [j];
      ActiveJobsSnoc(s[1..], j);
      var head: seq<Job> := if s[0].active then [s[0]] else [];
      var tail: seq<Job> := if j.active then [j] else [];
      assert ActiveJobs(s + [j]) == head + (ActiveJobs(s[1..]) + tail);
      AppendAssoc(head, ActiveJobs(s[1..]), tail);
    } else {
      assert s + [j] == [j];
    }
  }

  /** The printing loop of `do_activities`: one line per job of `a[..n]`, in order. */
  method ActivityLines(a: array<Job>, n: nat) returns (lines: seq<string>)
    requires n <= a.Length
    ensures |lines| == n
    ensures forall x :: 0 <= x < n ==> lines[x] == ActivityLine(a[x])
  {
    lines := [];
    var i := 0;
    while i < n
      invariant 0 <= i <= n
      invariant |lines| == i
      invariant forall x :: 0 <= x < i ==> lines[x] == ActivityLine(a[x])
    {
      lines := lines + [ActivityLine(a[i])];
      i := i + 1;
    }
  }

  /** The bubble sort of `do_activities` on the first `n` elements of `a`. */
  method BubbleSortByCommand(a: array<Job>, n: nat)
    requires n <= a.Length
    modifies a
    ensures SortedByCommand(a[..n])
    ensures multiset(a[..n]) == old(multiset(a[..n]))
    ensures forall x :: n <= x < a.Length ==> a[x] == old(a[x])
    ensures SameOrderPerCommand(a[..n], old(a[..n]))
  {
    if n < 2 {
      return;
    }
    var i := 0;
    while i < n - 1
      invariant 0 <= i <= n - 1
      invariant multiset(a[..n]) == old(multiset(a[..n]))
      invariant SameOrderPerCommand(a[..n], old(a[..n]))
      invariant forall x :: n <= x < a.Length ==> a[x] == old(a[x])
      invariant forall x, y :: n - i <= x < y < n ==> StrLe(a[x].command, a[y].command)
      invariant forall x, y :: 0 <= x < n - i <= y < n ==> StrLe(a[x].command, a[y].command)
    {
      BubblePass(a, n, n - i);
      i := i + 1;
    }
  }

  /**
   * One pass of the inner loop over `a[..m]`: adjacent out-of-order commands
   * are swapped, which carries the greatest one to `a[m - 1]`.
   */
  method BubblePass(a: array<Job>, n: nat, m: nat)
    requires 2 <= m <= n <= a.Length
    requires forall x, y :: 0 <= x < m <= y < n ==> StrLe(a[x].command, a[y].command)
    modifies a
    ensures multiset(a[..n]) == old(multiset(a[..n]))
    ensures forall x :: m <= x < a.Length ==> a[x] == old(a[x])
    ensures forall x, y :: 0 <= x < m <= y < n ==> StrLe(a[x].command, a[y].command)
    ensures forall x :: 0 <= x < m - 1 ==> StrLe(a[x].command, a[m - 1].command)
    ensures SameOrderPerCommand(a[..n], old(a[..n]))
  {
    var j := 0;
    while j < m - 1
      invariant 0 <= j <= m - 1
      invariant multiset(a[..n]) == old(multiset(a[..n]))
      invariant SameOrderPerCommand(a[..n], old(a[..n]))
      invariant forall x :: m <= x < a.Length ==> a[x] == old(a[x])
      invariant forall x, y :: 0 <= x < m <= y < n ==> StrLe(a[x].command, a[y].command)
      invariant forall x :: 0 <= x < j ==> StrLe(a[x].command, a[j].command)
    {
      BubbleStep(a, n, m, j);
      j := j + 1;
    }
  }

  /** One compare-and-swap of `a[j]` and `a[j + 1]`, carrying the greatest of `a[..j + 2]` up. */
  method BubbleStep(a: array<Job>, n: nat, m: nat, j: nat)
    requires j + 1 < m <= n <= a.Length
    requires forall x, y :: 0 <= x < m <= y < n ==> StrLe(a[x].command, a[y].command)
    requires forall x :: 0 <= x < j ==> StrLe(a[x].command, a[j].command)
    modifies a
    ensures multiset(a[..n]) == old(multiset(a[..n]))
    ensures forall x :: m <= x < a.Length ==> a[x] == old(a[x])
    ensures forall x, y :: 0 <= x < m <= y < n ==> StrLe(a[x].command, a[y].command)
    ensures forall x :: 0 <= x < j + 1 ==> StrLe(a[x].command, a[j + 1].command)
    ensures SameOrderPerCommand(a[..n], old(a[..n]))
  {
    if !StrLe(a[j].command, a[j + 1].command) {
      StrLeTotal(a[j].command, a[j + 1].command);
      StrLeReflexive(a[j].command);
      ghost var before := a[..n];
      SwapAdjacent(a, j, n);
      SwapKeepsOrder(before, a[..n], j);
    } else {
      forall x | 0 <= x < j
        ensures StrLe(a[x].command, a[j + 1].command)
      {
        StrLeTransitive(a[x].command, a[j].command, a[j + 1].command);
      }
    }
  }

  method SwapAdjacent(a: array<Job>, j: nat, n: nat)
    requires j + 1 < n <= a.Length
    modifies a
    ensures a[j] == old(a[j + 1]) && a[j + 1] == old(a[j])
    ensures forall x :: 0 <= x < a.Length && x != j && x != j + 1 ==> a[x] == old(a[x])
    ensures multiset(a[..n]) == old(multiset(a[..n]))
  {
    a[j], a[j + 1] := a[j + 1], a[j];
  }
}

/**
 The cross-process reservation of global event numbers in utils/hall/hall_event.c
 (evt_reserve, evt_next_gseq), as a transition system over any number of processes.

 Each process runs evt_next_gseq under its own mutex, so it takes one step at a time;
 steps of different processes interleave freely and a process may crash between any two.
 A crash frees the file lock.  The watermark file is replaced atomically.
 */
module HallGseq {

  /** EVT_WM_BLOCK */
  const BLOCK := 1024

  /** A process identity; a restarted process is a new one. */
  type Pid = nat

  /** Where a process stands inside evt_next_gseq. */
  datatype Phase =
    | Idle                  // outside evt_reserve
    | Locked                // holds the lock, watermark not read yet
    | Loaded(base: nat)     // base computed, watermark not written yet
    | Stored(base: nat)     // watermark written, lock still held
    | Released(base: nat)   // lock released, globals not updated yet

  /** g_evt_gseq, g_evt_limit and the phase of one process. */
  datatype Proc = Proc(gseq: nat, limit: nat, phase: Phase)

  datatype Watermark = Missing | Mark(value: nat)

  datatype Issue = Issue(pid: Pid, gseq: nat)

  datatype State = State(
    procs: map<Pid, Proc>,
    lock: set<Pid>,       // the holder of <root>/.gseq.lck, if any
    mark: Watermark,      // <root>/.gseq
    disk: set<nat>,       // gseq values in the event files that evt_max_gseq reads
    issued: seq<Issue>)   // every number handed out so far, in order

  datatype Step =
    | Start(pid: Pid)
    | Crash(pid: Pid)
    | Lock(pid: Pid)
    | Load(pid: Pid, scan: nat)   // `scan` is what evt_max_gseq finds
    | Store(pid: Pid)
    | Unlock(pid: Pid)
    | Adopt(pid: Pid)
    | Take(pid: Pid)
    | Write(event: Issue)         // the event file reaches the disk

  /** The result of a full scan of the event tree. */
  predicate IsMax(disk: set<nat>, m: nat) {
    (forall x :: x in disk ==> x <= m) && (m in disk || m == 0)
  }

  predicate Enabled(s: State, step: Step) {
    match step
    case Start(pid) => pid !in s.procs && forall k :: 0 <= k < |s.issued| ==> s.issued[k].pid != pid
    case Crash(pid) => pid in s.procs
    case Lock(pid) =>
      pid in s.procs && s.procs[pid].phase.Idle? && s.procs[pid].gseq >= s.procs[pid].limit && s.lock == {}
    case Load(pid, scan) => pid in s.procs && s.procs[pid].phase.Locked? && IsMax(s.disk, scan)
    case Store(pid) => pid in s.procs && s.procs[pid].phase.Loaded?
    case Unlock(pid) => pid in s.procs && s.procs[pid].phase.Stored?
    case Adopt(pid) => pid in s.procs && s.procs[pid].phase.Released?
    case Take(pid) => pid in s.procs && s.procs[pid].phase.Idle? && s.procs[pid].gseq < s.procs[pid].limit
    case Write(event) => event in s.issued
  }

  /** The base evt_reserve computes: watermark or scan, but never below the floor. */
  function Base(mark: Watermark, scan: nat, floor: nat): nat {
    var b := if mark.Mark? then mark.value else scan;
    if b < floor then floor else b
  }

  function Apply(s: State, step: Step): State
    requires Enabled(s, step)
  {
    match step
    case Start(pid) => s.(procs := s.procs[pid := Proc(0, 0, Idle)])
    case Crash(pid) => s.(procs := s.procs - {pid}, lock := s.lock - {pid})
    case Lock(pid) => s.(procs := s.procs[pid := s.procs[pid].(phase := Locked)], lock := {pid})
    case Load(pid, scan) =>
      s.(procs := s.procs[pid := s.procs[pid].(phase := Loaded(Base(s.mark, scan, s.procs[pid].gseq)))])
    case Store(pid) =>
      var base := s.procs[pid].phase.base;
      s.(procs := s.procs[pid := s.procs[pid].(phase := Stored(base))], mark := Mark(base + BLOCK))
    case Unlock(pid) =>
      s.(procs := s.procs[pid := s.procs[pid].(phase := Released(s.procs[pid].phase.base))], lock := s.lock - {pid})
    case Adopt(pid) =>
      var base := s.procs[pid].phase.base;
      s.(procs := s.procs[pid := Proc(base, base + BLOCK, Idle)])
    case Take(pid) =>
      var g := s.procs[pid].gseq + 1;
      s.(procs := s.procs[pid := s.procs[pid].(gseq := g)], issued := s.issued + [Issue(pid, g)])
    case Write(event) => s.(disk := s.disk + {event.gseq})
  }

  /** No process, no lock, no watermark; events may be left from before. */
  predicate Init(s: State) {
    s.procs == map[] && s.lock == {} && s.mark == Missing && s.issued == []
  }

  // ---------------------------------------------------------------------------------
  // The invariant

  predicate Pending(p: Proc) {
    p.phase.Stored? || p.phase.Released?
  }

  /** `p` may still hand out `g` without another reservation. */
  predicate Holds(p: Proc, g: nat) {
    if Pending(p) then p.phase.base < g <= p.phase.base + BLOCK else p.gseq < g <= p.limit
  }

  predicate InLock(p: Proc) {
    p.phase.Locked? || p.phase.Loaded? || p.phase.Stored?
  }

  /** What every process satisfies on its own. */
  predicate ProcOk(p: Proc, mark: Watermark, before: nat) {
    && (!p.phase.Idle? ==> p.gseq >= p.limit)
    && (Pending(p) ==> p.gseq <= p.phase.base && before <= p.phase.base)
    && (p.phase.Loaded? ==> && p.gseq <= p.phase.base && before <= p.phase.base
                            && (mark.Mark? ==> mark.value <= p.phase.base))
    && (mark.Missing? ==> p.gseq == p.limit == 0 && !Pending(p))
    && (mark.Mark? ==> && (p.gseq < p.limit ==> p.limit <= mark.value)
                       && (Pending(p) ==> p.phase.base + BLOCK <= mark.value))
    && (p.gseq < p.limit ==> before <= p.gseq)
  }

  predicate ProcsOk(s: State, before: nat) {
    forall p :: p in s.procs ==> ProcOk(s.procs[p], s.mark, before)
  }

  /** The lock is held by whoever is inside the reservation, and by one process at most. */
  ghost predicate LockOk(s: State) {
    && (forall p :: p in s.lock <==> p in s.procs && InLock(s.procs[p]))
    && (forall p, q :: p in s.lock && q in s.lock ==> p == q)
  }

  /** Events on disk stay below the watermark; `before` is the highest from before there was one. */
  predicate DiskOk(s: State, before: nat) {
    && (before in s.disk || before == 0)
    && (s.mark.Mark? ==> before <= s.mark.value)
    && forall x :: x in s.disk ==> x <= if s.mark.Mark? then s.mark.value else before
  }

  /** No two processes hold the same number. */
  ghost predicate Apart(s: State) {
    forall p, q, g :: p in s.procs && q in s.procs && p != q && Holds(s.procs[p], g) ==> !Holds(s.procs[q], g)
  }

  predicate IssuesOk(s: State, before: nat) {
    && (forall k :: 0 <= k < |s.issued| ==> IssueOk(s, before, s.issued[k]))
    && Distinct(s.issued) && Increasing(s.issued)
  }

  ghost predicate Inv(s: State, before: nat) {
    ProcsOk(s, before) && LockOk(s) && DiskOk(s, before) && Apart(s) && IssuesOk(s, before)
  }

  predicate IssueOk(s: State, before: nat, i: Issue) {
    && before < i.gseq && s.mark.Mark? && i.gseq <= s.mark.value
    && (i.pid in s.procs ==> i.gseq <= s.procs[i.pid].gseq)
    && forall p :: p in s.procs ==> !Holds(s.procs[p], i.gseq)
  }

  /** No number is handed out twice. */
  predicate Distinct(issued: seq<Issue>) {
    forall j, k :: 0 <= j < k < |issued| ==> issued[j].gseq != issued[k].gseq
  }

  /** The numbers of one process go up. */
  predicate Increasing(issued: seq<Issue>) {
    forall j, k :: 0 <= j < k < |issued| && issued[j].pid == issued[k].pid ==> issued[j].gseq < issued[k].gseq
  }

  lemma StepKeepsInv(s: State, step: Step, before: nat)
    requires Inv(s, before) && Enabled(s, step)
    ensures Inv(Apply(s, step), before)
  {
    hide Inv;
    match step
    case Start(pid) => StartKeepsInv(s, pid, before);
    case Crash(pid) => CrashKeepsInv(s, pid, before);
    case Lock(pid) => LockKeepsInv(s, pid, before);
    case Load(pid, scan) => LoadKeepsInv(s, pid, scan, before);
    case Store(pid) => StoreKeepsInv(s, pid, before);
    case Unlock(pid) => UnlockKeepsInv(s, pid, before);
    case Adopt(pid) => AdoptKeepsInv(s, pid, before);
    case Take(pid) => TakeKeepsInv(s, pid, before);
    case Write(event) => WriteKeepsInv(s, event, before);
  }

  /** The process `pid` may change as long as it takes hold of no number that was handed out or is
      held elsewhere. */
  lemma ChangeKeeps(s: State, t: State, pid: Pid, before: nat)
    requires Inv(s, before) && pid in t.procs && t.issued == s.issued
    requires forall p :: p in t.procs && p != pid ==> p in s.procs && t.procs[p] == s.procs[p]
    requires forall p :: p in s.procs ==> p in t.procs
    requires t.mark == s.mark || (t.mark.Mark? && (s.mark.Mark? ==> s.mark.value <= t.mark.value))
    requires forall g: nat :: Holds(t.procs[pid], g) ==>
               (pid in s.procs && Holds(s.procs[pid], g)) || g > (if s.mark.Mark? then s.mark.value else 0)
    requires forall k :: 0 <= k < |s.issued| && s.issued[k].pid == pid ==> s.issued[k].gseq <= t.procs[pid].gseq
    ensures Apart(t) && IssuesOk(t, before)
  {
    hide DiskOk, LockOk, Distinct, Increasing;
    forall p, g: nat | p in s.procs && Holds(s.procs[p], g) ensures s.mark.Mark? && g <= s.mark.value {
      assert ProcOk(s.procs[p], s.mark, before);
    }
    hide ProcsOk;
    forall k | 0 <= k < |t.issued| ensures IssueOk(t, before, t.issued[k]) {
      assert IssueOk(s, before, s.issued[k]);
    }
  }

  lemma StartKeepsInv(s: State, pid: Pid, before: nat)
    requires Inv(s, before) && Enabled(s, Start(pid))
    ensures Inv(Apply(s, Start(pid)), before)
  {
    ChangeKeeps(s, Apply(s, Start(pid)), pid, before);
    hide Apart, IssuesOk, Holds;
  }

  lemma CrashKeepsInv(s: State, pid: Pid, before: nat)
    requires Inv(s, before) && Enabled(s, Crash(pid))
    ensures Inv(Apply(s, Crash(pid)), before)
  {
    hide Distinct, Increasing, ProcOk, Holds;
    var t := Apply(s, Crash(pid));
    assert Apart(t) by { hide LockOk, IssuesOk; }
    hide Apart;
    forall k | 0 <= k < |t.issued| ensures IssueOk(t, before, t.issued[k]) {
      assert IssueOk(s, before, s.issued[k]);
    }
  }

  lemma LockKeepsInv(s: State, pid: Pid, before: nat)
    requires Inv(s, before) && Enabled(s, Lock(pid))
    ensures Inv(Apply(s, Lock(pid)), before)
  {
    IssuedSoFar(s, pid, before);
    ChangeKeeps(s, Apply(s, Lock(pid)), pid, before);
    hide Apart, IssuesOk, Holds;
  }

  lemma LoadKeepsInv(s: State, pid: Pid, scan: nat, before: nat)
    requires Inv(s, before) && Enabled(s, Load(pid, scan))
    ensures Inv(Apply(s, Load(pid, scan)), before)
  {
    IssuedSoFar(s, pid, before);
    ChangeKeeps(s, Apply(s, Load(pid, scan)), pid, before);
    hide Apart, IssuesOk, Holds;
  }

  lemma StoreKeepsInv(s: State, pid: Pid, before: nat)
    requires Inv(s, before) && Enabled(s, Store(pid))
    ensures Inv(Apply(s, Store(pid)), before)
  {
    var t := Apply(s, Store(pid));
    IssuedSoFar(s, pid, before);
    assert ProcOk(s.procs[pid], s.mark, before);
    ChangeKeeps(s, t, pid, before);
    hide Apart, IssuesOk, Holds;
    assert LockOk(t) && DiskOk(t, before);
    forall p | p in t.procs ensures ProcOk(t.procs[p], t.mark, before) {
      assert ProcOk(s.procs[p], s.mark, before);
      assert p != pid ==> p !in s.lock;
    }
  }

  lemma UnlockKeepsInv(s: State, pid: Pid, before: nat)
    requires Inv(s, before) && Enabled(s, Unlock(pid))
    ensures Inv(Apply(s, Unlock(pid)), before)
  {
    IssuedSoFar(s, pid, before);
    ChangeKeeps(s, Apply(s, Unlock(pid)), pid, before);
    hide Apart, IssuesOk, Holds;
  }

  lemma AdoptKeepsInv(s: State, pid: Pid, before: nat)
    requires Inv(s, before) && Enabled(s, Adopt(pid))
    ensures Inv(Apply(s, Adopt(pid)), before)
  {
    IssuedSoFar(s, pid, before);
    assert ProcOk(s.procs[pid], s.mark, before);
    ChangeKeeps(s, Apply(s, Adopt(pid)), pid, before);
    hide Apart, IssuesOk, Holds;
  }

  /** A process has handed out nothing above where it stands. */
  lemma IssuedSoFar(s: State, pid: Pid, before: nat)
    requires Inv(s, before) && pid in s.procs
    ensures forall k :: 0 <= k < |s.issued| && s.issued[k].pid == pid ==> s.issued[k].gseq <= s.procs[pid].gseq
  {
    hide Apart, Distinct, Increasing, Holds, ProcsOk, LockOk;
    forall k | 0 <= k < |s.issued| && s.issued[k].pid == pid ensures s.issued[k].gseq <= s.procs[pid].gseq {
      assert IssueOk(s, before, s.issued[k]);
    }
  }

  lemma TakeKeepsInv(s: State, pid: Pid, before: nat)
    requires Inv(s, before) && Enabled(s, Take(pid))
    ensures Inv(Apply(s, Take(pid)), before)
  {
    var t := Apply(s, Take(pid));
    TakeIssues(s, pid, before);
    hide IssuesOk;
    assert Apart(t) by {
      assert forall g: nat :: Holds(t.procs[pid], g) ==> Holds(s.procs[pid], g);
      assert forall p :: p in s.procs && p != pid ==> t.procs[p] == s.procs[p];
      hide Holds;
    }
    hide Apart, Holds;
  }

  lemma TakeIssues(s: State, pid: Pid, before: nat)
    requires Inv(s, before) && Enabled(s, Take(pid))
    ensures IssuesOk(Apply(s, Take(pid)), before)
  {
    var t := Apply(s, Take(pid));
    var g := s.procs[pid].gseq + 1;
    assert Holds(s.procs[pid], g);
    forall k | 0 <= k < |s.issued| ensures s.issued[k].gseq != g && IssueOk(t, before, s.issued[k]) {
      assert IssueOk(s, before, s.issued[k]);
      OldIssueOk(s, pid, before, s.issued[k]);
    }
    hide Holds;
    IssuedSoFar(s, pid, before);
    IssuedAppend(s.issued, Issue(pid, g));
    NewIssueOk(s, pid, before);
    hide Distinct, Increasing, IssueOk;
  }

  lemma IssuedAppend(issued: seq<Issue>, i: Issue)
    requires Distinct(issued) && Increasing(issued)
    requires forall k :: 0 <= k < |issued| ==> issued[k].gseq != i.gseq
    requires forall k :: 0 <= k < |issued| && issued[k].pid == i.pid ==> issued[k].gseq < i.gseq
    ensures Distinct(issued + [i]) && Increasing(issued + [i])
  {
  }

  lemma OldIssueOk(s: State, pid: Pid, before: nat, i: Issue)
    requires Enabled(s, Take(pid)) && IssueOk(s, before, i)
    ensures IssueOk(Apply(s, Take(pid)), before, i)
  {
    var t := Apply(s, Take(pid));
    forall p | p in t.procs ensures !Holds(t.procs[p], i.gseq) {
      assert !Holds(s.procs[p], i.gseq);
    }
  }

  lemma NewIssueOk(s: State, pid: Pid, before: nat)
    requires Inv(s, before) && Enabled(s, Take(pid))
    ensures IssueOk(Apply(s, Take(pid)), before, Issue(pid, s.procs[pid].gseq + 1))
  {
    hide IssuesOk, LockOk;
    var t, g := Apply(s, Take(pid)), s.procs[pid].gseq + 1;
    assert Holds(s.procs[pid], g) && ProcOk(s.procs[pid], s.mark, before);
    forall p | p in t.procs ensures !Holds(t.procs[p], g) {
      if p != pid { assert t.procs[p] == s.procs[p] && !Holds(s.procs[p], g); }
    }
  }

  lemma WriteKeepsInv(s: State, event: Issue, before: nat)
    requires Inv(s, before) && Enabled(s, Write(event))
    ensures Inv(Apply(s, Write(event)), before)
  {
    hide Distinct, Increasing, Holds, ProcOk;
    assert IssueOk(s, before, event);
    forall k | 0 <= k < |s.issued| ensures IssueOk(Apply(s, Write(event)), before, s.issued[k]) {
      assert IssueOk(s, before, s.issued[k]);
    }
  }

  // ---------------------------------------------------------------------------------
  // Whole runs

  /** `run` is an execution: a start state and one state after every step. */
  ghost predicate IsRun(run: seq<State>, steps: seq<Step>) {
    && |run| == |steps| + 1 && Init(run[0])
    && forall k :: 0 <= k < |steps| ==> Enabled(run[k], steps[k]) && run[k + 1] == Apply(run[k], steps[k])
  }

  lemma {:induction false} RunKeepsInv(run: seq<State>, steps: seq<Step>, before: nat, k: nat)
    requires IsRun(run, steps) && IsMax(run[0].disk, before) && k < |run|
    ensures Inv(run[k], before)
    decreases k
  {
    if k > 0 {
      RunKeepsInv(run, steps, before, k - 1);
      StepKeepsInv(run[k - 1], steps[k - 1], before);
    }
  }

  /** Over every run, whatever the interleaving and the crashes: no number is handed out
      twice, the numbers of one process go up, and all lie above every event the scan could
      read before the watermark existed. */
  lemma NumbersAreUnique(run: seq<State>, steps: seq<Step>, before: nat)
    requires IsRun(run, steps) && IsMax(run[0].disk, before)
    ensures var issued := run[|run| - 1].issued;
            && Distinct(issued) && Increasing(issued)
            && forall k :: 0 <= k < |issued| ==> issued[k].gseq > before
  {
    RunKeepsInv(run, steps, before, |run| - 1);
    var last := run[|run| - 1];
    forall k | 0 <= k < |last.issued| ensures last.issued[k].gseq > before {
      assert IssueOk(last, before, last.issued[k]);
    }
  }

  /** The lock really excludes: two processes are never inside the critical section. */
  lemma ReservationsExclude(run: seq<State>, steps: seq<Step>, before: nat, k: nat, p: Pid, q: Pid)
    requires IsRun(run, steps) && IsMax(run[0].disk, before) && k < |run|
    requires p in run[k].procs && q in run[k].procs && InLock(run[k].procs[p]) && InLock(run[k].procs[q])
    ensures p == q
  {
    RunKeepsInv(run, steps, before, k);
  }

  // ---------------------------------------------------------------------------------
  // One call of evt_next_gseq, undisturbed

  ghost predicate Runs(s: State, steps: seq<Step>, t: State)
    decreases |steps|
  {
    if steps == [] then s == t else Enabled(s, steps[0]) && Runs(Apply(s, steps[0]), steps[1..], t)
  }

  /** The steps of a call: a reservation if the block is used up, then one number. */
  function CallSteps(s: State, pid: Pid, scan: nat): seq<Step>
    requires pid in s.procs
  {
    if s.procs[pid].gseq < s.procs[pid].limit then [Take(pid)]
    else [Lock(pid), Load(pid, scan), Store(pid), Unlock(pid), Adopt(pid), Take(pid)]
  }

  /** The state a call leaves behind. */
  function AfterCall(s: State, pid: Pid, scan: nat): State
    requires pid in s.procs
  {
    var p := s.procs[pid];
    if p.gseq < p.limit then
      s.(procs := s.procs[pid := p.(gseq := p.gseq + 1)], issued := s.issued + [Issue(pid, p.gseq + 1)])
    else
      var base := Base(s.mark, scan, p.gseq);
      s.(procs := s.procs[pid := Proc(base + 1, base + BLOCK, Idle)], mark := Mark(base + BLOCK),
         issued := s.issued + [Issue(pid, base + 1)])
  }

  lemma RunsStep(s: State, steps: seq<Step>, t: State)
    requires steps != [] && Enabled(s, steps[0]) && Runs(Apply(s, steps[0]), steps[1..], t)
    ensures Runs(s, steps, t)
  {
  }

  lemma RunsDone(t: State)
    ensures Runs(t, [], t)
  {
  }

  lemma CallRuns(s: State, pid: Pid, scan: nat)
    requires pid in s.procs && s.procs[pid].phase.Idle? && s.lock == {} && IsMax(s.disk, scan)
    ensures Runs(s, CallSteps(s, pid, scan), AfterCall(s, pid, scan))
  {
    hide Runs;
    if s.procs[pid].gseq < s.procs[pid].limit {
      var t := Apply(s, Take(pid));
      RunsDone(t);
      assert [Take(pid)][1..] == [];
      RunsStep(s, [Take(pid)], t);
    } else {
      ReserveRuns(s, pid, scan);
    }
  }

  lemma ReserveRuns(s: State, pid: Pid, scan: nat)
    requires pid in s.procs && s.procs[pid].phase.Idle? && s.lock == {} && IsMax(s.disk, scan)
    requires s.procs[pid].gseq >= s.procs[pid].limit
    ensures Runs(s, CallSteps(s, pid, scan), AfterCall(s, pid, scan))
  {
    hide Runs;
    var steps := CallSteps(s, pid, scan);
    var t := AfterCall(s, pid, scan);
    var s1 := Apply(s, Lock(pid));
    var s2 := Apply(s1, Load(pid, scan));
    var s3 := Apply(s2, Store(pid));
    StoredRuns(s3, pid);
    SameProcs(s.procs, s3.procs, pid, AfterStored(s3, pid).procs[pid]);
    assert AfterStored(s3, pid) == t;
    assert steps[3..] == [Unlock(pid), Adopt(pid), Take(pid)];
    RunsStep(s2, steps[2..], t);
    RunsStep(s1, steps[1..], t);
    RunsStep(s, steps, t);
  }

  lemma SameProcs(m: map<Pid, Proc>, n: map<Pid, Proc>, pid: Pid, p: Proc)
    requires pid in m && pid in n && n == m[pid := n[pid]]
    ensures n[pid := p] == m[pid := p]
  {
  }

  function AfterStored(s: State, pid: Pid): State
    requires pid in s.procs && s.procs[pid].phase.Stored?
  {
    var base := s.procs[pid].phase.base;
    s.(procs := s.procs[pid := Proc(base + 1, base + BLOCK, Idle)], lock := s.lock - {pid},
       issued := s.issued + [Issue(pid, base + 1)])
  }

  lemma StoredRuns(s: State, pid: Pid)
    requires pid in s.procs && s.procs[pid].phase.Stored?
    ensures Runs(s, [Unlock(pid), Adopt(pid), Take(pid)], AfterStored(s, pid))
  {
    var steps := [Unlock(pid), Adopt(pid), Take(pid)];
    var s1 := Apply(s, Unlock(pid));
    var s2 := Apply(s1, Adopt(pid));
    var t := Apply(s2, Take(pid));
    assert t == AfterStored(s, pid);
    hide Runs;
    RunsDone(t);
    assert steps[3..] == [];
    RunsStep(s2, steps[2..], t);
    RunsStep(s1, steps[1..], t);
    RunsStep(s, steps, t);
  }

  // ---------------------------------------------------------------------------------
  // When the watermark must survive

  ghost predicate Leads(s: State, t: State) {
    exists steps :: Runs(s, steps, t)
  }

  lemma {:induction false} RunsJoin(s: State, a: seq<Step>, t: State, b: seq<Step>, u: State)
    requires Runs(s, a, t) && Runs(t, b, u)
    ensures Runs(s, a + b, u)
    decreases |a|
  {
    if a == [] {
      assert a + b == b;
    } else {
      RunsJoin(Apply(s, a[0]), a[1..], t, b, u);
      assert (a + b)[1..] == a[1..] + b;
    }
  }

  lemma LeadsTo(s: State, step: Step, t: State)
    requires Enabled(s, step) && Leads(Apply(s, step), t)
    ensures Leads(s, t)
  {
    var steps :| Runs(Apply(s, step), steps, t);
    assert ([step] + steps)[1..] == steps;
    RunsStep(s, [step] + steps, t);
  }

  lemma LeadsOn(s: State, t: State, u: State)
    requires Leads(s, t) && Leads(t, u)
    ensures Leads(s, u)
  {
    var a :| Runs(s, a, t);
    var b :| Runs(t, b, u);
    RunsJoin(s, a, t, b, u);
  }

  lemma LeadsHere(s: State)
    ensures Leads(s, s)
  {
    assert Runs(s, [], s);
  }

  predicate WasIssued(s: State, g: nat) {
    exists k :: 0 <= k < |s.issued| && s.issued[k].gseq == g
  }

  predicate IsHeld(s: State, g: nat) {
    exists p :: p in s.procs && Holds(s.procs[p], g)
  }

  /** Some number above everything on disk has been handed out, or is held to be handed out. */
  ghost predicate Exposed(s: State) {
    exists g: nat :: (WasIssued(s, g) || IsHeld(s, g)) && forall x :: x in s.disk ==> x < g
  }

  /** Some continuation hands out a number twice. */
  ghost predicate CanRepeat(s: State) {
    exists t :: Leads(s, t) && !Distinct(t.issued)
  }

  function Lost(s: State): State {
    s.(mark := Missing)
  }

  // ----- A harmless loss -----

  /** Without a watermark the scan stands in for it as long as nothing in use is above the disk. */
  function AsIf(s: State, m: nat): State {
    if s.mark.Missing? then s.(mark := Mark(m)) else s
  }

  ghost predicate Covered(s: State, m: nat, before: nat) {
    Inv(AsIf(s, m), before) && (s.mark.Missing? ==> IsMax(s.disk, m))
  }

  lemma LostIsCovered(s: State, m: nat, before: nat)
    requires Inv(s, before) && !Exposed(s) && IsMax(s.disk, m)
    ensures Covered(Lost(s), m, before)
  {
    var t := AsIf(Lost(s), m);
    NothingAbove(s, m, before);
    hide Exposed, WasIssued, IsHeld, Distinct, Increasing;
    forall p | p in t.procs ensures ProcOk(t.procs[p], t.mark, before) {
      assert ProcOk(s.procs[p], s.mark, before);
      assert t.procs[p].gseq < t.procs[p].limit ==> Pending(t.procs[p]) || Holds(t.procs[p], t.procs[p].limit);
      assert Pending(t.procs[p]) ==> Holds(t.procs[p], t.procs[p].phase.base + BLOCK);
    }
    hide Holds, ProcOk;
    forall k | 0 <= k < |t.issued| ensures IssueOk(t, before, t.issued[k]) {
      assert IssueOk(s, before, s.issued[k]);
    }
  }

  lemma NothingAbove(s: State, m: nat, before: nat)
    requires Inv(s, before) && !Exposed(s) && IsMax(s.disk, m)
    ensures forall k :: 0 <= k < |s.issued| ==> s.issued[k].gseq <= m
    ensures forall p, g: nat :: p in s.procs && Holds(s.procs[p], g) ==> g <= m
  {
    hide Apart, LockOk, ProcsOk, Distinct, Increasing;
    forall g: nat | WasIssued(s, g) || IsHeld(s, g) ensures g <= m {
      var x :| x in s.disk && g <= x;
    }
    forall k | 0 <= k < |s.issued| ensures s.issued[k].gseq <= m {
      assert WasIssued(s, s.issued[k].gseq);
    }
    forall p, g: nat | p in s.procs && Holds(s.procs[p], g) ensures g <= m {
      assert IsHeld(s, g);
    }
  }

  /** Every step does to the state what it would do to one with a watermark. */
  lemma CoveredStep(s: State, step: Step, m: nat, before: nat)
    requires Covered(s, m, before) && Enabled(s, step)
    ensures Covered(Apply(s, step), m, before)
  {
    assert Enabled(AsIf(s, m), step) && Apply(AsIf(s, m), step) == AsIf(Apply(s, step), m) by {
      hide Inv, IsMax;
      if step.Load? && s.mark.Missing? { SameMax(s.disk, m, step.scan); }
    }
    StepKeepsInv(AsIf(s, m), step, before);
    if step.Write? && s.mark.Missing? {
      assert IssueOk(AsIf(s, m), before, step.event);
    }
    hide Inv;
  }

  lemma SameMax(disk: set<nat>, m: nat, n: nat)
    requires IsMax(disk, m) && IsMax(disk, n)
    ensures m == n
  {
  }

  lemma {:induction false} CoveredRuns(s: State, steps: seq<Step>, t: State, m: nat, before: nat)
    requires Covered(s, m, before) && Runs(s, steps, t)
    ensures Distinct(t.issued)
    decreases |steps|
  {
    if steps != [] {
      hide Covered;
      CoveredStep(s, steps[0], m, before);
      CoveredRuns(Apply(s, steps[0]), steps[1..], t, m, before);
    }
  }

  // ----- A loss that shows -----

  lemma {:induction false} MaxOf(disk: set<nat>) returns (m: nat)
    ensures IsMax(disk, m)
  {
    if disk == {} {
      m := 0;
    } else {
      var x :| x in disk;
      m := MaxOf(disk - {x});
      if m < x { m := x; }
      assert disk == disk - {x} + {x};
    }
  }

  /** A process that has not been there yet. */
  lemma NewPid(s: State) returns (q: Pid)
    ensures Enabled(s, Start(q))
  {
    var used := s.procs.Keys + set k | 0 <= k < |s.issued| :: s.issued[k].pid;
    var m := MaxOf(used);
    q := m + 1;
    forall k | 0 <= k < |s.issued| ensures s.issued[k].pid != q {
      assert s.issued[k].pid in used;
    }
  }

  /** Whoever is inside the reservation gets out, or crashes if it holds nothing. */
  lemma LockGetsFree(s: State, before: nat) returns (t: State)
    requires Inv(s, before)
    ensures Leads(Lost(s), t) && t.lock == {} && t.mark == Missing && t.disk == s.disk && t.issued == s.issued
    ensures forall p, g: nat :: p in s.procs && Holds(s.procs[p], g) ==>
              p in t.procs && Holds(t.procs[p], g) && (t.procs[p].phase.Idle? || t.procs[p].phase.Released?)
  {
    hide Leads, Apart, IssuesOk, DiskOk;
    t := Lost(s);
    LeadsHere(t);
    if s.lock != {} {
      var p :| p in s.lock;
      var step := if s.procs[p].phase.Stored? then Unlock(p) else Crash(p);
      t := Apply(t, step);
      LeadsHere(t);
      LeadsTo(Lost(s), step, t);
      assert ProcOk(s.procs[p], s.mark, before);
      assert s.lock == {p};
    }
  }

  /** A process takes the numbers it holds one by one. */
  lemma {:induction false} TakesHeld(s: State, p: Pid, g: nat) returns (t: State)
    requires p in s.procs && (s.procs[p].phase.Idle? || s.procs[p].phase.Released?) && Holds(s.procs[p], g)
    ensures Leads(s, t) && WasIssued(t, g) && t.lock == s.lock && t.mark == s.mark && t.disk == s.disk
    decreases s.procs[p].phase.Released?, g - s.procs[p].gseq
  {
    hide Leads;
    var step := if s.procs[p].phase.Released? then Adopt(p) else Take(p);
    var next := Apply(s, step);
    LeadsHere(next);
    if step.Take? && g == s.procs[p].gseq + 1 {
      t := next;
      assert t.issued[|s.issued|].gseq == g;
    } else {
      t := TakesHeld(next, p, g);
    }
    LeadsTo(s, step, t);
  }

  /** A process that reserves alone takes every number in turn. */
  lemma {:induction false} TakesUpTo(s: State, q: Pid, g: nat, scan: nat) returns (t: State)
    requires q in s.procs && s.lock == {} && IsMax(s.disk, scan) && s.procs[q].phase.Idle?
    requires s.procs[q].gseq <= s.procs[q].limit && s.mark == Mark(s.procs[q].limit) && s.procs[q].gseq < g
    ensures Leads(s, t) && |s.issued| < |t.issued| && s.issued == t.issued[..|s.issued|]
    ensures exists k :: |s.issued| <= k < |t.issued| && t.issued[k].gseq == g
    decreases g - s.procs[q].gseq
  {
    hide Leads, CallSteps, Runs;
    CallRuns(s, q, scan);
    var next := AfterCall(s, q, scan);
    assert Leads(s, next) by { assert Runs(s, CallSteps(s, q, scan), next); LeadsBy(s, CallSteps(s, q, scan), next); }
    if g == s.procs[q].gseq + 1 {
      t := next;
      assert t.issued[|s.issued|].gseq == g;
    } else {
      t := TakesUpTo(next, q, g, scan);
      LeadsOn(s, next, t);
      assert t.issued[..|s.issued|] == t.issued[..|next.issued|][..|s.issued|];
    }
  }

  lemma LeadsBy(s: State, steps: seq<Step>, t: State)
    requires Runs(s, steps, t)
    ensures Leads(s, t)
  {
  }

  /** From a state without watermark and lock a new process reaches every number above the disk. */
  lemma NewcomerReaches(s: State, g: nat, scan: nat) returns (t: State)
    requires s.mark == Missing && s.lock == {} && IsMax(s.disk, scan) && scan < g
    ensures Leads(s, t) && |s.issued| < |t.issued| && s.issued == t.issued[..|s.issued|]
    ensures exists k :: |s.issued| <= k < |t.issued| && t.issued[k].gseq == g
  {
    hide Leads, Runs;
    var q := NewPid(s);
    var s1 := Apply(s, Start(q));
    CallRuns(s1, q, scan);
    var s2 := AfterCall(s1, q, scan);
    LeadsBy(s1, CallSteps(s1, q, scan), s2);
    LeadsTo(s, Start(q), s2);
    if g == scan + 1 {
      t := s2;
      assert t.issued[|s.issued|].gseq == g;
    } else {
      t := TakesUpTo(s2, q, g, scan);
      LeadsOn(s, s2, t);
      assert t.issued[..|s.issued|] == t.issued[..|s2.issued|][..|s.issued|];
    }
  }

  /** If a number above the disk is in use when the watermark is lost, it can be handed out again. */
  lemma LostWatermarkRepeats(s: State, before: nat)
    requires Inv(s, before) && Exposed(s)
    ensures CanRepeat(Lost(s))
  {
    hide Leads, Inv, Holds;
    var g: nat :| (WasIssued(s, g) || IsHeld(s, g)) && forall x :: x in s.disk ==> x < g;
    var scan := MaxOf(s.disk);
    var s1 := LockGetsFree(s, before);
    var s2 := s1;
    if !WasIssued(s, g) {
      var p :| p in s.procs && Holds(s.procs[p], g);
      s2 := TakesHeld(s1, p, g);
      LeadsOn(Lost(s), s1, s2);
    }
    assert scan < g by { InUsePositive(s, g, before); }
    var k :| 0 <= k < |s2.issued| && s2.issued[k].gseq == g;
    var t := NewcomerReaches(s2, g, scan);
    LeadsOn(Lost(s), s2, t);
    assert t.issued[k] == s2.issued[k];
  }

  lemma InUsePositive(s: State, g: nat, before: nat)
    requires Inv(s, before) && (WasIssued(s, g) || IsHeld(s, g))
    ensures g > 0
  {
    if WasIssued(s, g) {
      var k :| 0 <= k < |s.issued| && s.issued[k].gseq == g;
      assert IssueOk(s, before, s.issued[k]);
    }
  }

  /** Losing the watermark lets a number repeat in some continuation exactly when a number above
      everything on disk is issued or held at that moment. */
  lemma LossRepeatsIff(s: State, before: nat)
    requires Inv(s, before)
    ensures CanRepeat(Lost(s)) <==> Exposed(s)
  {
    hide Inv, Exposed, Covered;
    if Exposed(s) {
      LostWatermarkRepeats(s, before);
    } else {
      var m := MaxOf(s.disk);
      LostIsCovered(s, m, before);
      forall steps, t | Runs(Lost(s), steps, t) ensures Distinct(t.issued) {
        CoveredRuns(Lost(s), steps, t, m, before);
      }
    }
  }
}

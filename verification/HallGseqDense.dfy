/**
 What a run without crashes does with its numbers: it skips none, and every reservation moves the
 watermark up by exactly one block.
 */
module HallGseqDense {
  import opened HallGseq

  /** The highest number reserved so far. */
  function Top(s: State, before: nat): nat {
    if s.mark.Mark? then s.mark.value else before
  }

  predicate InUse(s: State, g: nat) {
    WasIssued(s, g) || IsHeld(s, g)
  }

  /** Where every process stands, and that no reserved number is lost. */
  ghost predicate Dense(s: State, before: nat) {
    && (forall p :: p in s.procs ==> s.procs[p].gseq <= Top(s, before))
    && (forall p :: p in s.procs && s.procs[p].phase.Loaded? ==> s.procs[p].phase.base == Top(s, before))
    && forall g: nat :: before < g <= Top(s, before) ==> InUse(s, g)
  }

  /** A step that issues nothing and lets no process lose a number keeps what is in use. */
  lemma InUseKept(s: State, t: State, g: nat)
    requires InUse(s, g) && t.issued == s.issued
    requires forall p :: p in s.procs && Holds(s.procs[p], g) ==> p in t.procs && Holds(t.procs[p], g)
    ensures InUse(t, g)
  {
  }

  lemma TakeKeepsInUse(s: State, pid: Pid, g: nat)
    requires Enabled(s, Take(pid)) && InUse(s, g)
    ensures InUse(Apply(s, Take(pid)), g)
  {
    var t := Apply(s, Take(pid));
    if k :| 0 <= k < |s.issued| && s.issued[k].gseq == g {
      assert t.issued[k].gseq == g;
    } else {
      var p :| p in s.procs && Holds(s.procs[p], g);
      if p == pid && g == s.procs[pid].gseq + 1 {
        assert t.issued[|s.issued|].gseq == g;
      } else {
        assert p in t.procs && Holds(t.procs[p], g);
      }
    }
  }

  lemma LoadReadsTop(s: State, pid: Pid, scan: nat, before: nat)
    requires Inv(s, before) && Dense(s, before) && Enabled(s, Load(pid, scan))
    ensures Base(s.mark, scan, s.procs[pid].gseq) == Top(s, before)
  {
    hide Apart, IssuesOk, LockOk, InUse;
    assert ProcOk(s.procs[pid], s.mark, before);
    if s.mark.Missing? {
      SameMax(s.disk, scan, before);
    }
  }

  /** The store adds one block to the numbers in use. */
  lemma StoreIsDense(s: State, pid: Pid, before: nat)
    requires Inv(s, before) && Dense(s, before) && Enabled(s, Store(pid))
    ensures Dense(Apply(s, Store(pid)), before)
    ensures Top(Apply(s, Store(pid)), before) == Top(s, before) + BLOCK
  {
    hide Apart, IssuesOk, DiskOk;
    var t := Apply(s, Store(pid));
    assert ProcOk(s.procs[pid], s.mark, before);
    forall g: nat | before < g <= Top(t, before) ensures InUse(t, g) {
      if g <= Top(s, before) {
        InUseKept(s, t, g);
      } else {
        assert Holds(t.procs[pid], g);
      }
    }
    hide InUse, ProcOk;
    assert pid in s.lock;
    assert forall p :: p in s.procs && p != pid ==> !InLock(s.procs[p]);
  }

  lemma StepIsDense(s: State, step: Step, before: nat)
    requires Inv(s, before) && Dense(s, before) && Enabled(s, step) && !step.Crash?
    ensures Dense(Apply(s, step), before)
    ensures Top(Apply(s, step), before) == Top(s, before) + if step.Store? then BLOCK else 0
  {
    hide Inv, InUse;
    var t := Apply(s, step);
    if step.Store? {
      StoreIsDense(s, step.pid, before);
    } else {
      if step.Take? {
        TakeInRange(s, step.pid, before);
      } else if step.Load? {
        LoadReadsTop(s, step.pid, step.scan, before);
      } else if step.Adopt? {
        AdoptInRange(s, step.pid, before);
      }
      forall g: nat | before < g <= Top(t, before) ensures InUse(t, g) {
        if step.Take? {
          TakeKeepsInUse(s, step.pid, g);
        } else {
          QuietKeepsInUse(s, step, before, g);
        }
      }
    }
  }

  lemma TakeInRange(s: State, pid: Pid, before: nat)
    requires Inv(s, before) && Enabled(s, Take(pid))
    ensures s.mark.Mark? && s.procs[pid].gseq < s.mark.value
  {
    assert ProcOk(s.procs[pid], s.mark, before);
  }

  lemma AdoptInRange(s: State, pid: Pid, before: nat)
    requires Inv(s, before) && Enabled(s, Adopt(pid))
    ensures s.mark.Mark? && s.procs[pid].phase.base <= s.mark.value
  {
    assert ProcOk(s.procs[pid], s.mark, before);
  }

  lemma QuietKeepsInUse(s: State, step: Step, before: nat, g: nat)
    requires Inv(s, before) && Enabled(s, step) && InUse(s, g)
    requires !step.Crash? && !step.Store? && !step.Take?
    ensures InUse(Apply(s, step), g)
  {
    hide Apart, IssuesOk, DiskOk, LockOk, InUse;
    var t := Apply(s, step);
    forall p | p in s.procs && Holds(s.procs[p], g) ensures p in t.procs && Holds(t.procs[p], g) {
      assert ProcOk(s.procs[p], s.mark, before);
    }
    InUseKept(s, t, g);
  }

  /** How many reservations the steps store. */
  function Stores(steps: seq<Step>): nat {
    if steps == [] then 0 else Stores(steps[..|steps| - 1]) + if steps[|steps| - 1].Store? then 1 else 0
  }

  lemma {:induction false} RunIsDense(run: seq<State>, steps: seq<Step>, before: nat, k: nat)
    requires IsRun(run, steps) && IsMax(run[0].disk, before) && k < |run|
    requires forall j :: 0 <= j < k ==> !steps[j].Crash?
    ensures Dense(run[k], before) && Top(run[k], before) == before + BLOCK * Stores(steps[..k])
    decreases k
  {
    hide Dense;
    if k == 0 {
      assert Dense(run[0], before) by { StartIsDense(run[0], before); }
      assert Stores(steps[..0]) == 0;
    } else {
      RunIsDense(run, steps, before, k - 1);
      RunKeepsInv(run, steps, before, k - 1);
      StepIsDense(run[k - 1], steps[k - 1], before);
      assert steps[..k][..k - 1] == steps[..k - 1];
    }
  }

  lemma StartIsDense(s: State, before: nat)
    requires Init(s)
    ensures Dense(s, before)
  {
  }

  /** Without crashes no number is skipped: all numbers above the old events, up to a block for every
      reservation stored, are handed out or held by a process that will hand them out. */
  lemma NoNumberSkipped(run: seq<State>, steps: seq<Step>, before: nat)
    requires IsRun(run, steps) && IsMax(run[0].disk, before) && forall j :: 0 <= j < |steps| ==> !steps[j].Crash?
    ensures var s, top := run[|run| - 1], before + BLOCK * Stores(steps);
            forall g: nat :: InUse(s, g) <==> before < g <= top
  {
    var s := run[|run| - 1];
    RunIsDense(run, steps, before, |run| - 1);
    RunKeepsInv(run, steps, before, |run| - 1);
    assert steps[..|steps|] == steps;
    forall g: nat | InUse(s, g) ensures before < g <= Top(s, before) { UseInRange(s, before, g); }
  }

  lemma UseInRange(s: State, before: nat, g: nat)
    requires Inv(s, before) && InUse(s, g)
    ensures before < g <= Top(s, before)
  {
    hide Apart, LockOk, Distinct, Increasing;
    if WasIssued(s, g) {
      var k :| 0 <= k < |s.issued| && s.issued[k].gseq == g;
      assert IssueOk(s, before, s.issued[k]);
    } else {
      var p :| p in s.procs && Holds(s.procs[p], g);
      assert ProcOk(s.procs[p], s.mark, before);
    }
  }

  /** A reservation once begun can always be finished by the process itself, which frees the lock. */
  lemma {:induction false} ReservationEnds(s: State, pid: Pid, before: nat) returns (steps: seq<Step>, t: State)
    requires Inv(s, before) && pid in s.procs && InLock(s.procs[pid])
    ensures Runs(s, steps, t) && forall k :: 0 <= k < |steps| ==> steps[k] != Crash(pid) && OfPid(steps[k], pid)
    ensures t.lock == {} && t.mark.Mark? && t.issued == s.issued && t.disk == s.disk
    ensures pid in t.procs && t.procs[pid].phase.Released?
    decreases StepsLeft(s.procs[pid].phase)
  {
    var step := Unlock(pid);
    if s.procs[pid].phase.Locked? {
      var scan := MaxOf(s.disk);
      step := Load(pid, scan);
    } else if s.procs[pid].phase.Loaded? {
      step := Store(pid);
    }
    hide Runs, Inv, IsMax;
    var next := Apply(s, step);
    StepKeepsInv(s, step, before);
    var rest := [];
    t := next;
    if step.Unlock? {
      UnlockFrees(s, pid, before);
      RunsDone(next);
    } else {
      rest, t := ReservationEnds(next, pid, before);
    }
    steps := [step] + rest;
    assert steps[1..] == rest;
    RunsStep(s, steps, t);
  }

  predicate OfPid(step: Step, pid: Pid) {
    !step.Write? && step.pid == pid
  }

  function StepsLeft(p: Phase): nat {
    match p case Locked => 3 case Loaded(_) => 2 case Stored(_) => 1 case _ => 0
  }

  lemma UnlockFrees(s: State, pid: Pid, before: nat)
    requires Inv(s, before) && Enabled(s, Unlock(pid))
    ensures Apply(s, Unlock(pid)).lock == {} && s.mark.Mark?
  {
    assert pid in s.lock && ProcOk(s.procs[pid], s.mark, before);
    assert forall p :: p in s.lock ==> p == pid;
  }
}

/**
 The Windows reader-writer lock of platform/src/platform_sync.c: an SRW lock plus a state
 word that is updated in separate interlocked operations and whose sign tells `unlock`
 which kind of release to perform.  Any number of threads interleave.
 */
module RwLock {

  type Tid = nat

  /** Values of a LONG. */
  const LONG_MAX := 0x7FFF_FFFF

  /** InterlockedIncrement and InterlockedDecrement wrap around. */
  function Inc(x: int): int { if x == LONG_MAX then -LONG_MAX - 1 else x + 1 }
  function Dec(x: int): int { if x == -LONG_MAX - 1 then LONG_MAX else x - 1 }

  /** What a thread is doing between the atomic operations. */
  datatype Phase =
    | Outside
    | SharedTaken          // SRW shared acquired, state not incremented yet
    | Reading
    | ExclusiveTaken       // SRW exclusive acquired, state not set yet
    | Writing
    | Chose(negative: bool, wrote: bool) // unlock has read the sign; `wrote` is how the thread acquired
    | Cleared(wrote: bool)               // state set to 0, exclusive release next
    | Lowered(wrote: bool)               // state decremented, shared release next

  datatype State = State(phase: map<Tid, Phase>, shared: set<Tid>, exclusive: set<Tid>, word: int, wrongRelease: bool)

  datatype Step =
    | TakeShared(t: Tid)      // rdlock, or tryrd when it succeeds
    | CountIn(t: Tid)
    | TakeExclusive(t: Tid)   // wrlock, or trywr when it succeeds
    | MarkWriter(t: Tid)
    | TryFails(t: Tid)        // tryrd or trywr finds the lock busy
    | ReadSign(t: Tid)
    | Clear(t: Tid)
    | Lower(t: Tid)
    | ReleaseExclusive(t: Tid)
    | ReleaseShared(t: Tid)

  predicate Enabled(s: State, step: Step) {
    step.t in s.phase &&
    var p := s.phase[step.t];
    match step
    case TakeShared(_) => p.Outside? && s.exclusive == {}
    case CountIn(_) => p.SharedTaken?
    case TakeExclusive(_) => p.Outside? && s.exclusive == {} && s.shared == {}
    case MarkWriter(_) => p.ExclusiveTaken?
    case TryFails(_) => p.Outside?
    case ReadSign(_) => p.Reading? || p.Writing?
    case Clear(_) => p.Chose? && p.negative
    case Lower(_) => p.Chose? && !p.negative
    case ReleaseExclusive(_) => p.Cleared?
    case ReleaseShared(_) => p.Lowered?
  }

  function Apply(s: State, step: Step): State
    requires Enabled(s, step)
  {
    var t := step.t;
    var p := s.phase[t];
    match step
    case TakeShared(_) => s.(phase := s.phase[t := SharedTaken], shared := s.shared + {t})
    case CountIn(_) => s.(phase := s.phase[t := Reading], word := Inc(s.word))
    case TakeExclusive(_) => s.(phase := s.phase[t := ExclusiveTaken], exclusive := {t})
    case MarkWriter(_) => s.(phase := s.phase[t := Writing], word := -1)
    case TryFails(_) => s
    case ReadSign(_) => s.(phase := s.phase[t := Chose(s.word < 0, p.Writing?)])
    case Clear(_) => s.(phase := s.phase[t := Cleared(p.wrote)], word := 0)
    case Lower(_) => s.(phase := s.phase[t := Lowered(p.wrote)], word := Dec(s.word))
    case ReleaseExclusive(_) =>
      s.(phase := s.phase[t := Outside], exclusive := s.exclusive - {t},
         wrongRelease := s.wrongRelease || t !in s.exclusive)
    case ReleaseShared(_) =>
      s.(phase := s.phase[t := Outside], shared := s.shared - {t}, wrongRelease := s.wrongRelease || t !in s.shared)
  }

  /** All threads outside, nothing held. */
  predicate Init(s: State) {
    && (forall t :: t in s.phase ==> s.phase[t].Outside?)
    && s.shared == {} && s.exclusive == {} && s.word == 0 && !s.wrongRelease
  }

  // ---------------------------------------------------------------------------------
  // The invariant

  predicate HoldsShared(p: Phase) {
    p.SharedTaken? || p.Reading? || (p.Chose? && !p.wrote) || (p.Cleared? && !p.wrote) || (p.Lowered? && !p.wrote)
  }

  predicate HoldsExclusive(p: Phase) {
    p.ExclusiveTaken? || p.Writing? || (p.Chose? && p.wrote) || (p.Cleared? && p.wrote) || (p.Lowered? && p.wrote)
  }

  /** The thread's increment is still in the state word. */
  predicate Counts(p: Phase) {
    p.Reading? || (p.Chose? && !p.wrote)
  }

  function Counted(s: State): set<Tid> {
    set t | t in s.phase && Counts(s.phase[t])
  }

  /** The phases that occur: the sign read always matches the way of acquiring. */
  predicate PhaseOk(p: Phase) {
    (p.Chose? ==> p.negative == p.wrote) && (p.Cleared? ==> p.wrote) && (p.Lowered? ==> !p.wrote)
  }

  ghost predicate Inv(s: State) {
    && !s.wrongRelease
    && (forall t :: t in s.phase ==> PhaseOk(s.phase[t]))
    && (forall t :: t in s.shared <==> t in s.phase && HoldsShared(s.phase[t]))
    && (forall t :: t in s.exclusive <==> t in s.phase && HoldsExclusive(s.phase[t]))
    && (forall t, u :: t in s.exclusive && u in s.exclusive ==> t == u)
    && (s.exclusive != {} ==> s.shared == {})
    && (s.exclusive == {} ==> s.word == |Counted(s)|)
    && (forall t :: t in s.exclusive ==> s.word == if s.phase[t].Writing? || s.phase[t].Chose? then -1 else 0)
  }

  /** Fewer readers at a time than a LONG can count. */
  predicate Countable(s: State) {
    |s.shared| <= LONG_MAX
  }

  lemma CountedShared(s: State)
    requires Inv(s)
    ensures Counted(s) <= s.shared && |Counted(s)| <= |s.shared|
  {
    assert Counted(s) + (s.shared - Counted(s)) == s.shared;
  }

  /** How a step changes the set of counted threads. */
  lemma CountedUpdate(s: State, s2: State, t: Tid, p: Phase)
    requires t in s.phase && s2.phase == s.phase[t := p]
    ensures Counted(s2) == if Counts(p) then Counted(s) + {t} else Counted(s) - {t}
    ensures |Counted(s2)| == |Counted(s)| + (if Counts(p) then 1 else 0) - (if Counts(s.phase[t]) then 1 else 0)
  {
    assert Counted(s2) == if Counts(p) then Counted(s) + {t} else Counted(s) - {t};
  }

  lemma StepKeepsInv(s: State, step: Step)
    requires Inv(s) && Countable(s) && Enabled(s, step)
    ensures Inv(Apply(s, step))
  {
    hide Inv;
    match step
    case TryFails(_) =>
    case TakeShared(t) => TakeSharedKeepsInv(s, t);
    case CountIn(t) => CountInKeepsInv(s, t);
    case TakeExclusive(t) => TakeExclusiveKeepsInv(s, t);
    case MarkWriter(t) => MarkWriterKeepsInv(s, t);
    case ReadSign(t) => ReadSignKeepsInv(s, t);
    case Clear(t) => ClearKeepsInv(s, t);
    case Lower(t) => LowerKeepsInv(s, t);
    case ReleaseExclusive(t) => ReleaseExclusiveKeepsInv(s, t);
    case ReleaseShared(t) => ReleaseSharedKeepsInv(s, t);
  }

  lemma CountedSame(s: State, s2: State, t: Tid, p: Phase)
    requires t in s.phase && s2.phase == s.phase[t := p] && Counts(p) == Counts(s.phase[t])
    ensures Counted(s2) == Counted(s)
  {
  }

  /** A reader's step that changes who holds the lock and not the word. */
  lemma SharedChanges(s: State, t: Tid, p: Phase, s2: State)
    requires Inv(s) && t in s.phase && s.exclusive == {} && PhaseOk(p) && !HoldsExclusive(p)
    requires Counts(p) == Counts(s.phase[t])
    requires s2.phase == s.phase[t := p] && s2.shared == if HoldsShared(p) then s.shared + {t} else s.shared - {t}
    requires s2.exclusive == {} && s2.word == s.word && !s2.wrongRelease
    ensures Inv(s2)
  {
    CountedSame(s, s2, t, p);
    hide Counted, HoldsShared, HoldsExclusive, PhaseOk, Counts;
    forall u ensures u in s2.shared <==> u in s2.phase && HoldsShared(s2.phase[u]) {
      if u != t { assert u in s2.shared <==> u in s.shared; }
    }
    forall u ensures u in s2.exclusive <==> u in s2.phase && HoldsExclusive(s2.phase[u]) {
      if u != t { assert u !in s.exclusive; }
    }
  }

  lemma TakeSharedKeepsInv(s: State, t: Tid)
    requires Inv(s) && Countable(s) && Enabled(s, TakeShared(t))
    ensures Inv(Apply(s, TakeShared(t)))
  {
    SharedChanges(s, t, SharedTaken, Apply(s, TakeShared(t)));
  }

  lemma CountInKeepsInv(s: State, t: Tid)
    requires Inv(s) && Countable(s) && Enabled(s, CountIn(t))
    ensures Inv(Apply(s, CountIn(t)))
  {
    var s2 := Apply(s, CountIn(t));
    CountedUpdate(s, s2, t, s2.phase[t]);
    CountedShared(s);
    assert t in s.shared - Counted(s);
    FewerCounted(s, t);
  }

  lemma TakeExclusiveKeepsInv(s: State, t: Tid)
    requires Inv(s) && Countable(s) && Enabled(s, TakeExclusive(t))
    ensures Inv(Apply(s, TakeExclusive(t)))
  {
    var s2 := Apply(s, TakeExclusive(t));
    CountedUpdate(s, s2, t, s2.phase[t]);
  }

  lemma MarkWriterKeepsInv(s: State, t: Tid)
    requires Inv(s) && Countable(s) && Enabled(s, MarkWriter(t))
    ensures Inv(Apply(s, MarkWriter(t)))
  {
    var s2 := Apply(s, MarkWriter(t));
    CountedUpdate(s, s2, t, s2.phase[t]);
  }

  lemma ReadSignKeepsInv(s: State, t: Tid)
    requires Inv(s) && Countable(s) && Enabled(s, ReadSign(t))
    ensures Inv(Apply(s, ReadSign(t)))
  {
    var s2 := Apply(s, ReadSign(t));
    CountedUpdate(s, s2, t, s2.phase[t]);
    if s.phase[t].Reading? {
      assert t in Counted(s) && t in s.shared;
    }
  }

  lemma ClearKeepsInv(s: State, t: Tid)
    requires Inv(s) && Countable(s) && Enabled(s, Clear(t))
    ensures Inv(Apply(s, Clear(t)))
  {
    var s2 := Apply(s, Clear(t));
    CountedUpdate(s, s2, t, s2.phase[t]);
  }

  lemma LowerKeepsInv(s: State, t: Tid)
    requires Inv(s) && Countable(s) && Enabled(s, Lower(t))
    ensures Inv(Apply(s, Lower(t)))
  {
    var s2 := Apply(s, Lower(t));
    CountedUpdate(s, s2, t, s2.phase[t]);
    assert t in Counted(s) && t in s.shared;
    CountedShared(s);
  }

  lemma ReleaseExclusiveKeepsInv(s: State, t: Tid)
    requires Inv(s) && Countable(s) && Enabled(s, ReleaseExclusive(t))
    ensures Inv(Apply(s, ReleaseExclusive(t)))
  {
    var s2 := Apply(s, ReleaseExclusive(t));
    CountedUpdate(s, s2, t, s2.phase[t]);
  }

  lemma ReleaseSharedKeepsInv(s: State, t: Tid)
    requires Inv(s) && Countable(s) && Enabled(s, ReleaseShared(t))
    ensures Inv(Apply(s, ReleaseShared(t)))
  {
    assert HoldsShared(s.phase[t]) && t in s.shared;
    SharedChanges(s, t, Outside, Apply(s, ReleaseShared(t)));
  }

  lemma FewerCounted(s: State, t: Tid)
    requires Inv(s) && t in s.shared && t !in Counted(s)
    ensures |Counted(s)| < |s.shared|
  {
    CountedShared(s);
    assert s.shared == Counted(s) + {t} + (s.shared - Counted(s) - {t});
  }

  // ---------------------------------------------------------------------------------
  // Whole runs

  ghost predicate IsRun(run: seq<State>, steps: seq<Step>) {
    && |run| == |steps| + 1 && Init(run[0])
    && (forall k :: 0 <= k < |run| ==> Countable(run[k]))
    && forall k :: 0 <= k < |steps| ==> Enabled(run[k], steps[k]) && run[k + 1] == Apply(run[k], steps[k])
  }

  lemma InitInv(s: State)
    requires Init(s)
    ensures Inv(s)
  {
    assert Counted(s) == {};
  }

  lemma {:induction false} RunKeepsInv(run: seq<State>, steps: seq<Step>, k: nat)
    requires IsRun(run, steps) && k < |run|
    ensures Inv(run[k])
    decreases k
  {
    if k == 0 {
      InitInv(run[0]);
    } else {
      RunKeepsInv(run, steps, k - 1);
      StepKeepsInv(run[k - 1], steps[k - 1]);
    }
  }

  /** In every interleaving: a release matches the way its thread acquired, and a writer is
      alone with the lock. */
  lemma ReleasesMatch(run: seq<State>, steps: seq<Step>, k: nat)
    requires IsRun(run, steps) && k < |run|
    ensures var s := run[k];
            && !s.wrongRelease
            && (forall t, u :: t in s.phase && u in s.phase && HoldsExclusive(s.phase[t]) && t != u ==>
                  !HoldsExclusive(s.phase[u]) && !HoldsShared(s.phase[u]))
            && (forall t :: t in s.phase && s.phase[t].Chose? ==> s.phase[t].negative == s.phase[t].wrote)
  {
    RunKeepsInv(run, steps, k);
    var s := run[k];
    forall t, u | t in s.phase && u in s.phase && HoldsExclusive(s.phase[t]) && t != u
      ensures !HoldsExclusive(s.phase[u]) && !HoldsShared(s.phase[u])
    {
      assert t in s.exclusive;
      assert u !in s.exclusive && u !in s.shared;
    }
    forall t | t in s.phase && s.phase[t].Chose? ensures s.phase[t].negative == s.phase[t].wrote {
      assert PhaseOk(s.phase[t]);
    }
  }

  /** The bound on readers is exact: with one reader more the count turns negative and that
      reader's unlock chooses the exclusive release. */
  lemma TooManyReadersMisdispatch(s: State, t: Tid)
    requires Inv(s) && t in s.phase && s.phase[t].SharedTaken? && |Counted(s)| == LONG_MAX
    ensures var s1 := Apply(s, CountIn(t));
            && Enabled(s1, ReadSign(t)) && var s2 := Apply(s1, ReadSign(t));
            && Enabled(s2, Clear(t)) && var s3 := Apply(s2, Clear(t));
            && Enabled(s3, ReleaseExclusive(t)) && Apply(s3, ReleaseExclusive(t)).wrongRelease
  {
    assert t in s.shared;
    assert s.exclusive == {};
  }

  // ---------------------------------------------------------------------------------
  // Progress

  /** What a thread does next, from taking the lock to the end of its unlock. */
  function OwnStep(p: Phase, t: Tid): (step: Step)
    requires !p.Outside?
    ensures step.t == t
  {
    match p
    case SharedTaken => CountIn(t)
    case ExclusiveTaken => MarkWriter(t)
    case Reading => ReadSign(t)
    case Writing => ReadSign(t)
    case Chose(negative, _) => if negative then Clear(t) else Lower(t)
    case Cleared(_) => ReleaseExclusive(t)
    case Lowered(_) => ReleaseShared(t)
  }

  /** How many steps a thread has left before it is outside. */
  function StepsLeft(p: Phase): (n: nat)
    ensures n == 0 <==> p.Outside?
  {
    match p
    case Outside => 0
    case SharedTaken => 4
    case ExclusiveTaken => 4
    case Reading => 3
    case Writing => 3
    case Chose(_, _) => 2
    case _ => 1
  }

  ghost predicate Runs(s: State, steps: seq<Step>, u: State)
    decreases |steps|
  {
    if steps == [] then s == u else Enabled(s, steps[0]) && Runs(Apply(s, steps[0]), steps[1..], u)
  }

  /** From `s` to `u` the thread `t` came closer to the outside, and got rid of its hold when it arrived. */
  predicate Closer(s: State, t: Tid, u: State) {
    && t in s.phase && t in u.phase && u.phase == s.phase[t := u.phase[t]]
    && u.shared == (if u.phase[t].Outside? then s.shared - {t} else s.shared)
    && u.exclusive == (if u.phase[t].Outside? then s.exclusive - {t} else s.exclusive)
  }

  lemma OwnStepAdvances(s: State, t: Tid)
    requires Inv(s) && t in s.phase && !s.phase[t].Outside?
    ensures Enabled(s, OwnStep(s.phase[t], t))
    ensures var u := Apply(s, OwnStep(s.phase[t], t));
            Closer(s, t, u) && StepsLeft(u.phase[t]) == StepsLeft(s.phase[t]) - 1
  {
    Holder(s, t);
    hide Inv;
  }

  /** A thread on its way out releases what it holds and holds nothing else. */
  lemma Holder(s: State, t: Tid)
    requires Inv(s) && t in s.phase
    ensures s.phase[t].Cleared? ==> t in s.exclusive && t !in s.shared
    ensures s.phase[t].Lowered? ==> t in s.shared && t !in s.exclusive
    ensures s.phase[t].Outside? ==> t !in s.shared && t !in s.exclusive
  {
    assert PhaseOk(s.phase[t]);
  }

  lemma CloserCountable(s: State, t: Tid, u: State)
    requires Closer(s, t, u) && Countable(s)
    ensures Countable(u)
  {
    assert s.shared - {t} + (s.shared * {t}) == s.shared;
  }

  lemma CloserTrans(s: State, t: Tid, u: State, v: State)
    requires Closer(s, t, u) && !u.phase[t].Outside? && Closer(u, t, v)
    ensures Closer(s, t, v)
  {
    assert v.phase == s.phase[t := v.phase[t]];
  }

  lemma RunsStep(s: State, step: Step, rest: seq<Step>, u: State)
    requires Enabled(s, step) && Runs(Apply(s, step), rest, u)
    ensures Runs(s, [step] + rest, u)
  {
    assert ([step] + rest)[1..] == rest;
  }

  /** The steps of one thread. */
  predicate AllBy(steps: seq<Step>, t: Tid) {
    forall k :: 0 <= k < |steps| ==> steps[k].t == t
  }

  /** Whoever is inside can always leave by steps of its own, whatever the others do or fail to do: no
      other thread changes, and exactly its own hold on the lock is gone. */
  lemma {:induction false} AlwaysLeaves(s: State, t: Tid) returns (steps: seq<Step>, u: State)
    requires Inv(s) && Countable(s) && t in s.phase && !s.phase[t].Outside?
    ensures Runs(s, steps, u) && |steps| == StepsLeft(s.phase[t]) && AllBy(steps, t)
    ensures Closer(s, t, u) && u.phase[t].Outside? && Inv(u)
    decreases StepsLeft(s.phase[t])
  {
    var step := OwnStep(s.phase[t], t);
    hide Inv, Countable, Apply, Enabled, Closer, Runs, OwnStep, StepsLeft, AllBy;
    OwnStepAdvances(s, t);
    StepKeepsInv(s, step);
    var next := Apply(s, step);
    CloserCountable(s, t, next);
    var rest := [];
    u := next;
    CloserSame(s, t, next);
    NoneBy(t);
    if next.phase[t].Outside? {
      RunsDone(next);
    } else {
      rest, u := AlwaysLeaves(next, t);
      CloserTrans(s, t, next, u);
    }
    RunsStep(s, step, rest, u);
    OneBy(step, rest, t);
    steps := [step] + rest;
  }

  lemma NoneBy(t: Tid) ensures AllBy([], t) {}

  lemma OneBy(step: Step, rest: seq<Step>, t: Tid)
    requires step.t == t && AllBy(rest, t)
    ensures AllBy([step] + rest, t)
  {
  }

  lemma RunsDone(s: State) ensures Runs(s, [], s) {}

  lemma CloserSame(s: State, t: Tid, u: State)
    requires Closer(s, t, u)
    ensures t in s.phase && t in u.phase
  {
  }

  /** A thread outside gets in at once exactly when nobody is in its way: readers wait for a writer only,
      a writer waits for everyone. */
  lemma GetsInIff(s: State, t: Tid)
    requires Inv(s) && t in s.phase && s.phase[t].Outside?
    ensures Enabled(s, TakeShared(t)) <==> forall u :: u in s.phase ==> !HoldsExclusive(s.phase[u])
    ensures Enabled(s, TakeExclusive(t)) <==>
              forall u :: u in s.phase ==> !HoldsExclusive(s.phase[u]) && !HoldsShared(s.phase[u])
  {
    if s.exclusive != {} {
      var u :| u in s.exclusive;
      assert HoldsExclusive(s.phase[u]);
    }
    if s.shared != {} {
      var u :| u in s.shared;
      assert HoldsShared(s.phase[u]);
    }
  }
}

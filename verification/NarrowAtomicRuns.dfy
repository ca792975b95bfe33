/**
 Concurrent runs of the emulated atomics: the retry loops as interleaved atomic steps, and
 their linearization.
 */
module NarrowAtomicRuns {
  import opened NarrowAtomics

  type Tid = nat

  datatype Op =
    | Exchange(desired: bv32)
    | CompareExchange(expected: bv32, desired: bv32)
    | FetchAdd(value: bv32)
    | FetchSub(value: bv32)
    | Store(value: bv32)

  datatype Result = Old(x: bv32) | Swapped | Mismatch(x: bv32) | Stored

  // ---------------------------------------------------------------------------------
  // What the operations mean

  function Plus(x: bv32, v: bv32): bv32 { x + v }
  function Minus(x: bv32, v: bv32): bv32 { x - v }

  /** The operation on an atomic variable of the field's width holding `x`. */
  function FieldApply(x: bv32, f: Field, op: Op): (bv32, Result) {
    match op
    case Exchange(d) => (Cast(d, f), Old(x))
    case CompareExchange(e, d) => if x == Cast(e, f) then (Cast(d, f), Swapped) else (x, Mismatch(x))
    case FetchAdd(v) => (Cast(Plus(x, v), f), Old(x))
    case FetchSub(v) => (Cast(Minus(x, v), f), Old(x))
    case Store(v) => (Cast(v, f), Stored)
  }

  /** The same operation performed atomically on the field of a word. */
  function WordApply(w: bv32, f: Field, op: Op): (bv32, Result) {
    var (x, r) := FieldApply(Get(w, f), f, op);
    (if r.Mismatch? then w else Put(w, f, x), r)
  }

  /** One completed operation. */
  datatype Entry = Entry(t: Tid, f: Field, op: Op, res: Result)

  /** The word after a history of atomic operations. */
  function Replay(w: bv32, log: seq<Entry>): bv32 {
    if log == [] then w else WordApply(Replay(w, log[..|log| - 1]), log[|log| - 1].f, log[|log| - 1].op).0
  }

  /** Every result in the history is the one the atomic operation gives. */
  predicate Legal(w: bv32, log: seq<Entry>) {
    log == [] ||
    (var e := log[|log| - 1];
     Legal(w, log[..|log| - 1]) && e.res == WordApply(Replay(w, log[..|log| - 1]), e.f, e.op).1)
  }

  /** A single field under the operations that name it. */
  function ReplayField(x: bv32, f: Field, log: seq<Entry>): bv32 {
    if log == [] then x
    else
      var before := ReplayField(x, f, log[..|log| - 1]);
      var e := log[|log| - 1];
      if e.f == f then FieldApply(before, f, e.op).0 else before
  }

  predicate LegalField(x: bv32, f: Field, log: seq<Entry>) {
    log == [] ||
    (var e := log[|log| - 1];
     && LegalField(x, f, log[..|log| - 1])
     && (e.f == f ==> e.res == FieldApply(ReplayField(x, f, log[..|log| - 1]), f, e.op).1))
  }

  /** In a legal history every field behaves as an atomic variable of its own: its value and
      its results depend on the operations that name it and on nothing else. */
  lemma {:induction false} FieldsAreIndependent(w: bv32, f: Field, log: seq<Entry>)
    requires Legal(w, log) && forall k :: 0 <= k < |log| ==> log[k].f == f || Disjoint(f, log[k].f)
    ensures Get(Replay(w, log), f) == ReplayField(Get(w, f), f, log)
    ensures LegalField(Get(w, f), f, log)
    decreases |log|
  {
    hide Get, Put, Cast, Disjoint;
    if log != [] {
      var before, e := log[..|log| - 1], log[|log| - 1];
      FieldsAreIndependent(w, f, before);
      var v := Replay(w, before);
      ApplyIsLocal(v, e.f, e.op, f);
    }
  }

  lemma ApplyIsLocal(w: bv32, f: Field, op: Op, g: Field)
    ensures Get(WordApply(w, f, op).0, f) == FieldApply(Get(w, f), f, op).0
    ensures Disjoint(g, f) ==> Get(WordApply(w, f, op).0, g) == Get(w, g)
  {
    hide Get, Put, Cast, FieldApply;
    ResultFits(Get(w, f), f, op);
    PutIsLocal(w, f, FieldApply(Get(w, f), f, op).0, g);
  }

  /** What an operation stores has the width of its field. */
  lemma ResultFits(x: bv32, f: Field, op: Op)
    ensures var (y, r) := FieldApply(x, f, op); if r.Mismatch? then y == x else Cast(y, f) == y
  {
    hide Cast, Plus, Minus;
    match op
    case Exchange(d) => CastTwice(d, f);
    case CompareExchange(_, d) => CastTwice(d, f);
    case FetchAdd(v) => CastTwice(Plus(x, v), f);
    case FetchSub(v) => CastTwice(Minus(x, v), f);
    case Store(v) => CastTwice(v, f);
  }

  lemma ByteTwice(x: bv32) ensures Byte(Byte(x)) == Byte(x) {}
  lemma HalfTwice(x: bv32) ensures Half(Half(x)) == Half(x) {}

  lemma CastTwice(x: bv32, f: Field)
    ensures Cast(Cast(x, f), f) == Cast(x, f)
  {
    hide Byte, Half;
    ByteTwice(x);
    HalfTwice(x);
  }

  // ---------------------------------------------------------------------------------
  // The loops

  /** Where a thread stands; `since` is the length of the history when its operation began,
      `seen` its length when the word was last read, `at` its own place in it. */
  datatype Phase =
    | Idle
    | Began(f: Field, op: Op, since: nat)
    | Loaded(f: Field, op: Op, since: nat, word: bv32, seen: nat)
    | Done(f: Field, op: Op, since: nat, res: Result, at: nat)

  datatype State = State(word: bv32, phase: map<Tid, Phase>, log: seq<Entry>)

  datatype Step = Begin(t: Tid, f: Field, op: Op) | Load(t: Tid) | TryCas(t: Tid) | Return(t: Tid)

  predicate Enabled(s: State, step: Step) {
    step.t in s.phase &&
    match step
    case Begin(t, _, _) => s.phase[t].Idle?
    case Load(t) => s.phase[t].Began?
    case TryCas(t) => s.phase[t].Loaded?
    case Return(t) => s.phase[t].Done?
  }

  /** The loop's local decision on the word it has just read: a comparison that fails ends
      the operation there, otherwise it goes on to the InterlockedCompareExchange. */
  function Decide(s: State, t: Tid, f: Field, op: Op, since: nat): State {
    if op.CompareExchange? && Get(s.word, f) != Cast(op.expected, f)
    then Complete(s, t, f, op, since, Mismatch(Get(s.word, f)), s.word)
    else s.(phase := s.phase[t := Loaded(f, op, since, s.word, |s.log|)])
  }

  function Complete(s: State, t: Tid, f: Field, op: Op, since: nat, res: Result, word: bv32): State {
    s.(word := word, phase := s.phase[t := Done(f, op, since, res, |s.log|)], log := s.log + [Entry(t, f, op, res)])
  }

  function Apply(s: State, step: Step): State
    requires Enabled(s, step)
  {
    var p := s.phase[step.t];
    match step
    case Begin(t, f, op) => s.(phase := s.phase[t := Began(f, op, |s.log|)])
    case Load(t) =>
      if p.op.Store? then Complete(s, t, p.f, p.op, p.since, Stored, Put(s.word, p.f, Cast(p.op.value, p.f)))
      else Decide(s, t, p.f, p.op, p.since)
    case TryCas(t) =>
      if s.word == p.word then
        var (x, r) := FieldApply(Get(p.word, p.f), p.f, p.op);
        Complete(s, t, p.f, p.op, p.since, r, Put(p.word, p.f, x))
      else Decide(s, t, p.f, p.op, p.since)
    case Return(t) => s.(phase := s.phase[t := Idle])
  }

  // ---------------------------------------------------------------------------------
  // Linearizability

  predicate PhaseOk(p: Phase, t: Tid, w0: bv32, log: seq<Entry>) {
    match p
    case Idle => true
    case Began(_, _, since) => since <= |log|
    case Loaded(f, op, since, word, seen) =>
      && since <= seen <= |log| && word == Replay(w0, log[..seen]) && !op.Store?
      && (op.CompareExchange? ==> Get(word, f) == Cast(op.expected, f))
    case Done(f, op, since, res, at) => since <= at < |log| && log[at] == Entry(t, f, op, res)
  }

  ghost predicate Inv(s: State, w0: bv32) {
    && s.word == Replay(w0, s.log) && Legal(w0, s.log)
    && forall t :: t in s.phase ==> PhaseOk(s.phase[t], t, w0, s.log)
  }

  lemma PhaseGrows(p: Phase, t: Tid, w0: bv32, log: seq<Entry>, e: Entry)
    requires PhaseOk(p, t, w0, log)
    ensures PhaseOk(p, t, w0, log + [e])
  {
    if p.Loaded? { assert (log + [e])[..p.seen] == log[..p.seen]; }
  }

  lemma CompleteKeepsInv(s: State, w0: bv32, t: Tid, f: Field, op: Op, since: nat, res: Result, word: bv32)
    requires Inv(s, w0) && t in s.phase && since <= |s.log| && (word, res) == WordApply(s.word, f, op)
    ensures Inv(Complete(s, t, f, op, since, res, word), w0)
  {
    hide WordApply, Get;
    var s2 := Complete(s, t, f, op, since, res, word);
    assert s2.log[..|s2.log| - 1] == s.log;
    forall u | u in s2.phase ensures PhaseOk(s2.phase[u], u, w0, s2.log) {
      if u != t { PhaseGrows(s.phase[u], u, w0, s.log, Entry(t, f, op, res)); }
    }
  }

  lemma DecideKeepsInv(s: State, w0: bv32, t: Tid, f: Field, op: Op, since: nat)
    requires Inv(s, w0) && t in s.phase && since <= |s.log| && !op.Store?
    ensures Inv(Decide(s, t, f, op, since), w0)
  {
    hide Get, Put, Cast, Replay, Legal;
    if op.CompareExchange? && Get(s.word, f) != Cast(op.expected, f) {
      CompleteKeepsInv(s, w0, t, f, op, since, Mismatch(Get(s.word, f)), s.word);
    } else {
      assert s.log[..|s.log|] == s.log;
    }
  }

  lemma StepKeepsInv(s: State, w0: bv32, step: Step)
    requires Inv(s, w0) && Enabled(s, step)
    ensures Inv(Apply(s, step), w0)
  {
    hide Get, Put, Cast, Replay, Legal;
    var p := s.phase[step.t];
    assert PhaseOk(p, step.t, w0, s.log);
    match step
    case Load(t) =>
      if p.op.Store? {
        CompleteKeepsInv(s, w0, t, p.f, p.op, p.since, Stored, Put(s.word, p.f, Cast(p.op.value, p.f)));
      } else {
        DecideKeepsInv(s, w0, t, p.f, p.op, p.since);
      }
    case TryCas(t) =>
      if s.word == p.word {
        var (x, r) := FieldApply(Get(p.word, p.f), p.f, p.op);
        CompleteKeepsInv(s, w0, t, p.f, p.op, p.since, r, Put(p.word, p.f, x));
      } else {
        DecideKeepsInv(s, w0, t, p.f, p.op, p.since);
      }
    case _ =>
  }

  ghost predicate IsRun(run: seq<State>, steps: seq<Step>) {
    && |run| == |steps| + 1 && run[0].log == [] && (forall t :: t in run[0].phase ==> run[0].phase[t].Idle?)
    && forall k :: 0 <= k < |steps| ==> Enabled(run[k], steps[k]) && run[k + 1] == Apply(run[k], steps[k])
  }

  lemma {:induction false} RunKeepsInv(run: seq<State>, steps: seq<Step>, k: nat)
    requires IsRun(run, steps) && k < |run|
    ensures Inv(run[k], run[0].word)
    decreases k
  {
    if k > 0 {
      RunKeepsInv(run, steps, k - 1);
      StepKeepsInv(run[k - 1], run[0].word, steps[k - 1]);
    }
  }

  /** Every run is linearizable: there is one legal history of atomic operations that leads
      to the word, and every completed operation has its own place in it, between its
      beginning and its end, with the result it returned. */
  lemma Linearizable(run: seq<State>, steps: seq<Step>, k: nat)
    requires IsRun(run, steps) && k < |run|
    ensures var s := run[k];
            && Legal(run[0].word, s.log) && s.word == Replay(run[0].word, s.log)
            && forall t :: t in s.phase && s.phase[t].Done? ==>
                 var p := s.phase[t];
                 p.since <= p.at < |s.log| && s.log[p.at] == Entry(t, p.f, p.op, p.res)
  {
    RunKeepsInv(run, steps, k);
    var s := run[k];
    forall t | t in s.phase && s.phase[t].Done?
      ensures s.phase[t].since <= s.phase[t].at < |s.log| &&
              s.log[s.phase[t].at] == Entry(t, s.phase[t].f, s.phase[t].op, s.phase[t].res)
    {
      assert PhaseOk(s.phase[t], t, run[0].word, s.log);
    }
  }

  /** A strong compare-exchange never fails because of a neighbour: when it reports a
      mismatch, its own field differed at that point of the history. */
  lemma MismatchIsGenuine(run: seq<State>, steps: seq<Step>, k: nat, t: Tid)
    requires IsRun(run, steps) && k < |run| && t in run[k].phase
    requires run[k].phase[t].Done? && run[k].phase[t].op.CompareExchange?
    ensures var p := run[k].phase[t]; var s := run[k];
            && p.at < |s.log|
            && var x := Get(Replay(run[0].word, s.log[..p.at]), p.f);
               if x == Cast(p.op.expected, p.f) then p.res == Swapped else p.res == Mismatch(x)
  {
    hide Get, Put, Cast;
    RunKeepsInv(run, steps, k);
    var s := run[k];
    var p := s.phase[t];
    assert PhaseOk(p, t, run[0].word, s.log);
    LegalAt(run[0].word, s.log, p.at);
  }

  lemma {:induction false} LegalAt(w: bv32, log: seq<Entry>, k: nat)
    requires Legal(w, log) && k < |log|
    ensures log[k].res == WordApply(Replay(w, log[..k]), log[k].f, log[k].op).1
    decreases |log|
  {
    hide WordApply;
    if k < |log| - 1 {
      LegalAt(w, log[..|log| - 1], k);
      assert log[..|log| - 1][..k] == log[..k];
    }
  }

  /** A retry is caused by progress elsewhere: the InterlockedCompareExchange fails only if
      some operation completed since the word was read. */
  lemma RetryMeansProgress(s: State, w0: bv32, t: Tid)
    requires Inv(s, w0) && t in s.phase && s.phase[t].Loaded? && s.word != s.phase[t].word
    ensures s.phase[t].seen < |s.log|
  {
    hide Replay, Legal, Get;
    assert PhaseOk(s.phase[t], t, w0, s.log);
    assert s.log[..|s.log|] == s.log;
  }
}

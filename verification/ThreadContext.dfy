/**
 Ownership of thread contexts in the Windows branch of platform/src/platform_sync.c:
 creation, the running thread's exit, join and detach, as interleaved atomic steps of any
 number of threads.  A step that reads or writes a context records whether the context had
 already been freed.
 */
module ThreadContext {
  import opened Options

  type Id = nat
  /** A thread handle; 0 is NULL.  Windows may reuse a value once it is closed. */
  type Handle = nat
  type Value = int

  /** airy_platform_thread_create */
  datatype Creator = Registered | Spawned(h: Handle) | Published | Failed

  /** airy_thread_start_routine */
  datatype Runner = NotStarted | Running | Returned | MustFree | Marked | Exited | ExitedFreed

  /** airy_platform_thread_join, airy_platform_thread_detach and airy_thread_win_reclaim */
  datatype Closer =
    | NotCalled
    | Unlinked(join: bool)    // taken out of the registry
    | Waited                  // the wait succeeded
    | Got(v: Option<Value>)   // result read
    | Sealed(v: Option<Value>)// state set to 3
    | Joined(v: Option<Value>)
    | Reclaiming
    | Saw(s: int)             // state read by the reclaim loop
    | OwnsFree                // CAS 1 -> 3 succeeded
    | Asked                   // CAS 0 -> 2 succeeded: the thread frees on exit
    | Freed                   // freed by the reclaim loop

  datatype Ctx = Ctx(
    state: int, result: Option<Value>, h: Handle, produced: Option<Value>,
    creator: Creator, runner: Runner, closer: Closer,
    frees: nat, touchedAfterFree: bool)

  /** Contexts by identity, the registry list, and what the open handles denote. */
  datatype State = State(ctxs: map<Id, Ctx>, list: seq<Id>, open: map<Handle, Id>)

  datatype Step =
    | Register(id: Id)
    | Spawn(id: Id, h: Handle)
    | SpawnFails(id: Id)
    | Publish(id: Id)
    | Compute(id: Id, v: Value)
    | Finish(id: Id)
    | MarkSelf(id: Id)
    | FreeSelf(id: Id)
    | Call(h: Handle, join: bool)
    | WaitOk(id: Id)
    | WaitFails(id: Id)
    | ReadResult(id: Id)
    | Seal(id: Id)
    | FreeJoined(id: Id)
    | StartReclaim(id: Id)
    | ReadState(id: Id)
    | Cas(id: Id)
    | FreeReclaimed(id: Id)
    | CloseHandle(h: Handle)
    | DetachNull

  /** A context access. */
  function Touch(c: Ctx): Ctx {
    c.(touchedAfterFree := c.touchedAfterFree || c.frees > 0)
  }

  /** Position of the first context in the list whose handle is `h`. */
  function Lookup(s: State, h: Handle, k: nat): (r: nat)
    requires k <= |s.list| && forall i :: 0 <= i < |s.list| ==> s.list[i] in s.ctxs
    ensures k <= r <= |s.list|
    ensures r < |s.list| ==> s.ctxs[s.list[r]].h == h
    ensures forall i :: k <= i < r ==> s.ctxs[s.list[i]].h != h
    decreases |s.list| - k
  {
    if k == |s.list| || s.ctxs[s.list[k]].h == h then k else Lookup(s, h, k + 1)
  }

  predicate ListKnown(s: State) {
    forall i :: 0 <= i < |s.list| ==> s.list[i] in s.ctxs
  }

  /** Walking the registry touches every context on the way. */
  function Walked(s: State, upto: nat): map<Id, Ctx>
    requires ListKnown(s)
  {
    map id | id in s.ctxs ::
      if exists i :: 0 <= i < |s.list| && i <= upto && s.list[i] == id then Touch(s.ctxs[id]) else s.ctxs[id]
  }

  function Removed(list: seq<Id>, k: nat): seq<Id>
    requires k < |list|
  {
    list[..k] + list[k + 1..]
  }

  /** The caller uses the handle properly: it was handed out and not joined or detached yet. */
  predicate Usable(s: State, h: Handle) {
    h in s.open && s.open[h] in s.ctxs && s.ctxs[s.open[h]].creator.Published? && s.ctxs[s.open[h]].closer.NotCalled?
  }

  predicate Enabled(s: State, step: Step) {
    ListKnown(s) &&
    match step
    case Register(id) => id !in s.ctxs
    case Spawn(id, h) => id in s.ctxs && s.ctxs[id].creator.Registered? && h != 0 && h !in s.open
    case SpawnFails(id) => id in s.ctxs && s.ctxs[id].creator.Registered?
    case Publish(id) => id in s.ctxs && s.ctxs[id].creator.Spawned?
    case Compute(id, _) => id in s.ctxs && s.ctxs[id].runner.Running?
    case Finish(id) => id in s.ctxs && s.ctxs[id].runner.Returned?
    case MarkSelf(id) => id in s.ctxs && s.ctxs[id].runner.MustFree?
    case FreeSelf(id) => id in s.ctxs && s.ctxs[id].runner.Marked?
    case Call(h, _) => Usable(s, h)
    case WaitOk(id) =>
      && id in s.ctxs && s.ctxs[id].closer == Unlinked(true)
      && (s.ctxs[id].runner.Exited? || s.ctxs[id].runner.ExitedFreed?)
    case WaitFails(id) => id in s.ctxs && s.ctxs[id].closer == Unlinked(true)
    case ReadResult(id) => id in s.ctxs && s.ctxs[id].closer.Waited?
    case Seal(id) => id in s.ctxs && s.ctxs[id].closer.Got?
    case FreeJoined(id) => id in s.ctxs && s.ctxs[id].closer.Sealed?
    case StartReclaim(id) => id in s.ctxs && s.ctxs[id].closer == Unlinked(false)
    case ReadState(id) => id in s.ctxs && s.ctxs[id].closer.Reclaiming?
    case Cas(id) => id in s.ctxs && s.ctxs[id].closer.Saw?
    case FreeReclaimed(id) => id in s.ctxs && s.ctxs[id].closer.OwnsFree?
    case CloseHandle(h) => h in s.open && s.open[h] in s.ctxs && ClosedBy(s.ctxs[s.open[h]].closer)
    case DetachNull => true
  }

  /** The call has come to its CloseHandle. */
  predicate ClosedBy(c: Closer) {
    c.Joined? || c.Asked? || c.Freed?
  }

  function SetCtx(s: State, id: Id, c: Ctx): State {
    s.(ctxs := s.ctxs[id := c])
  }

  function Apply(s: State, step: Step): State
    requires Enabled(s, step)
  {
    match step
    case Register(id) =>
      s.(ctxs := s.ctxs[id := Ctx(0, None, 0, None, Registered, NotStarted, NotCalled, 0, false)],
         list := [id] + s.list)
    case Spawn(id, h) =>
      SetCtx(s, id, s.ctxs[id].(creator := Spawned(h), runner := Running)).(open := s.open[h := id])
    case SpawnFails(id) => ApplySpawnFails(s, id)
    case Publish(id) =>
      SetCtx(s, id, Touch(s.ctxs[id]).(h := s.ctxs[id].creator.h, creator := Published))
    case Compute(id, v) =>
      SetCtx(s, id, Touch(s.ctxs[id]).(result := Some(v), produced := Some(v), runner := Returned))
    case Finish(id) =>
      SetCtx(s, id, Touch(s.ctxs[id]).(state := 1, runner := if s.ctxs[id].state == 2 then MustFree else Exited))
    case MarkSelf(id) => SetCtx(s, id, Touch(s.ctxs[id]).(state := 3, runner := Marked))
    case FreeSelf(id) => SetCtx(s, id, s.ctxs[id].(frees := s.ctxs[id].frees + 1, runner := ExitedFreed))
    case Call(h, join) => Unlink(s, h, join)
    case WaitOk(id) => SetCtx(s, id, s.ctxs[id].(closer := Waited))
    case WaitFails(id) => SetCtx(s, id, s.ctxs[id].(closer := Reclaiming))
    case ReadResult(id) => SetCtx(s, id, Touch(s.ctxs[id]).(closer := Got(s.ctxs[id].result)))
    case Seal(id) => SetCtx(s, id, Touch(s.ctxs[id]).(state := 3, closer := Sealed(s.ctxs[id].closer.v)))
    case FreeJoined(id) =>
      SetCtx(s, id, s.ctxs[id].(frees := s.ctxs[id].frees + 1, closer := Joined(s.ctxs[id].closer.v)))
    case StartReclaim(id) => SetCtx(s, id, s.ctxs[id].(closer := Reclaiming))
    case ReadState(id) => SetCtx(s, id, Touch(s.ctxs[id]).(closer := Saw(s.ctxs[id].state)))
    case Cas(id) => SetCtx(s, id, ApplyCas(s.ctxs[id]))
    case FreeReclaimed(id) => SetCtx(s, id, s.ctxs[id].(frees := s.ctxs[id].frees + 1, closer := Freed))
    case CloseHandle(h) => s.(open := s.open - {h})
    case DetachNull => Unlink(s, 0, false)
  }

  /** One round of the reclaim loop after its read of `state`. */
  function ApplyCas(c: Ctx): Ctx
    requires c.closer.Saw?
  {
    var t := Touch(c);
    if c.closer.s == 0 then (if c.state == 0 then t.(state := 2, closer := Asked) else t.(closer := Reclaiming))
    else if c.closer.s == 1 then (if c.state == 1 then t.(state := 3, closer := OwnsFree) else t.(closer := Reclaiming))
    else c.(closer := Asked)
  }

  /** airy_thread_win_unlink: the first context with that handle leaves the registry. */
  function Unlink(s: State, h: Handle, join: bool): State
    requires ListKnown(s)
  {
    var k := Lookup(s, h, 0);
    var walked := Walked(s, k);
    if k == |s.list| then s.(ctxs := walked)
    else
      var id := s.list[k];
      s.(ctxs := walked[id := walked[id].(closer := Unlinked(join))], list := Removed(s.list, k))
  }

  /** CreateThread failed: the context is taken out by identity and freed. */
  function ApplySpawnFails(s: State, id: Id): State
    requires ListKnown(s) && id in s.ctxs
  {
    var k := Position(s.list, id);
    var walked := Walked(s, k);
    s.(ctxs := walked[id := walked[id].(frees := walked[id].frees + 1, creator := Failed)],
       list := if k < |s.list| then Removed(s.list, k) else s.list)
  }

  function Position(list: seq<Id>, id: Id): (r: nat)
    ensures r <= |list| && (r < |list| ==> list[r] == id) && forall i :: 0 <= i < r ==> list[i] != id
  {
    if list == [] || list[0] == id then 0 else 1 + Position(list[1..], id)
  }

  predicate Init(s: State) {
    s.ctxs == map[] && s.list == [] && s.open == map[]
  }

  // ---------------------------------------------------------------------------------
  // The invariant

  /** The thread has not reached its exchange yet. */
  predicate Before(r: Runner) {
    r.NotStarted? || r.Running? || r.Returned?
  }

  /** Who owns the context, by the phases of its three users. */
  predicate CtxOk(c: Ctx) {
    && !c.touchedAfterFree
    && (c.runner.NotStarted? <==> c.creator.Registered? || c.creator.Failed?)
    && (c.result == c.produced) && (!c.runner.NotStarted? && !c.runner.Running? ==> c.result.Some?)
    && (c.creator.Registered? || c.creator.Spawned? ==> c.closer.NotCalled? && c.h == 0)
    && (c.creator.Published? ==> c.h != 0)
    && (c.creator.Failed? ==> c.closer.NotCalled?)
    && match c.closer
       case NotCalled => c.frees == (if c.creator.Failed? then 1 else 0) && Live(c)
       case Unlinked(_) => c.frees == 0 && Live(c)
       case Reclaiming => c.frees == 0 && Live(c)
       case Saw(v) => c.frees == 0 && Live(c) && (v == 0 || v == 1) && (v == 1 ==> c.state == 1)
       case Waited => c.frees == 0 && c.runner.Exited? && c.state == 1
       case Got(v) => c.frees == 0 && c.runner.Exited? && c.state == 1 && v == c.produced
       case Sealed(v) => c.frees == 0 && c.runner.Exited? && v == c.produced
       case Joined(v) => c.frees == 1 && c.runner.Exited? && v == c.produced
       case OwnsFree => c.frees == 0 && c.runner.Exited?
       case Freed => c.frees == 1 && c.runner.Exited?
       case Asked =>
         || (c.frees == 0 && c.state == 2 && Before(c.runner))
         || (c.frees == 0 && (c.runner.MustFree? || c.runner.Marked?))
         || (c.frees == 1 && c.runner.ExitedFreed?)
  }

  /** Nobody has claimed the context: `state` only says whether the thread is done. */
  predicate Live(c: Ctx) {
    (Before(c.runner) && c.state == 0) || (c.runner.Exited? && c.state == 1)
  }

  predicate Linked(c: Ctx) {
    c.closer.NotCalled? && !c.creator.Failed?
  }

  ghost predicate Inv(s: State) {
    Registry(s) && AllOk(s) && Handles(s)
  }

  ghost predicate AllOk(s: State) {
    forall id :: id in s.ctxs ==> CtxOk(s.ctxs[id])
  }

  /** The registry lists exactly the contexts nobody has taken, each once. */
  ghost predicate Registry(s: State) {
    && ListKnown(s)
    && (forall i, j :: 0 <= i < j < |s.list| ==> s.list[i] != s.list[j])
    && (forall id :: id in s.ctxs && Linked(s.ctxs[id]) ==> id in s.list)
    && (forall i :: 0 <= i < |s.list| ==> Linked(s.ctxs[s.list[i]]))
  }

  /** Open handles and contexts refer to each other. */
  ghost predicate Handles(s: State) {
    && (forall id :: id in s.ctxs && Linked(s.ctxs[id]) && s.ctxs[id].creator.Published? ==>
          s.ctxs[id].h in s.open && s.open[s.ctxs[id].h] == id)
    && (forall id :: id in s.ctxs && s.ctxs[id].creator.Spawned? ==>
          s.ctxs[id].creator.h != 0 && s.ctxs[id].creator.h in s.open && s.open[s.ctxs[id].creator.h] == id)
    && (forall h :: h in s.open ==> h != 0 && s.open[h] in s.ctxs && HandleOf(s.ctxs[s.open[h]], h))
  }

  /** `h` is the handle of the thread that `c` belongs to. */
  predicate HandleOf(c: Ctx, h: Handle) {
    c.creator == Spawned(h) || (c.creator.Published? && c.h == h)
  }

  /** Detaching the null handle while a creation is in flight is the one misuse the code
      does not survive; see NullDetachTouchesFreed. */
  predicate Proper(s: State, step: Step) {
    step.DetachNull? ==> forall i :: 0 <= i < |s.list| && s.list[i] in s.ctxs ==> s.ctxs[s.list[i]].h != 0
  }

  /** Touching contexts that are not freed changes nothing. */
  lemma WalkedSame(s: State, upto: nat)
    requires Inv(s)
    ensures Walked(s, upto) == s.ctxs
  {
    forall id | id in s.ctxs ensures Walked(s, upto)[id] == s.ctxs[id] {
      if i :| 0 <= i < |s.list| && i <= upto && s.list[i] == id {
        assert Linked(s.ctxs[s.list[i]]) && CtxOk(s.ctxs[id]);
      }
    }
  }

  /** The registry search finds the context that the handle denotes. */
  lemma LookupFinds(s: State, h: Handle) returns (k: nat)
    requires Inv(s) && Usable(s, h)
    ensures k == Lookup(s, h, 0) && k < |s.list| && s.list[k] == s.open[h]
  {
    k := Lookup(s, h, 0);
    var id := s.open[h];
    assert id in s.list && s.ctxs[id].h == h;
    var i :| 0 <= i < |s.list| && s.list[i] == id;
    assert k <= i;
    var other := s.list[k];
    assert Linked(s.ctxs[other]) && CtxOk(s.ctxs[other]);
  }

  lemma InvCtx(s: State, id: Id)
    requires Inv(s) && id in s.ctxs
    ensures CtxOk(s.ctxs[id]) && (Linked(s.ctxs[id]) ==> id in s.list)
  {
  }

  lemma ChangeKeepsOk(s: State, id: Id, c: Ctx)
    requires AllOk(s) && id in s.ctxs && CtxOk(c)
    ensures AllOk(SetCtx(s, id, c))
  {
    hide CtxOk;
  }

  lemma ChangeKeepsRegistry(s: State, id: Id, c: Ctx)
    requires Registry(s) && id in s.ctxs && Linked(c) == Linked(s.ctxs[id])
    ensures Registry(SetCtx(s, id, c))
  {
    hide Linked;
  }

  /** A step that changes one context, keeping its place in the registry and its handle. */
  lemma LocalKeepsInv(s: State, id: Id, c: Ctx)
    requires Inv(s) && id in s.ctxs && CtxOk(c)
    requires Linked(c) == Linked(s.ctxs[id]) && c.h == s.ctxs[id].h && c.creator == s.ctxs[id].creator
    ensures Inv(SetCtx(s, id, c))
  {
    ChangeKeepsOk(s, id, c);
    ChangeKeepsRegistry(s, id, c);
    hide CtxOk, AllOk, Registry, Linked;
  }

  /** Positions in a list without duplicates. */
  lemma RemovedFacts(list: seq<Id>, k: nat)
    requires k < |list| && forall i, j :: 0 <= i < j < |list| ==> list[i] != list[j]
    ensures |Removed(list, k)| == |list| - 1
    ensures forall i, j :: 0 <= i < j < |list| - 1 ==> Removed(list, k)[i] != Removed(list, k)[j]
    ensures forall id :: id in Removed(list, k) <==> id in list && id != list[k]
  {
    var r := Removed(list, k);
    forall id ensures id in r <==> id in list && id != list[k] {
      if id in list && id != list[k] {
        var i :| 0 <= i < |list| && list[i] == id;
        assert r[if i < k then i else i - 1] == id;
      }
    }
  }

  lemma RemoveKeepsRegistry(s: State, k: nat, c: Ctx)
    requires Registry(s) && k < |s.list| && !Linked(c)
    ensures Registry(s.(ctxs := s.ctxs[s.list[k] := c], list := Removed(s.list, k)))
  {
    hide Linked, Removed;
    RemovedFacts(s.list, k);
    var t := s.(ctxs := s.ctxs[s.list[k] := c], list := Removed(s.list, k));
    forall i | 0 <= i < |t.list| ensures t.list[i] in t.ctxs && Linked(t.ctxs[t.list[i]]) {
      assert t.list[i] in t.list;
      var j :| 0 <= j < |s.list| && s.list[j] == t.list[i];
      assert Linked(s.ctxs[s.list[j]]);
    }
  }

  /** A step that takes one context out of the registry. */
  lemma RemoveKeepsInv(s: State, k: nat, c: Ctx)
    requires Inv(s) && k < |s.list| && CtxOk(c) && !Linked(c) && c.h == s.ctxs[s.list[k]].h
    requires c.creator == s.ctxs[s.list[k]].creator || (c.creator.Failed? && s.ctxs[s.list[k]].creator.Registered?)
    ensures Inv(s.(ctxs := s.ctxs[s.list[k] := c], list := Removed(s.list, k)))
  {
    RemoveKeepsRegistry(s, k, c);
    ChangeKeepsOk(s, s.list[k], c);
    hide CtxOk, Registry, Linked, Removed;
  }

  lemma StepKeepsInv(s: State, step: Step)
    requires Inv(s) && Enabled(s, step) && Proper(s, step)
    ensures Inv(Apply(s, step))
  {
    hide Inv;
    match step
    case Register(id) => RegisterKeepsInv(s, id);
    case Spawn(id, h) => SpawnKeepsInv(s, id, h);
    case SpawnFails(id) => SpawnFailsKeepsInv(s, id);
    case Publish(id) => PublishKeepsInv(s, id);
    case Call(h, join) => CallKeepsInv(s, h, join);
    case CloseHandle(h) => CloseKeepsInv(s, h);
    case DetachNull => NullKeepsInv(s);
    case _ => OwnKeepsInv(s, step);
  }

  lemma RegisterKeepsInv(s: State, id: Id)
    requires Inv(s) && Enabled(s, Register(id))
    ensures Inv(Apply(s, Register(id)))
  {
    var t := Apply(s, Register(id));
    assert CtxOk(t.ctxs[id]) && Linked(t.ctxs[id]);
    hide CtxOk, Linked;
    AddKeepsRegistry(s, id, t.ctxs[id]);
    hide Registry;
    assert AllOk(t) by { hide Handles; }
    hide AllOk;
  }

  lemma AddKeepsRegistry(s: State, id: Id, c: Ctx)
    requires Registry(s) && id !in s.ctxs && Linked(c)
    ensures Registry(s.(ctxs := s.ctxs[id := c], list := [id] + s.list))
  {
    hide Linked;
    var t := s.(ctxs := s.ctxs[id := c], list := [id] + s.list);
    forall i | 0 <= i < |t.list| ensures t.list[i] in t.ctxs && Linked(t.ctxs[t.list[i]]) {
      assert i > 0 ==> t.list[i] == s.list[i - 1];
    }
  }

  lemma SpawnKeepsInv(s: State, id: Id, h: Handle)
    requires Inv(s) && Enabled(s, Spawn(id, h))
    ensures Inv(Apply(s, Spawn(id, h)))
  {
    var c := s.ctxs[id].(creator := Spawned(h), runner := Running);
    assert CtxOk(s.ctxs[id]) && CtxOk(c) && Linked(c) == Linked(s.ctxs[id]);
    ChangeKeepsOk(s, id, c);
    ChangeKeepsRegistry(s, id, c);
    SpawnKeepsHandles(s, id, h, c);
    var t := Apply(s, Spawn(id, h));
    hide Handles;
    assert AllOk(t) by { hide CtxOk; }
    assert Registry(t) by { hide Linked; }
  }

  lemma SpawnKeepsHandles(s: State, id: Id, h: Handle, c: Ctx)
    requires Handles(s) && id in s.ctxs && s.ctxs[id].creator.Registered? && h != 0 && h !in s.open
    requires c.creator == Spawned(h)
    ensures Handles(SetCtx(s, id, c).(open := s.open[h := id]))
  {
    var t := SetCtx(s, id, c).(open := s.open[h := id]);
    forall g | g in t.open ensures g != 0 && t.open[g] in t.ctxs && HandleOf(t.ctxs[t.open[g]], g) {
      if g != h { assert HandleOf(s.ctxs[s.open[g]], g); }
    }
  }

  lemma SpawnFailsKeepsInv(s: State, id: Id)
    requires Inv(s) && Enabled(s, SpawnFails(id))
    ensures Inv(Apply(s, SpawnFails(id)))
  {
    hide Inv, Walked, Removed, Position, CtxOk, Linked;
    WalkedSame(s, Position(s.list, id));
    InvCtx(s, id);
    FailedOk(s.ctxs[id]);
    Listed(s.list, id);
    RemoveKeepsInv(s, Position(s.list, id), s.ctxs[id].(frees := s.ctxs[id].frees + 1, creator := Failed));
  }

  lemma FailedOk(c: Ctx)
    requires CtxOk(c) && c.creator.Registered?
    ensures Linked(c)
    ensures var d := c.(frees := c.frees + 1, creator := Failed); CtxOk(d) && !Linked(d)
  {
  }

  lemma Listed(list: seq<Id>, id: Id)
    requires id in list
    ensures Position(list, id) < |list|
  {
  }

  lemma PublishKeepsInv(s: State, id: Id)
    requires Inv(s) && Enabled(s, Publish(id))
    ensures Inv(Apply(s, Publish(id)))
  {
    var c := Touch(s.ctxs[id]).(h := s.ctxs[id].creator.h, creator := Published);
    assert AllOk(s) && CtxOk(s.ctxs[id]);
    PublishedOk(s.ctxs[id]);
    hide CtxOk, Linked;
    ChangeKeepsOk(s, id, c);
    ChangeKeepsRegistry(s, id, c);
    hide AllOk, Registry;
    PublishKeepsHandles(s, id, c);
  }

  lemma PublishedOk(c: Ctx)
    requires CtxOk(c) && c.creator.Spawned? && c.creator.h != 0
    ensures var d := Touch(c).(h := c.creator.h, creator := Published); CtxOk(d) && Linked(d) == Linked(c)
  {
  }

  lemma PublishKeepsHandles(s: State, id: Id, c: Ctx)
    requires Handles(s) && id in s.ctxs && s.ctxs[id].creator.Spawned? && Linked(c) == Linked(s.ctxs[id])
    requires c.creator.Published? && c.h == s.ctxs[id].creator.h
    ensures Handles(SetCtx(s, id, c))
  {
    hide Linked;
    var t := SetCtx(s, id, c);
    forall h | h in t.open ensures h != 0 && t.open[h] in t.ctxs && HandleOf(t.ctxs[t.open[h]], h) {
      assert HandleOf(s.ctxs[s.open[h]], h);
    }
  }

  lemma CallKeepsInv(s: State, h: Handle, join: bool)
    requires Inv(s) && Enabled(s, Call(h, join))
    ensures Inv(Apply(s, Call(h, join)))
  {
    hide Inv, Walked, Removed, Lookup, CtxOk, Linked;
    var k := LookupFinds(s, h);
    WalkedSame(s, k);
    InvCtx(s, s.list[k]);
    UnlinkedOk(s.ctxs[s.list[k]], join);
    RemoveKeepsInv(s, k, s.ctxs[s.list[k]].(closer := Unlinked(join)));
  }

  lemma UnlinkedOk(c: Ctx, join: bool)
    requires CtxOk(c) && c.creator.Published? && c.closer.NotCalled?
    ensures var d := c.(closer := Unlinked(join)); CtxOk(d) && !Linked(d)
  {
  }

  lemma CloseKeepsInv(s: State, h: Handle)
    requires Inv(s) && Enabled(s, CloseHandle(h))
    ensures Inv(Apply(s, CloseHandle(h)))
  {
    ClosedOk(s, h);
    var t := Apply(s, CloseHandle(h));
    hide CtxOk, Linked;
    assert AllOk(t) && Registry(t) by { hide Handles; }
    hide AllOk, Registry;
  }

  lemma ClosedOk(s: State, h: Handle)
    requires Inv(s) && Enabled(s, CloseHandle(h))
    ensures var c := s.ctxs[s.open[h]]; !c.creator.Spawned? && !Linked(c)
  {
    hide Handles, Registry;
    assert CtxOk(s.ctxs[s.open[h]]);
  }

  lemma NullKeepsInv(s: State)
    requires Inv(s) && Proper(s, DetachNull)
    ensures Inv(Apply(s, DetachNull))
  {
    WalkedSame(s, Lookup(s, 0, 0));
  }

  predicate ByThread(step: Step) {
    step.Compute? || step.Finish? || step.MarkSelf? || step.FreeSelf?
  }

  predicate ByJoiner(step: Step) {
    step.WaitOk? || step.WaitFails? || step.ReadResult? || step.Seal? || step.FreeJoined?
  }

  predicate ByReclaimer(step: Step) {
    step.StartReclaim? || step.ReadState? || step.Cas? || step.FreeReclaimed?
  }

  /** The context after a step of its thread. */
  lemma ThreadKeepsOk(s: State, step: Step)
    requires Enabled(s, step) && ByThread(step) && CtxOk(s.ctxs[step.id])
    ensures var c := Apply(s, step).ctxs[step.id];
            && CtxOk(c) && Linked(c) == Linked(s.ctxs[step.id])
            && c.h == s.ctxs[step.id].h && c.creator == s.ctxs[step.id].creator
  {
  }

  /** The context after a step of its joiner. */
  lemma JoinerKeepsOk(s: State, step: Step)
    requires Enabled(s, step) && ByJoiner(step) && CtxOk(s.ctxs[step.id])
    ensures var c := Apply(s, step).ctxs[step.id];
            && CtxOk(c) && Linked(c) == Linked(s.ctxs[step.id])
            && c.h == s.ctxs[step.id].h && c.creator == s.ctxs[step.id].creator
  {
  }

  /** The context after a step of the reclaim loop. */
  lemma ReclaimerKeepsOk(s: State, step: Step)
    requires Enabled(s, step) && ByReclaimer(step) && CtxOk(s.ctxs[step.id])
    ensures var c := Apply(s, step).ctxs[step.id];
            && CtxOk(c) && Linked(c) == Linked(s.ctxs[step.id])
            && c.h == s.ctxs[step.id].h && c.creator == s.ctxs[step.id].creator
  {
  }

  lemma OwnKeepsInv(s: State, step: Step)
    requires Inv(s) && Enabled(s, step) && (ByThread(step) || ByJoiner(step) || ByReclaimer(step))
    ensures Inv(Apply(s, step))
  {
    hide Inv, CtxOk, Linked;
    InvCtx(s, step.id);
    if ByThread(step) {
      ThreadKeepsOk(s, step);
    } else if ByJoiner(step) {
      JoinerKeepsOk(s, step);
    } else {
      ReclaimerKeepsOk(s, step);
    }
    LocalKeepsInv(s, step.id, Apply(s, step).ctxs[step.id]);
  }

  // ---------------------------------------------------------------------------------
  // Whole runs

  ghost predicate IsRun(run: seq<State>, steps: seq<Step>) {
    && |run| == |steps| + 1 && Init(run[0])
    && forall k :: 0 <= k < |steps| ==>
         Enabled(run[k], steps[k]) && Proper(run[k], steps[k]) && run[k + 1] == Apply(run[k], steps[k])
  }

  lemma {:induction false} RunKeepsInv(run: seq<State>, steps: seq<Step>, k: nat)
    requires IsRun(run, steps) && k < |run|
    ensures Inv(run[k])
    decreases k
  {
    if k > 0 {
      RunKeepsInv(run, steps, k - 1);
      StepKeepsInv(run[k - 1], steps[k - 1]);
    }
  }

  /** Both sides are done with the context. */
  predicate Finished(c: Ctx) {
    (c.runner.Exited? || c.runner.ExitedFreed?) && ClosedBy(c.closer)
  }

  /** In every interleaving: no context is touched after it was freed or freed twice, a
      joined or detached context whose thread has ended is freed exactly once, and a
      successful join returns what the thread function produced. */
  lemma ContextsFreedOnce(run: seq<State>, steps: seq<Step>, k: nat, id: Id)
    requires IsRun(run, steps) && k < |run| && id in run[k].ctxs
    ensures var c := run[k].ctxs[id];
            && !c.touchedAfterFree && c.frees <= 1
            && (Finished(c) ==> c.frees == 1)
            && (c.closer.Joined? ==> c.produced.Some? && c.closer.v == c.produced)
  {
    RunKeepsInv(run, steps, k);
    assert CtxOk(run[k].ctxs[id]);
  }

  /** The reclaim loop goes round again only when the thread has just finished, so it ends
      after at most two rounds. */
  lemma ReclaimRetriesOnce(s: State, id: Id)
    requires Inv(s) && Enabled(s, Cas(id)) && Apply(s, Cas(id)).ctxs[id].closer.Reclaiming?
    ensures s.ctxs[id].closer == Saw(0) && s.ctxs[id].runner.Exited? && s.ctxs[id].state == 1
  {
    assert CtxOk(s.ctxs[id]);
  }

  ghost predicate Runs(s: State, steps: seq<Step>, t: State)
    decreases |steps|
  {
    if steps == [] then s == t else Enabled(s, steps[0]) && Runs(Apply(s, steps[0]), steps[1..], t)
  }

  lemma {:induction false} RunsStep(s: State, step: Step, steps: seq<Step>, t: State)
    requires Enabled(s, step) && Runs(Apply(s, step), steps, t)
    ensures Runs(s, [step] + steps, t)
  {
    assert ([step] + steps)[1..] == steps;
  }

  /** A detach has taken hold of the context while its creation is still under way. */
  predicate Grabbed(s: State, id: Id) {
    && ListKnown(s) && id in s.ctxs
    && var c := s.ctxs[id];
       && c.closer == Unlinked(false) && c.frees == 0
       && (c.creator.Registered? <==> c.runner.NotStarted?) && (c.creator.Registered? || c.creator.Spawned?) && Live(c)
  }

  ghost predicate Ruined(t: State, id: Id) {
    id in t.ctxs && t.ctxs[id].touchedAfterFree
  }

  /** Whatever the thread has done so far, a grabbed context can be freed before its creator writes to it. */
  lemma GrabbedIsRuined(s: State, id: Id, v: Value, h: Handle) returns (steps: seq<Step>, t: State)
    requires Grabbed(s, id) && h != 0 && h !in s.open
    ensures Runs(s, steps, t) && Ruined(t, id)
  {
    var c := s.ctxs[id];
    if c.runner.Exited? {
      steps, t := ReclaimThenPublish(s, id);
    } else if c.runner.Returned? {
      steps, t := AskThenPublish(s, id);
    } else if c.runner.Running? {
      var s1 := Apply(s, Compute(id, v));
      var rest, end := AskThenPublish(s1, id);
      steps, t := [Compute(id, v)] + rest, end;
      RunsStep(s, Compute(id, v), rest, t);
    } else {
      var s1 := Apply(s, Spawn(id, h));
      var s2 := Apply(s1, Compute(id, v));
      var rest, end := AskThenPublish(s2, id);
      RunsStep(s1, Compute(id, v), rest, end);
      steps, t := [Spawn(id, h)] + ([Compute(id, v)] + rest), end;
      RunsStep(s, Spawn(id, h), [Compute(id, v)] + rest, t);
    }
  }

  /** The thread is done: the detacher frees, the creator publishes. */
  lemma ReclaimThenPublish(s: State, id: Id) returns (steps: seq<Step>, t: State)
    requires Grabbed(s, id) && s.ctxs[id].runner.Exited?
    ensures Runs(s, steps, t) && Ruined(t, id)
  {
    var s1 := Apply(s, StartReclaim(id));
    var s2 := Apply(s1, ReadState(id));
    var s3 := Apply(s2, Cas(id));
    var rest, end := FreeThenPublish(s3, id);
    t := end;
    hide Apply;
    RunsStep(s2, Cas(id), rest, t);
    RunsStep(s1, ReadState(id), [Cas(id)] + rest, t);
    steps := [StartReclaim(id)] + ([ReadState(id)] + ([Cas(id)] + rest));
    RunsStep(s, StartReclaim(id), [ReadState(id)] + ([Cas(id)] + rest), t);
  }

  lemma FreeThenPublish(s: State, id: Id) returns (steps: seq<Step>, t: State)
    requires ListKnown(s) && id in s.ctxs && s.ctxs[id].closer.OwnsFree? && s.ctxs[id].creator.Spawned?
    ensures Runs(s, steps, t) && Ruined(t, id)
  {
    var s1 := Apply(s, FreeReclaimed(id));
    t := Apply(s1, Publish(id));
    assert Ruined(t, id);
    hide Apply;
    assert Runs(t, [], t);
    RunsStep(s1, Publish(id), [], t);
    steps := [FreeReclaimed(id)] + ([Publish(id)] + []);
    RunsStep(s, FreeReclaimed(id), [Publish(id)] + [], t);
  }

  /** The thread is still before its exchange: it is asked to free, does so, and the creator publishes. */
  lemma AskThenPublish(s: State, id: Id) returns (steps: seq<Step>, t: State)
    requires Grabbed(s, id) && s.ctxs[id].runner.Returned?
    ensures Runs(s, steps, t) && Ruined(t, id)
  {
    var s1 := Apply(s, StartReclaim(id));
    var s2 := Apply(s1, ReadState(id));
    var s3 := Apply(s2, Cas(id));
    var rest, end := ExitThenPublish(s3, id);
    t := end;
    hide Apply;
    RunsStep(s2, Cas(id), rest, t);
    RunsStep(s1, ReadState(id), [Cas(id)] + rest, t);
    steps := [StartReclaim(id)] + ([ReadState(id)] + ([Cas(id)] + rest));
    RunsStep(s, StartReclaim(id), [ReadState(id)] + ([Cas(id)] + rest), t);
  }

  lemma ExitThenPublish(s: State, id: Id) returns (steps: seq<Step>, t: State)
    requires ListKnown(s) && id in s.ctxs && s.ctxs[id].runner.Returned? && s.ctxs[id].state == 2
    requires s.ctxs[id].creator.Spawned?
    ensures Runs(s, steps, t) && Ruined(t, id)
  {
    var s1 := Apply(s, Finish(id));
    var s2 := Apply(s1, MarkSelf(id));
    var s3 := Apply(s2, FreeSelf(id));
    t := Apply(s3, Publish(id));
    assert Ruined(t, id);
    hide Apply;
    assert Runs(t, [], t);
    RunsStep(s3, Publish(id), [], t);
    RunsStep(s2, FreeSelf(id), [Publish(id)] + [], t);
    RunsStep(s1, MarkSelf(id), [FreeSelf(id)] + ([Publish(id)] + []), t);
    steps := [Finish(id)] + ([MarkSelf(id)] + ([FreeSelf(id)] + ([Publish(id)] + [])));
    RunsStep(s, Finish(id), [MarkSelf(id)] + ([FreeSelf(id)] + ([Publish(id)] + [])), t);
  }

  /**
   The condition on detaching the null handle is exact: in every state that does not meet it the
   detach picks a context under construction, and some continuation writes to it after it was
   freed. `h` is the handle that a thread still to be created would get.
   */
  lemma NullDetachTouchesFreed(s: State, v: Value, h: Handle) returns (steps: seq<Step>, t: State, id: Id)
    requires Inv(s) && !Proper(s, DetachNull) && h != 0 && h !in s.open
    ensures Runs(s, [DetachNull] + steps, t) && Ruined(t, id)
  {
    var k := Lookup(s, 0, 0);
    id := s.list[k];
    WalkedSame(s, k);
    InvCtx(s, id);
    InvLinked(s, k);
    UnlinkKnown(s, 0, false);
    hide Inv;
    var s1 := Apply(s, DetachNull);
    assert s1.ctxs[id] == s.ctxs[id].(closer := Unlinked(false)) && s1.open == s.open;
    steps, t := GrabbedIsRuined(s1, id, v, h);
    hide Apply;
    RunsStep(s, DetachNull, steps, t);
  }

  lemma InvLinked(s: State, k: nat)
    requires Inv(s) && k < |s.list|
    ensures s.list[k] in s.ctxs && Linked(s.ctxs[s.list[k]])
  {
  }

  lemma UnlinkKnown(s: State, h: Handle, join: bool)
    requires ListKnown(s)
    ensures ListKnown(Unlink(s, h, join))
  {
  }

  // ---------------------------------------------------------------------------------
  // Progress

  /** What happens next to a context whose handle was joined or detached: first the thread runs to its end,
      then the caller. */
  function NextStep(id: Id, c: Ctx, v: Value): Step {
    match c.runner
    case Running => Compute(id, v)
    case Returned => Finish(id)
    case MustFree => MarkSelf(id)
    case Marked => FreeSelf(id)
    case _ =>
      match c.closer
      case Unlinked(join) => if join then WaitOk(id) else StartReclaim(id)
      case Waited => ReadResult(id)
      case Got(_) => Seal(id)
      case Sealed(_) => FreeJoined(id)
      case Reclaiming => ReadState(id)
      case Saw(_) => Cas(id)
      case _ => FreeReclaimed(id)
  }

  function CallerRank(c: Closer): nat {
    match c
    case Unlinked(_) => 5
    case Waited => 4
    case Saw(v) => if v == 0 then 4 else 2
    case Reclaiming => 3
    case Got(_) => 3
    case Sealed(_) => 2
    case OwnsFree => 1
    case _ => 0
  }

  /** How many steps a context has left at most. */
  function Rank(c: Ctx): nat {
    CallerRank(c.closer) +
    match c.runner case Running => 4 case Returned => 3 case MustFree => 2 case Marked => 1 case _ => 0
  }

  lemma NextAdvances(s: State, id: Id, v: Value)
    requires Inv(s) && id in s.ctxs && !s.ctxs[id].closer.NotCalled? && !Finished(s.ctxs[id])
    ensures Enabled(s, NextStep(id, s.ctxs[id], v)) && !NextStep(id, s.ctxs[id], v).DetachNull?
    ensures var t := Apply(s, NextStep(id, s.ctxs[id], v));
            && OnlyAt(s, id, t) && !t.ctxs[id].closer.NotCalled? && Rank(t.ctxs[id]) < Rank(s.ctxs[id])
  {
    InvCtx(s, id);
    InvKnown(s);
    hide Inv;
    if Ended(s.ctxs[id]) {
      hide CtxOk;
      CallerAdvances(s, id, v);
    } else {
      ThreadAdvances(s, id, v);
    }
  }

  predicate Ended(c: Ctx) {
    c.runner.Exited? || c.runner.ExitedFreed?
  }

  lemma ThreadAdvances(s: State, id: Id, v: Value)
    requires ListKnown(s) && id in s.ctxs && !s.ctxs[id].closer.NotCalled?
    requires !Ended(s.ctxs[id]) && !s.ctxs[id].runner.NotStarted?
    ensures Enabled(s, NextStep(id, s.ctxs[id], v)) && !NextStep(id, s.ctxs[id], v).DetachNull?
    ensures var t := Apply(s, NextStep(id, s.ctxs[id], v));
            && OnlyAt(s, id, t) && !t.ctxs[id].closer.NotCalled? && Rank(t.ctxs[id]) < Rank(s.ctxs[id])
  {
    hide ListKnown, CallerRank, ApplyCas, Unlink, ApplySpawnFails;
  }

  lemma CallerAdvances(s: State, id: Id, v: Value)
    requires ListKnown(s) && id in s.ctxs && !s.ctxs[id].closer.NotCalled?
    requires Ended(s.ctxs[id]) && !Finished(s.ctxs[id]) && CtxOk(s.ctxs[id])
    ensures Enabled(s, NextStep(id, s.ctxs[id], v)) && !NextStep(id, s.ctxs[id], v).DetachNull?
    ensures var t := Apply(s, NextStep(id, s.ctxs[id], v));
            && OnlyAt(s, id, t) && !t.ctxs[id].closer.NotCalled? && Rank(t.ctxs[id]) < Rank(s.ctxs[id])
  {
    hide ListKnown, Unlink, ApplySpawnFails;
  }

  /** Only the context `id` differs. */
  predicate OnlyAt(s: State, id: Id, t: State) {
    id in s.ctxs && id in t.ctxs && t.ctxs == s.ctxs[id := t.ctxs[id]] && t.list == s.list && t.open == s.open
  }

  lemma OnlyAtTrans(s: State, id: Id, t: State, u: State)
    requires OnlyAt(s, id, t) && OnlyAt(t, id, u)
    ensures OnlyAt(s, id, u)
  {
  }

  lemma FinishedFreed(s: State, id: Id)
    requires Inv(s) && id in s.ctxs && Finished(s.ctxs[id])
    ensures s.ctxs[id].frees == 1 && OnlyAt(s, id, s) && Runs(s, [], s)
  {
    InvCtx(s, id);
    hide Inv;
  }

  lemma InvKnown(s: State)
    requires Inv(s)
    ensures ListKnown(s)
  {
  }

  /** Nobody is ever stuck: in every state a joined or detached context can be brought to its end by its own
      thread and its own caller, in at most nine steps, and is then freed exactly once. */
  lemma {:induction false} AlwaysFinishes(s: State, id: Id, v: Value) returns (steps: seq<Step>, t: State)
    requires Inv(s) && id in s.ctxs && !s.ctxs[id].closer.NotCalled?
    ensures Runs(s, steps, t) && |steps| <= Rank(s.ctxs[id]) && Inv(t)
    ensures OnlyAt(s, id, t) && Finished(t.ctxs[id]) && t.ctxs[id].frees == 1
    decreases Rank(s.ctxs[id])
  {
    hide Inv, Apply, Enabled, NextStep, Rank, Runs, Finished, OnlyAt;
    if Finished(s.ctxs[id]) {
      FinishedFreed(s, id);
      steps, t := [], s;
    } else {
      var step := NextStep(id, s.ctxs[id], v);
      NextAdvances(s, id, v);
      StepKeepsInv(s, step);
      var next := Apply(s, step);
      InBoth(s, id, next);
      var rest, end := AlwaysFinishes(next, id, v);
      OnlyAtTrans(s, id, next, end);
      InBoth(s, id, end);
      RunsStep(s, step, rest, end);
      steps, t := [step] + rest, end;
    }
  }

  lemma InBoth(s: State, id: Id, t: State)
    requires OnlyAt(s, id, t)
    ensures id in s.ctxs && id in t.ctxs
  {
  }
}

/** The hook pipeline of the later bundle (`Hooks` in dist/duck-storage.js).
    Registration and selection are those of src/lib/hooks.js; what differs is
    the run.  Every matched callback gets the same payload object and the same
    rollback list, its return value is ignored, and what it changes in them
    (or in the plugins' own state) stays changed.  The first failure ends the
    run and is rethrown as an `ErrorHook`.

    A callback here is a function from the context it can see and change to
    the context it leaves behind, or the error it throws; a throwing callback
    is taken to change nothing before it throws.
 */
module DistHooks {
  import opened Results
  import opened JsValues
  import Hooks
  import Lock
  import InMemoryDb

  /** The state the bundled plugins keep for one rack: the lock set of the
      lock plugin and the entry map of the in-memory store. */
  datatype World = World(locks: Lock.LockSet, db: InMemoryDb.Db)

  /** What one `trigger` call shares among its callbacks: the payload object,
      the `result` array it may hold, the rollback list, and the plugins'
      state. */
  datatype Ctx = Ctx(payload: Value, result: seq<Value>, rollback: seq<Lock.Rollback>, world: World)

  /** How a `trigger` call ends: the context it leaves and whether it threw. */
  datatype Fired = Fired(ctx: Ctx, outcome: Outcome)

  /** `trigger(thisArg, lifeCycle, hookName, payload, rollback)` as written:
      on a failure the rollback list is handed to `Promise.all`, which only
      awaits its entries and never calls them, so nothing is undone. */
  function TriggerAsWritten(hooks: seq<Hooks.Hook<Ctx>>, lifeCycle: string, hookName: string, c: Ctx): (r: Fired)
    ensures Hooks.Matched(hooks, lifeCycle, hookName) == [] ==> r == Fired(c, Pass)
    ensures r.outcome.Pass? <==> Hooks.Fire(hooks, lifeCycle, hookName, c).Ok?
    ensures r.outcome.Pass? ==> Hooks.Fire(hooks, lifeCycle, hookName, c) == Ok(r.ctx)
    ensures r.outcome.Fail? ==> Hooks.Fire(hooks, lifeCycle, hookName, c) == Err(r.outcome.error)
    ensures r.outcome.Fail? ==> Hooks.Chain(Hooks.Matched(hooks, lifeCycle, hookName), c).Stopped?
    ensures r.outcome.Fail? ==> r.ctx == Hooks.Chain(Hooks.Matched(hooks, lifeCycle, hookName), c).input
  {
    var m := Hooks.Matched(hooks, lifeCycle, hookName);
    match Hooks.Chain(m, c)
    case Done(q) => Fired(q, Pass)
    case Stopped(i, x, e) =>
      Fired(x, Fail(HookFailure(e.message, hookName, lifeCycle, e)))
  }

  /** Calling every closure of the rollback list, in order. */
  function Undo(locks: Lock.LockSet, rollback: seq<Lock.Rollback>): (r: Lock.LockSet)
    ensures forall i :: 0 <= i < |rollback| ==> !Lock.IsLocked(r, rollback[i].id)
    ensures forall x :: (forall i :: 0 <= i < |rollback| ==> rollback[i].id != x) ==> (Lock.IsLocked(r, x) <==> Lock.IsLocked(locks, x))
    decreases |rollback|
  {
    if rollback == [] then locks
    else
      var rest := Undo(Lock.RunRollback(locks, rollback[0]), rollback[1..]);
      assert forall i :: 1 <= i < |rollback| ==> rollback[i] == rollback[1..][i - 1];
      rest
  }

  /** `trigger` as evidently intended: on a failure every closure pushed onto
      the rollback list is called before the `ErrorHook` is thrown. */
  function Trigger(hooks: seq<Hooks.Hook<Ctx>>, lifeCycle: string, hookName: string, c: Ctx): (r: Fired)
    ensures Hooks.Matched(hooks, lifeCycle, hookName) == [] ==> r == Fired(c, Pass)
    ensures r.outcome == TriggerAsWritten(hooks, lifeCycle, hookName, c).outcome
    ensures r.outcome.Pass? ==> r == TriggerAsWritten(hooks, lifeCycle, hookName, c)
    ensures r.outcome.Fail? ==>
      var w := TriggerAsWritten(hooks, lifeCycle, hookName, c).ctx;
      && r.ctx == w.(world := w.world.(locks := Undo(w.world.locks, w.rollback)))
      && forall i :: 0 <= i < |w.rollback| ==> !Lock.IsLocked(r.ctx.world.locks, w.rollback[i].id)
  {
    var w := TriggerAsWritten(hooks, lifeCycle, hookName, c);
    if w.outcome.Pass? then w
    else Fired(w.ctx.(world := w.ctx.world.(locks := Undo(w.ctx.world.locks, w.ctx.rollback))), w.outcome)
  }

  /** `trigger` under `reading`: as written, or with the rollback run. */
  function TriggerAs(reading: Reading, hooks: seq<Hooks.Hook<Ctx>>, lifeCycle: string, hookName: string, c: Ctx): (r: Fired)
    ensures r.outcome == TriggerAsWritten(hooks, lifeCycle, hookName, c).outcome
    ensures r.outcome.Pass? ==> Hooks.Fire(hooks, lifeCycle, hookName, c) == Ok(r.ctx)
    ensures r.outcome.Fail? ==> Hooks.Fire(hooks, lifeCycle, hookName, c) == Err(r.outcome.error)
    ensures reading.AsWritten? ==> r == TriggerAsWritten(hooks, lifeCycle, hookName, c)
    ensures reading.Corrected? ==> r == Trigger(hooks, lifeCycle, hookName, c)
  {
    match reading
    case AsWritten => TriggerAsWritten(hooks, lifeCycle, hookName, c)
    case Corrected => Trigger(hooks, lifeCycle, hookName, c)
  }

  // ---------------------------------------------------------------------------
  // The lock plugin's update hooks, as callbacks on the shared context
  // ---------------------------------------------------------------------------

  /** before:update of the lock plugin: lock `oldEntry._id` when `doLock`
      (under `reading`) says so, and push its unlock closure onto the shared
      rollback list. */
  function LockBeforeUpdate(reading: Reading, c: Ctx): (r: Result<Ctx>)
    ensures r.Ok? <==> Lock.BeforeWrite(reading, c.world.locks, c.payload, "oldEntry", c.rollback).Ok?
    ensures r.Ok? ==>
      var s := Lock.BeforeWrite(reading, c.world.locks, c.payload, "oldEntry", c.rollback).value;
      r.value == c.(rollback := s.rollback, world := c.world.(locks := s.locks))
  {
    var s :- Lock.BeforeWrite(reading, c.world.locks, c.payload, "oldEntry", c.rollback);
    Ok(c.(rollback := s.rollback, world := c.world.(locks := s.locks)))
  }

  /** after:update of the lock plugin: unlock `oldEntry._id`. */
  function LockAfterUpdate(c: Ctx): (r: Result<Ctx>)
    ensures r.Ok? <==> Lock.AfterWrite(c.world.locks, c.payload, "oldEntry").Ok?
    ensures r.Ok? ==> r.value == c.(world := c.world.(locks := Lock.AfterWrite(c.world.locks, c.payload, "oldEntry").value))
  {
    var locks :- Lock.AfterWrite(c.world.locks, c.payload, "oldEntry");
    Ok(c.(world := c.world.(locks := locks)))
  }

  /** A callback that always throws `e`: a later before:update hook rejecting
      the write (a unique-key collision, say). */
  function Reject(e: Error): Ctx -> Result<Ctx> {
    (c: Ctx) => Err(e)
  }

  /** The two callbacks of the lock scenario, in registration order. */
  function LockThenReject(reading: Reading, e: Error): (hooks: seq<Hooks.Hook<Ctx>>)
    ensures Hooks.Matched(hooks, "before", "update") == hooks
  {
    [Hooks.Hook("before", "update", (c: Ctx) => LockBeforeUpdate(reading, c)), Hooks.Hook("before", "update", Reject(e))]
  }

  /** The run of the lock scenario: the lock hook succeeds, the next one
      throws, and the context reached is the one the lock hook left. */
  lemma LockThenRejectRun(reading: Reading, c: Ctx, e: Error)
    requires LockBeforeUpdate(reading, c).Ok?
    ensures Hooks.Chain(LockThenReject(reading, e), c) == Hooks.Stopped(1, LockBeforeUpdate(reading, c).value, e)
  {
    var hooks := LockThenReject(reading, e);
    var q := LockBeforeUpdate(reading, c).value;
    assert hooks[..|hooks| - 1] == hooks[..1];
    assert hooks[..1][..0] == [];
    assert hooks[0].cb(c) == Ok(q);
    assert Hooks.Chain(hooks[..1], c) == Hooks.Done(q);
    assert hooks[1].cb(q) == Err(e);
  }

  /** A before:update hook that locks `oldEntry._id`, followed by one that
      throws.  As written, the id is still locked after the `ErrorHook`. The
      next write to that entry then waits for a lock nobody will release, and
      times out.  With the rollback run, the id is free again and the lock set
      is the one the trigger started from.  The lock is taken only when
      `doLock` holds for the state: as written, that needs a state such as
      `{ lock: { skip: false } }` (Lock.DoLockSkipFalse); as corrected, any
      state without a truthy `lock.skip`. */
  lemma RollbackAsWrittenKeepsLock(reading: Reading, c: Ctx, e: Error)
    requires c.rollback == []
    requires LockBeforeUpdate(reading, c).Ok?
    requires Lock.Decide(reading, SafeGet(c.payload, "state"))
    ensures var id := SafeGet(SafeGet(c.payload, "oldEntry"), "_id");
      var w := TriggerAsWritten(LockThenReject(reading, e), "before", "update", c);
      var f := Trigger(LockThenReject(reading, e), "before", "update", c);
      && w.outcome == Fail(HookFailure(e.message, "update", "before", e))
      && f.outcome == w.outcome
      && Lock.IsLocked(w.ctx.world.locks, id)
      && Lock.Acquire(w.ctx.world.locks, id) == Err(Plain("lock time-out for _id " + ToText(id)))
      && f.ctx.world.locks == c.world.locks
      && Lock.Acquire(f.ctx.world.locks, id).Ok?
  {
    var id := SafeGet(SafeGet(c.payload, "oldEntry"), "_id");
    LockThenRejectRun(reading, c, e);
    var s := Lock.BeforeWrite(reading, c.world.locks, c.payload, "oldEntry", c.rollback).value;
    assert s.rollback == [Lock.UnlockId(id)];
    assert s.locks == c.world.locks + {id};
    assert !Lock.IsLocked(c.world.locks, id);
    var w := TriggerAsWritten(LockThenReject(reading, e), "before", "update", c);
    assert w.ctx == LockBeforeUpdate(reading, c).value;
    assert Undo(s.locks, s.rollback) == (c.world.locks + {id}) - {id};
    assert (c.world.locks + {id}) - {id} == c.world.locks;
  }

  // ---------------------------------------------------------------------------
  // The in-memory store's before:update hook, as a callback
  // ---------------------------------------------------------------------------

  /** The payload object as the in-memory hook reads it: the context's
      payload with its `result` array. */
  function WithResult(c: Ctx): (p: Value)
    ensures SafeGet(p, "result") == Arr(c.result)
    ensures forall k :: k != "result" ==> SafeGet(p, k) == SafeGet(c.payload, k)
  {
    var props := Put(OwnProps(c.payload), "result", Arr(c.result));
    assert forall k :: Get(props, k) == if k == "result" then Arr(c.result) else Get(OwnProps(c.payload), k) by {
      forall k ensures Get(props, k) == if k == "result" then Arr(c.result) else Get(OwnProps(c.payload), k) {
        PutGet(OwnProps(c.payload), "result", Arr(c.result), k);
      }
    }
    Obj(props)
  }

  /** before:update of the in-memory store of src/lib/plugins/in-memory-db.js
      for rack `rack` (the bundle does not install it by default; a storage
      takes it through `plugin`): overwrite the stored entry and push it onto
      `result`. */
  function StoreBeforeUpdate(rack: string): Ctx -> Result<Ctx> {
    (c: Ctx) =>
      match InMemoryDb.BeforeUpdate(c.world.db, rack, WithResult(c))
      case Err(e) => Err(e)
      case Ok(s) =>
        match s.result
        case Arr(items) => Ok(c.(result := items, world := c.world.(db := s.db)))
        case _ => Err(TypeError("result.push is not a function"))
  }

  /** The in-memory hook stores the entry under its id and pushes exactly that
      entry. */
  lemma StoreBeforeUpdateStores(rack: string, c: Ctx)
    requires rack in c.world.db && !IsNil(c.payload) && !IsNil(SafeGet(c.payload, "entry"))
    ensures StoreBeforeUpdate(rack)(c).Ok?
    ensures var entry := SafeGet(c.payload, "entry");
      var r := StoreBeforeUpdate(rack)(c).value;
      && r.result == c.result + [entry]
      && rack in r.world.db
      && Get(r.world.db[rack], ToText(SafeGet(entry, "_id"))) == entry
      && r.world.locks == c.world.locks
  {
    var p := WithResult(c);
    assert SafeGet(p, "entry") == SafeGet(c.payload, "entry");
  }
}

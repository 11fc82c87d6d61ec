/** The lock plugin (src/lib/plugins/lock.js, bundled unchanged in
    dist/duck-storage.js): a set of locked ids, the `doLock(state)` decision
    built from Ramda combinators, and the hooks that take a lock before a
    create, update or delete, leave an unlock closure on the rollback list,
    and release the lock after an update or delete.

    Waiting for a held lock (an event wake-up raced against a time-out) is
    timing; here a lock that is held simply fails with the time-out error.
 */
module Lock {
  import opened Results
  import opened JsValues
  import opened Paths

  /** The `locked` set of one rack. */
  type LockSet = set<Value>

  // ---------------------------------------------------------------------------
  // lock, unlock, isLocked
  // ---------------------------------------------------------------------------

  predicate IsLocked(locks: LockSet, id: Value) {
    id in locks
  }

  /** `duckRack.lock(id)`: a free id is added; a held id that is never
      released ends in the time-out error. */
  function Acquire(locks: LockSet, id: Value): (r: Result<LockSet>)
    ensures r.Ok? <==> !IsLocked(locks, id)
    ensures r.Ok? ==> IsLocked(r.value, id)
    ensures r.Ok? ==> forall x :: x != id ==> (IsLocked(r.value, x) <==> IsLocked(locks, x))
    ensures r.Err? ==> r.error == Plain("lock time-out for _id " + ToText(id))
  {
    if id in locks then Err(Plain("lock time-out for _id " + ToText(id)))
    else Ok(locks + {id})
  }

  /** `duckRack.unlock(id)`: whoever locked it. */
  function Release(locks: LockSet, id: Value): (r: LockSet)
    ensures !IsLocked(r, id)
    ensures forall x :: x != id ==> (IsLocked(r, x) <==> IsLocked(locks, x))
  {
    locks - {id}
  }

  /** Unlocking undoes locking a free id. */
  lemma ReleaseUndoesAcquire(locks: LockSet, id: Value)
    requires !IsLocked(locks, id)
    ensures Acquire(locks, id).Ok?
    ensures Release(Acquire(locks, id).value, id) == locks
  {
  }

  // ---------------------------------------------------------------------------
  // doLock
  // ---------------------------------------------------------------------------

  /** `R.path(['lock', 'skip'])`. */
  function LockSkip(state: Value): Value {
    GetIn(state, ["lock", "skip"])
  }

  /** `isObj`: `typeof v === 'object'` and not an array, so `null` counts. */
  predicate IsObj(v: Value) {
    TypeOf(v) == "object" && !v.Arr?
  }

  /** Only objects carry a `lock.skip`. */
  lemma LockSkipOfNonObject(state: Value)
    ensures !state.Obj? ==> LockSkip(state) == Undefined
  {
    if !state.Obj? {
      SafeGetName(state, "lock");
      SafeGetName(Undefined, "skip");
    }
  }

  /** `skipLock`, the `R.cond` as written: `false` for a non-object, `true`
      when `lock.skip` is nil, and `lock.skip` itself otherwise. */
  function SkipLockAsWritten(state: Value): Value {
    if !IsObj(state) then Bool(false)
    else if IsNil(LockSkip(state)) then Bool(true)
    else LockSkip(state)
  }

  /** `doLock = R.compose(R.not, skipLock)` as written.  It locks for anything
      that is not an object (undefined, primitives, arrays), never for an
      object without `lock.skip` (including `null` and `{}`), and otherwise
      exactly when `lock.skip` is falsy. */
  function DoLockAsWritten(state: Value): (r: bool)
    ensures !IsObj(state) ==> r
    ensures IsObj(state) && IsNil(LockSkip(state)) ==> !r
    ensures IsObj(state) && !IsNil(LockSkip(state)) ==> r == !Truthy(LockSkip(state))
  {
    !Truthy(SkipLockAsWritten(state))
  }

  /** `skipLock` with the nil case mapped to `R.F`: a missing `lock.skip`
      does not skip the lock. */
  function SkipLock(state: Value): Value {
    if !IsObj(state) then Bool(false)
    else if IsNil(LockSkip(state)) then Bool(false)
    else LockSkip(state)
  }

  /** The decision the plugin evidently intends: lock unless `lock.skip` is
      truthy. */
  function DoLock(state: Value): (r: bool)
    ensures r <==> !Truthy(LockSkip(state))
  {
    LockSkipOfNonObject(state);
    !Truthy(SkipLock(state))
  }

  /** The two decisions part exactly on objects without `lock.skip`, which is
      what every rack operation of the bundle passes in (`state = {}` plus the
      method name). */
  lemma DoLockAsWrittenDiffers(state: Value)
    ensures DoLockAsWritten(state) != DoLock(state) <==> IsObj(state) && IsNil(LockSkip(state))
  {
  }

  /** A state whose `lock.skip` is `false` is locked either way. */
  lemma DoLockSkipFalse()
    ensures var state := Obj([Prop("lock", Obj([Prop("skip", Bool(false))]))]);
      DoLockAsWritten(state) && DoLock(state)
  {
    var state := Obj([Prop("lock", Obj([Prop("skip", Bool(false))]))]);
    assert SafeGet(state, "lock") == Obj([Prop("skip", Bool(false))]);
    assert LockSkip(state) == Bool(false);
  }

  /** The default hook state `{}` is never locked as written. */
  lemma DoLockAsWrittenSkipsEmptyState()
    ensures !DoLockAsWritten(Obj([]))
    ensures DoLock(Obj([]))
  {
    assert LockSkip(Obj([])) == Undefined;
  }

  // ---------------------------------------------------------------------------
  // The hooks
  // ---------------------------------------------------------------------------

  /** A closure pushed onto the rollback list: `duckRack.unlock.bind(duckRack, _id)`. */
  datatype Rollback = UnlockId(id: Value)

  function RunRollback(locks: LockSet, r: Rollback): LockSet {
    Release(locks, r.id)
  }

  /** The lock set and the rollback list after a hook. */
  datatype Step = Step(locks: LockSet, rollback: seq<Rollback>)

  /** The decision the lock hooks take under `reading`. */
  function Decide(reading: Reading, state: Value): (r: bool)
    ensures reading.AsWritten? ==> r == DoLockAsWritten(state)
    ensures reading.Corrected? ==> (r <==> !Truthy(LockSkip(state)))
  {
    match reading
    case AsWritten => DoLockAsWritten(state)
    case Corrected => DoLock(state)
  }

  /** before:create and before:delete (`key` = "entry") and before:update
      (`key` = "oldEntry"): read `_id` from `payload[key]`, lock it when
      `doLock(state)` (as written or as corrected), then push its unlock
      closure.  A time-out pushes nothing. */
  function BeforeWrite(reading: Reading, locks: LockSet, payload: Value, key: string, rollback: seq<Rollback>): (r: Result<Step>)
    ensures r.Ok? <==>
      && !IsNil(payload) && !IsNil(SafeGet(payload, key))
      && !(Decide(reading, SafeGet(payload, "state")) && IsLocked(locks, SafeGet(SafeGet(payload, key), "_id")))
    ensures r.Ok? ==> var id := SafeGet(SafeGet(payload, key), "_id");
      && r.value.rollback == rollback + [UnlockId(id)]
      && r.value.locks == if Decide(reading, SafeGet(payload, "state")) then locks + {id} else locks
  {
    var target :- Member(payload, key);
    var id :- Member(target, "_id");
    var state := SafeGet(payload, "state");
    var locks' :- if Decide(reading, state) then Acquire(locks, id) else Ok(locks);
    Ok(Step(locks', rollback + [UnlockId(id)]))
  }

  /** Whether or not the hook locked, its rollback closure leaves the id free
      and, when the id was free before, restores the lock set. */
  lemma BeforeWriteRollback(reading: Reading, locks: LockSet, payload: Value, key: string, rollback: seq<Rollback>)
    requires BeforeWrite(reading, locks, payload, key, rollback).Ok?
    ensures var s := BeforeWrite(reading, locks, payload, key, rollback).value;
      var id := SafeGet(SafeGet(payload, key), "_id");
      && !IsLocked(RunRollback(s.locks, s.rollback[|s.rollback| - 1]), id)
      && (!IsLocked(locks, id) ==> RunRollback(s.locks, s.rollback[|s.rollback| - 1]) == locks)
  {
  }

  /** after:update (`key` = "oldEntry") and after:delete (`key` = "entry"):
      unlock `payload[key]._id`. */
  function AfterWrite(locks: LockSet, payload: Value, key: string): (r: Result<LockSet>)
    ensures r.Ok? <==> !IsNil(payload) && !IsNil(SafeGet(payload, key))
    ensures r.Ok? ==> r.value == Release(locks, SafeGet(SafeGet(payload, key), "_id"))
  {
    var target :- Member(payload, key);
    var id :- Member(target, "_id");
    Ok(Release(locks, id))
  }

  /** A lock taken by before:update is released by after:update. */
  lemma UpdateLocksThenUnlocks(reading: Reading, locks: LockSet, payload: Value)
    requires BeforeWrite(reading, locks, payload, "oldEntry", []).Ok?
    ensures var s := BeforeWrite(reading, locks, payload, "oldEntry", []).value;
      AfterWrite(s.locks, payload, "oldEntry") == Ok(locks - {SafeGet(SafeGet(payload, "oldEntry"), "_id")})
  {
    var id := SafeGet(SafeGet(payload, "oldEntry"), "_id");
    assert (locks + {id}) - {id} == locks - {id};
  }

  /** before:apply: `Object.assign(state, { lock: { skip: true } })`, returning
      the state it leaves behind. */
  function BeforeApply(payload: Value): (r: Result<Value>)
    ensures r.Ok? <==> !IsNil(payload) && !IsNil(SafeGet(payload, "state"))
    ensures r.Ok? && SafeGet(payload, "state").Obj? ==>
      && r.value.Obj?
      && LockSkip(r.value) == Bool(true)
      && (forall k :: k != "lock" ==> Get(r.value.props, k) == Get(SafeGet(payload, "state").props, k))
  {
    var state :- Member(payload, "state");
    if IsNil(state) then Err(TypeError("Cannot convert undefined or null to object"))
    else if state.Obj? then
      var props := Put(state.props, "lock", Obj([Prop("skip", Bool(true))]));
      assert forall k :: Get(props, k) == if k == "lock" then Obj([Prop("skip", Bool(true))]) else Get(state.props, k) by {
        forall k ensures Get(props, k) == if k == "lock" then Obj([Prop("skip", Bool(true))]) else Get(state.props, k) {
          PutGet(state.props, "lock", Obj([Prop("skip", Bool(true))]), k);
        }
      }
      Ok(Obj(props))
    else Ok(state)
  }

  /** After before:apply no write hook locks, as written or as intended. */
  lemma ApplySkipsLocking(payload: Value)
    requires BeforeApply(payload).Ok? && SafeGet(payload, "state").Obj?
    ensures !DoLock(BeforeApply(payload).value)
    ensures !DoLockAsWritten(BeforeApply(payload).value)
  {
  }
}

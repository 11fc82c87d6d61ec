/** The hook pipeline of src/lib/hooks.js.  A registry is an ordered list of
    (lifeCycle, hookName, callback) records; `trigger` runs the callbacks
    registered under one (lifeCycle, hookName) pair in registration order,
    threading the payload through them, and wraps the first failure in an
    `ErrorHook` (src/lib/error-hook.js).

    A callback is a pure function from payload to `Result`: `thisArg` is not
    passed (callbacks close over what they need), and `await` is immaterial
    because callbacks run one after the other.
 */
module Hooks {
  import opened Results

  datatype Hook<!P> = Hook(lifeCycle: string, hookName: string, cb: P -> Result<P>)

  /** `hooks.hook(lifeCycle, hookName, cb)`: the record goes last and nothing
      already registered changes. */
  function Register<P>(hooks: seq<Hook<P>>, lifeCycle: string, hookName: string, cb: P -> Result<P>): (r: seq<Hook<P>>)
    ensures |r| == |hooks| + 1
    ensures r[..|hooks|] == hooks
    ensures r[|hooks|].lifeCycle == lifeCycle && r[|hooks|].hookName == hookName && r[|hooks|].cb == cb
  {
    hooks + [Hook(lifeCycle, hookName, cb)]
  }

  predicate Matches<P>(h: Hook<P>, lifeCycle: string, hookName: string) {
    h.hookName == hookName && h.lifeCycle == lifeCycle
  }

  /** The records `trigger` selects, in registration order. */
  function Matched<P>(hooks: seq<Hook<P>>, lifeCycle: string, hookName: string): (m: seq<Hook<P>>)
    ensures |m| <= |hooks|
    ensures forall i :: 0 <= i < |m| ==> Matches(m[i], lifeCycle, hookName)
  {
    if hooks == [] then []
    else
      var rest := Matched(hooks[1..], lifeCycle, hookName);
      if Matches(hooks[0], lifeCycle, hookName) then [hooks[0]] + rest else rest
  }

  /** Selection distributes over concatenation, so it keeps exactly the
      matching records and keeps their order. */
  lemma {:induction false} MatchedAppend<P>(a: seq<Hook<P>>, b: seq<Hook<P>>, lifeCycle: string, hookName: string)
    ensures Matched(a + b, lifeCycle, hookName) == Matched(a, lifeCycle, hookName) + Matched(b, lifeCycle, hookName)
  {
    if a == [] {
      assert a + b == b;
    } else {
      assert (a + b)[0] == a[0];
      assert (a + b)[1..] == a[1..] + b;
      MatchedAppend(a[1..], b, lifeCycle, hookName);
    }
  }

  /** Registering a hook adds it to the callbacks of its own pair, at the end,
      and changes the callbacks of no other pair. */
  lemma MatchedRegister<P>(hooks: seq<Hook<P>>, lc: string, name: string, cb: P -> Result<P>, lifeCycle: string, hookName: string)
    ensures Matched(Register(hooks, lc, name, cb), lifeCycle, hookName)
      == Matched(hooks, lifeCycle, hookName) + (if lc == lifeCycle && name == hookName then [Hook(lc, name, cb)] else [])
  {
    MatchedAppend(hooks, [Hook(lc, name, cb)], lifeCycle, hookName);
    assert [Hook(lc, name, cb)][1..] == [];
  }

  // ---------------------------------------------------------------------------
  // Running the callbacks
  // ---------------------------------------------------------------------------

  /** How a run of callbacks ends: every callback returned (with the last
      payload), or callback number `index` threw `cause` on `input`. */
  datatype Run<P> = Done(payload: P) | Stopped(index: nat, input: P, cause: Error)

  /** The reference semantics: each callback receives what the previous one
      returned, and the first failure ends the run. */
  function Chain<P>(cbs: seq<Hook<P>>, p: P): Run<P> {
    if cbs == [] then Done(p)
    else
      match Chain(cbs[..|cbs| - 1], p)
      case Stopped(i, x, e) => Stopped(i, x, e)
      case Done(q) =>
        match cbs[|cbs| - 1].cb(q)
        case Ok(q') => Done(q')
        case Err(e) => Stopped(|cbs| - 1, q, e)
  }

  /** A stopped run names the callback that threw, what it was given, and the
      callbacks before it all returned. */
  lemma {:induction false} ChainStopped<P>(cbs: seq<Hook<P>>, p: P)
    requires Chain(cbs, p).Stopped?
    ensures var s := Chain(cbs, p);
      s.index < |cbs| && Chain(cbs[..s.index], p) == Done(s.input) && cbs[s.index].cb(s.input) == Err(s.cause)
  {
    var init := cbs[..|cbs| - 1];
    if Chain(init, p).Stopped? {
      ChainStopped(init, p);
      var s := Chain(init, p);
      assert init[..s.index] == cbs[..s.index];
    } else {
      assert init == cbs[..|cbs| - 1];
    }
  }

  /** Running `a` then `b` is running `a + b`; once a callback has thrown, no
      later callback runs. */
  lemma {:induction false} ChainAppend<P>(a: seq<Hook<P>>, b: seq<Hook<P>>, p: P)
    ensures Chain(a + b, p) ==
      match Chain(a, p)
      case Done(q) => (match Chain(b, q) case Done(r) => Done(r) case Stopped(i, x, e) => Stopped(|a| + i, x, e))
      case Stopped(i, x, e) => Stopped(i, x, e)
  {
    if b == [] {
      assert a + b == a;
    } else {
      var b' := b[..|b| - 1];
      ChainAppend(a, b', p);
      assert (a + b)[..|a + b| - 1] == a + b';
      assert (a + b)[|a + b| - 1] == b[|b| - 1];
    }
  }

  /** What `trigger` resolves to, as a value: the last payload, or the first
      failure wrapped in an `ErrorHook`.  The rack operations use it. */
  function Fire<P>(hooks: seq<Hook<P>>, lifeCycle: string, hookName: string, payload: P): (r: Result<P>)
    ensures Matched(hooks, lifeCycle, hookName) == [] ==> r == Ok(payload)
    ensures r.Err? ==>
      && r.error.HookFailure? && r.error.hookName == hookName && r.error.lifeCycle == lifeCycle
      && r.error.message == r.error.cause.message
  {
    match Chain(Matched(hooks, lifeCycle, hookName), payload)
    case Done(q) => Ok(q)
    case Stopped(_, _, e) => Err(HookFailure(e.message, hookName, lifeCycle, e))
  }

  /** `trigger(thisArg, lifeCycle, hookName, payload)`: the matched callbacks
      run in order, each on the previous one's return value, and the last
      return value is the result.  The first failure is rethrown as an
      `ErrorHook` with the same message, the hook coordinates and the original
      error.  `ran` counts the callbacks that were invoked. */
  method Trigger<P>(hooks: seq<Hook<P>>, lifeCycle: string, hookName: string, payload: P) returns (r: Result<P>, ran: nat)
    ensures var m := Matched(hooks, lifeCycle, hookName);
      match Chain(m, payload)
      case Done(q) => r == Ok(q) && ran == |m|
      case Stopped(i, _, e) => ran == i + 1 && r == Err(HookFailure(e.message, hookName, lifeCycle, e))
    ensures Matched(hooks, lifeCycle, hookName) == [] ==> r == Ok(payload) && ran == 0
    ensures r == Fire(hooks, lifeCycle, hookName, payload)
  {
    var m := Matched(hooks, lifeCycle, hookName);
    var p := payload;
    var i := 0;
    while i < |m|
      invariant 0 <= i <= |m|
      invariant Chain(m[..i], payload) == Done(p)
    {
      assert m[..i + 1][..i] == m[..i];
      match m[i].cb(p)
      case Ok(q) =>
        p := q;
        i := i + 1;
      case Err(e) =>
        assert m[..i + 1] == m[..i] + [m[i]];
        ChainAppend(m[..i + 1], m[i + 1..], payload);
        assert m[..i + 1] + m[i + 1..] == m;
        return Err(HookFailure(e.message, hookName, lifeCycle, e)), i + 1;
    }
    assert m[..i] == m;
    return Ok(p), i;
  }
}

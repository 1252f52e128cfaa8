/** A component instance carrying `@state` fields, with the per-instance properties the decorator
    installs (frontend/Decorators.jsx) updated in place. Every method is proved to do exactly what the
    matching function of the reference model in DeferredState.dfy does. */
module StateComponent {
  import opened JsValues
  import opened DeferredState
  import DeferredStateProperties

  class Component {
    /** Whether the promises `delay()` returns can be cancelled (a Bluebird promise) or not. */
    const cancellable: bool

    var deferred: Option<Buffer>            // `state$deferred`
    var deferredPromise: Option<Token>      // `state$deferredPromise`
    var componentIsUnmounting: bool         // `state$componentIsUnmounting`
    var state: Option<Buffer>               // `this.state`
    var allowRender: bool
    var stateHash: nat
    var teardowns: nat                      // runs of the component's own `componentWillUnmount` body

    // What the promise runtime holds for this instance: handlers scheduled that have neither run nor
    // been cancelled, and the token of the next promise `delay().then(...)` returns.
    var scheduled: set<Token>
    var nextToken: Token

    /** The instance as a value of the reference model. */
    function Snapshot(): Instance
      reads this
    {
      Instance(deferred, deferredPromise, componentIsUnmounting, state, allowRender, stateHash,
               teardowns, cancellable, scheduled, nextToken)
    }

    ghost predicate Valid()
      reads this
    {
      DeferredState.Valid(Snapshot())
    }

    /** A component as its own constructor leaves it: live state as given, no decorator property yet. */
    constructor(cancellable: bool, initialState: Option<Buffer>)
      ensures Valid()
      ensures Snapshot() == Fresh(cancellable, initialState)
    {
      this.cancellable := cancellable;
      deferred := None;
      deferredPromise := None;
      componentIsUnmounting := false;
      state := initialState;
      allowRender := false;
      stateHash := 0;
      teardowns := 0;
      scheduled := {};
      nextToken := 0;
    }

    /** `state$initDeferred`. */
    method InitDeferred()
      requires Valid()
      modifies this
      ensures Valid()
      ensures Snapshot() == DeferredState.InitDeferred(old(Snapshot()))
    {
      if deferred.None? {
        deferred := Some(map[]);
        deferredPromise := None;
        componentIsUnmounting := false;
      }
    }

    /** `cancelPromise(promise)`: cancelling is only possible when the runtime supports it; otherwise
        `cancelPromise` only logs a warning. */
    method CancelPromise(promise: Option<Token>)
      requires Valid()
      modifies this
      ensures Valid()
      ensures Snapshot() == DeferredState.CancelPromise(old(Snapshot()), promise)
    {
      if promise.None? {
        return;
      }
      if !cancellable {
        return;
      }
      scheduled := scheduled - {promise.value};
    }

    /** `state$applyDeferred`. */
    method ApplyDeferred()
      requires Valid()
      modifies this
      ensures Valid()
      ensures Snapshot() == DeferredState.ApplyDeferred(old(Snapshot()))
    {
      allowRender := true;
      if deferred.None? || componentIsUnmounting {
        return;
      }
      state := Some(MergeState(state, deferred.value));   // this.setState(this.state$deferred)
      deferred := Some(map[]);
    }

    /** `commitState()`: the synchronous flush. */
    method CommitState()
      requires Valid()
      modifies this
      ensures Valid()
      ensures deferredPromise.None?
      ensures Snapshot() == DeferredState.CommitState(old(Snapshot()))
    {
      CancelPromise(deferredPromise);
      deferredPromise := None;
      ApplyDeferred();
    }

    /** The wrapped `componentWillUnmount`. */
    method ComponentWillUnmount()
      requires Valid()
      modifies this
      ensures Valid()
      ensures componentIsUnmounting
      ensures Snapshot() == Unmount(old(Snapshot()))
    {
      componentIsUnmounting := true;
      teardowns := teardowns + 1;   // originalCall.apply(this, arguments)
    }

    /** The runtime runs the handler of promise `t`, if it is still scheduled. */
    method Fire(t: Token) returns (ran: bool)
      requires Valid()
      modifies this
      ensures Valid()
      ensures ran == (t in old(scheduled))
      ensures Snapshot() == DeferredState.Fire(old(Snapshot()), t)
    {
      ran := t in scheduled;
      if ran {
        scheduled := scheduled - {t};
        ApplyDeferred();
      }
    }

    /** The field getter of the field `c` declares. */
    method Get(c: FieldConfig) returns (v: Value)
      requires Valid()
      modifies this
      ensures Valid()
      ensures old(deferred).Some? && c.field in old(deferred).value ==> v == old(deferred).value[c.field]
      ensures (Snapshot(), v) == DeferredState.Get(old(Snapshot()), c)
    {
      InitDeferred();
      if c.field in deferred.value {
        return deferred.value[c.field];
      }
      if state.None? || c.field !in state.value {
        if state.None? {
          state := Some(map[]);
        }
        state := Some(state.value[c.field := c.initialValue]);
      }
      v := state.value[c.field];
    }

    /** The field setter of the field `c` declares. */
    method Set(c: FieldConfig, value: Value)
      requires Valid()
      modifies this
      ensures Valid()
      ensures state == old(state)
      ensures Snapshot() == DeferredState.Set(old(Snapshot()), c, value)
    {
      InitDeferred();
      var out := ApplyTransform(c, value);
      if out.stop {
        return;
      }
      stateHash := stateHash + 1;
      deferred := Some(deferred.value[c.field := out.value]);
      CancelPromise(deferredPromise);
      // this.state$deferredPromise = delay().then(() => this.state$applyDeferred())
      deferredPromise := Some(nextToken);
      scheduled := scheduled + {nextToken};
      nextToken := nextToken + 1;
      DeferredStateProperties.SetPreservesValid(old(Snapshot()), c, value);
    }
  }
}

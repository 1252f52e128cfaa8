/** The `@state` field decorator of frontend/Decorators.jsx as a reference model on values.

    Every component instance carries a deferred-write buffer, the promise of one scheduled commit, an
    unmount flag, its live `state`, an `allowRender` flag and a `stateHash`. An `Instance` holds all of
    them, together with what the promise runtime knows about this instance: the commit handlers that
    are scheduled and have neither run nor been cancelled. Each operation of the decorator is a
    function from one `Instance` to the next; the class in StateComponent.dfy implements them in place
    and is proved equal to these functions. */
module DeferredState {
  import opened JsValues

  /** A declared state field's name. */
  type Field = string

  /** Identifies the promise returned by one `delay().then(...)` call. */
  type Token = nat

  /** A mapping from field to value: the deferred buffer, or the live `state` object. */
  type Buffer = map<Field, Value>

  /** What a `config.set` transform hands back: the value to store, and whether it set `context.stop`. */
  datatype SetOutcome = SetOutcome(value: Value, stop: bool)

  /** A `config.set` transform. */
  type Transform = Value -> SetOutcome

  /** What a field's initializer returns: a plain initial value, or a `StateProperty` carrying the
      initial value in `value` and an optional `set` transform. */
  datatype InitResult =
    | Plain(v: Value)
    | StateProperty(value: Value, setter: Option<Transform>)

  /** The per-field configuration the decorator closes over: the field name, its initial value and its
      optional transform. It is computed once per declaration and shared by every instance. */
  datatype FieldConfig = FieldConfig(field: Field, initialValue: Value, setter: Option<Transform>)

  /** The state the decorator keeps on one component instance, plus the scheduler's view of it. */
  datatype Instance = Instance(
    deferred: Option<Buffer>,   // `state$deferred`; None while the property does not exist
    promise: Option<Token>,     // `state$deferredPromise`; None for null or undefined
    unmounting: bool,           // `state$componentIsUnmounting`; undefined reads as false
    state: Option<Buffer>,      // `this.state`; None while it is null or undefined
    allowRender: bool,
    stateHash: nat,             // opaque change marker; a larger number is a later write
    teardowns: nat,             // how often the component's own `componentWillUnmount` body has run
    cancellable: bool,          // whether the promises `delay()` returns support `cancel()`
    scheduled: set<Token>,      // commit handlers scheduled that have neither run nor been cancelled
    nextToken: Token            // the token the next `delay().then(...)` will return
  )

  /** An instance just constructed by the component: none of the decorator's own properties exist yet. */
  function Fresh(cancellable: bool, state: Option<Buffer>): (r: Instance)
    ensures Valid(r)
    ensures r.deferred.None? && r.promise.None? && !r.unmounting && r.scheduled == {}
    ensures r.state == state && r.cancellable == cancellable
  {
    Instance(None, None, false, state, false, 0, 0, cancellable, {}, 0)
  }

  /** The invariant every reachable instance satisfies:
      - tokens are never reused: every scheduled handler and the stored promise are older than `nextToken`;
      - before the buffer exists nothing has been scheduled;
      - when promises can be cancelled, the only handler that may still run is the stored promise's. */
  ghost predicate Valid(s: Instance) {
    && (forall t :: t in s.scheduled ==> t < s.nextToken)
    && (s.promise.Some? ==> s.promise.value < s.nextToken)
    && (s.deferred.None? ==> s.scheduled == {} && s.promise.None?)
    && (s.cancellable ==> forall t :: t in s.scheduled ==> s.promise == Some(t))
  }

  /** Config unwrapping at declaration time: when the initializer returns a `StateProperty`, that object
      is the config and its `value` the initial value; otherwise the config has no transform and the
      initial value is whatever `initializer && initializer()` yields: the initializer's result, or the
      falsy value the descriptor holds when there is no initializer function. */
  function Declare(field: Field, initializer: Initializer<InitResult>): (c: FieldConfig)
    ensures c.field == field
    ensures initializer.Missing? ==> c.initialValue == initializer.falsy && c.setter.None?
    ensures initializer.Returns? && initializer.result.Plain? ==>
              c.initialValue == initializer.result.v && c.setter.None?
    ensures initializer.Returns? && initializer.result.StateProperty? ==>
              c.initialValue == initializer.result.value && c.setter == initializer.result.setter
  {
    match initializer
    case Missing(falsy) => FieldConfig(field, falsy, None)
    case Returns(Plain(v)) => FieldConfig(field, v, None)
    case Returns(StateProperty(value, setter)) => FieldConfig(field, value, setter)
  }

  /** Runs the field's transform, if it has one, on a written value with `context.stop` initially false. */
  function ApplyTransform(c: FieldConfig, value: Value): (out: SetOutcome)
    ensures c.setter.None? ==> out == SetOutcome(value, false)
  {
    match c.setter
    case None => SetOutcome(value, false)
    case Some(f) => f(value)
  }

  /** `state$initDeferred`: creates the buffer, clears the promise and the unmount flag, but only when
      the buffer property does not exist yet. */
  function InitDeferred(s: Instance): (r: Instance)
    ensures r.deferred.Some?
    ensures s.deferred.Some? ==> r == s
    ensures s.deferred.None? ==> r.deferred == Some(map[]) && r.promise.None? && !r.unmounting
    ensures r.state == s.state && r.scheduled == s.scheduled && r.nextToken == s.nextToken
    ensures r.stateHash == s.stateHash && r.allowRender == s.allowRender
    ensures r.teardowns == s.teardowns && r.cancellable == s.cancellable
  {
    if s.deferred.None? then s.(deferred := Some(map[]), promise := None, unmounting := false) else s
  }

  /** `cancelPromise`: nothing for a null promise; for an uncancellable promise nothing either (only a
      warning is logged); otherwise the promise's handler will never run. */
  function CancelPromise(s: Instance, p: Option<Token>): (r: Instance)
    ensures r.scheduled == if p.Some? && s.cancellable then s.scheduled - {p.value} else s.scheduled
    ensures r == s.(scheduled := r.scheduled)
  {
    if p.None? || !s.cancellable then s else s.(scheduled := s.scheduled - {p.value})
  }

  /** React's `setState(partial)` seen as a synchronous merge: the partial object's keys override, the
      others keep their value, and a null state is merged into as if it were empty. */
  function MergeState(state: Option<Buffer>, partial: Buffer): (r: Buffer)
    ensures r.Keys == partial.Keys + (if state.Some? then state.value.Keys else {})
    ensures forall f :: f in partial ==> r[f] == partial[f]
    ensures state.Some? ==> forall f :: f in state.value && f !in partial ==> r[f] == state.value[f]
  {
    state.GetOr(map[]) + partial
  }

  /** `state$applyDeferred`: allows rendering; unless the buffer is missing or the component is
      unmounting, merges the whole current buffer into live state and empties the buffer. */
  function ApplyDeferred(s: Instance): (r: Instance)
    ensures r.allowRender
    ensures s.deferred.None? || s.unmounting ==> r == s.(allowRender := true)
    ensures s.deferred.Some? && !s.unmounting ==>
              r == s.(allowRender := true, state := Some(MergeState(s.state, s.deferred.value)),
                      deferred := Some(map[]))
  {
    var s1 := s.(allowRender := true);
    if s1.deferred.None? || s1.unmounting then s1
    else s1.(state := Some(MergeState(s1.state, s1.deferred.value)), deferred := Some(map[]))
  }

  /** `commitState`: cancels the stored promise, forgets it, then applies the buffer synchronously. */
  function CommitState(s: Instance): (r: Instance)
    ensures r.promise.None? && r.allowRender
    ensures r.scheduled == if s.promise.Some? && s.cancellable then s.scheduled - {s.promise.value}
                           else s.scheduled
    ensures s.deferred.Some? && !s.unmounting ==>
              r.state == Some(MergeState(s.state, s.deferred.value)) && r.deferred == Some(map[])
    ensures s.deferred.None? || s.unmounting ==> r.state == s.state && r.deferred == s.deferred
    ensures r.unmounting == s.unmounting && r.stateHash == s.stateHash
    ensures r.teardowns == s.teardowns && r.nextToken == s.nextToken && r.cancellable == s.cancellable
  {
    var s1 := CancelPromise(s, s.promise);
    ApplyDeferred(s1.(promise := None))
  }

  /** The wrapped `componentWillUnmount`: raises the unmount flag, then runs the component's own hook. */
  function Unmount(s: Instance): (r: Instance)
    ensures r.unmounting && r.teardowns == s.teardowns + 1
    ensures r.(unmounting := s.unmounting, teardowns := s.teardowns) == s
  {
    s.(unmounting := true, teardowns := s.teardowns + 1)
  }

  /** The runtime runs the `.then` handler of promise `t`: if the handler is still scheduled it runs
      `state$applyDeferred` and is never run again; otherwise nothing happens. The stored promise field
      is left as it is: the `.then` handler does not clear it. */
  function Fire(s: Instance, t: Token): (r: Instance)
    ensures t !in s.scheduled ==> r == s
    ensures t in s.scheduled ==> r.allowRender && r.scheduled == s.scheduled - {t}
    ensures t in s.scheduled ==> r == ApplyDeferred(s.(scheduled := s.scheduled - {t}))
  {
    if t in s.scheduled then ApplyDeferred(s.(scheduled := s.scheduled - {t})) else s
  }

  /** `delay().then(() => this.state$applyDeferred())`: schedules a new handler and stores its promise. */
  function Schedule(s: Instance): (r: Instance)
    ensures r.promise == Some(s.nextToken) && r.scheduled == s.scheduled + {s.nextToken}
    ensures r.nextToken > s.nextToken
    ensures r.(promise := s.promise, scheduled := s.scheduled, nextToken := s.nextToken) == s
  {
    s.(promise := Some(s.nextToken), scheduled := s.scheduled + {s.nextToken}, nextToken := s.nextToken + 1)
  }

  /** The field getter: makes sure the buffer exists; a buffered value wins; otherwise a field missing
      from live state is seeded there (creating live state when it is absent) with the initial value,
      and the live value is returned. Returns the new instance and the value read. */
  function Get(s: Instance, c: FieldConfig): (r: (Instance, Value))
    ensures var d := InitDeferred(s).deferred.value;
            c.field in d ==> r == (InitDeferred(s), d[c.field])
    ensures var d := InitDeferred(s).deferred.value;
            c.field !in d && s.state.Some? && c.field in s.state.value ==>
              r == (InitDeferred(s), s.state.value[c.field])
    ensures var d := InitDeferred(s).deferred.value;
            c.field !in d && (s.state.None? || c.field !in s.state.value) ==>
              r.1 == c.initialValue &&
              r.0 == InitDeferred(s).(state := Some(s.state.GetOr(map[])[c.field := c.initialValue]))
  {
    var s1 := InitDeferred(s);
    if c.field in s1.deferred.value then (s1, s1.deferred.value[c.field])
    else if s1.state.Some? && c.field in s1.state.value then (s1, s1.state.value[c.field])
    else
      var live := s1.state.GetOr(map[])[c.field := c.initialValue];
      (s1.(state := Some(live)), live[c.field])
  }

  /** The field setter: makes sure the buffer exists and runs the transform; a write the transform
      stops goes no further. An accepted write changes the hash, is buffered, cancels the stored
      promise and schedules a new commit. Live state is never touched. */
  function Set(s: Instance, c: FieldConfig, value: Value): (r: Instance)
    ensures r.state == s.state && r.deferred.Some? && r.unmounting == InitDeferred(s).unmounting
    ensures r.allowRender == s.allowRender && r.teardowns == s.teardowns && r.cancellable == s.cancellable
    ensures ApplyTransform(c, value).stop ==> r == InitDeferred(s)
    ensures !ApplyTransform(c, value).stop ==>
              && r.deferred.value == InitDeferred(s).deferred.value[c.field := ApplyTransform(c, value).value]
              && r.stateHash > s.stateHash
              && r.promise == Some(s.nextToken) && r.nextToken > s.nextToken
              && r.scheduled == CancelPromise(InitDeferred(s), InitDeferred(s).promise).scheduled + {s.nextToken}
  {
    var s1 := InitDeferred(s);
    var out := ApplyTransform(c, value);
    if out.stop then s1
    else
      var s2 := s1.(stateHash := s1.stateHash + 1, deferred := Some(s1.deferred.value[c.field := out.value]));
      Schedule(CancelPromise(s2, s2.promise))
  }

  /** One thing that can happen to an instance: a field read or write, the runtime running a commit
      handler, a `commitState()` call, or the component unmounting. */
  datatype Op =
    | GetOp(getConfig: FieldConfig)
    | SetOp(setConfig: FieldConfig, value: Value)
    | FireOp(token: Token)
    | CommitOp
    | UnmountOp

  function Step(s: Instance, op: Op): Instance {
    match op
    case GetOp(c) => Get(s, c).0
    case SetOp(c, v) => Set(s, c, v)
    case FireOp(t) => Fire(s, t)
    case CommitOp => CommitState(s)
    case UnmountOp => Unmount(s)
  }

  /** The instance after the operations `ops`, in order. */
  function Run(s: Instance, ops: seq<Op>): Instance
    decreases |ops|
  {
    if ops == [] then s else Run(Step(s, ops[0]), ops[1..])
  }

  /** Whether an operation leaves a buffered value of field `f` where it is: a read, an unmount, or a
      write that goes to another field or that its transform stops. */
  predicate KeepsBuffered(op: Op, f: Field) {
    || op.GetOp?
    || op.UnmountOp?
    || (op.SetOp? && (op.setConfig.field != f || ApplyTransform(op.setConfig, op.value).stop))
  }

  /** One field write: the field's config and the value assigned. */
  datatype Write = Write(config: FieldConfig, value: Value)

  /** Whether a write gets past its transform. */
  predicate Accepted(w: Write) {
    !ApplyTransform(w.config, w.value).stop
  }

  /** The value a write puts in the buffer. */
  function Buffered(w: Write): Value {
    ApplyTransform(w.config, w.value).value
  }

  /** The writes done one after the other, synchronously within one tick. */
  function SetAll(s: Instance, ws: seq<Write>): Instance
    decreases |ws|
  {
    if ws == [] then s else SetAll(Set(s, ws[0].config, ws[0].value), ws[1..])
  }

  /** Reference definition of coalescing: the field-to-value map in which every written field holds the
      value of its last accepted write. */
  function LastWrites(ws: seq<Write>): Buffer
    decreases |ws|
  {
    if ws == [] then map[]
    else
      var w := ws[|ws| - 1];
      var rest := LastWrites(ws[..|ws| - 1]);
      if Accepted(w) then rest[w.config.field := Buffered(w)] else rest
  }

  /** Whether any of the writes gets past its transform. */
  predicate AnyAccepted(ws: seq<Write>) {
    exists i :: 0 <= i < |ws| && Accepted(ws[i])
  }
}

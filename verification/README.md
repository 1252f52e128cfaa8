# Deferred `@state` fields — a Dafny model

jsx-react-overhaul gives React components decorated fields. A field declared with `@state` reads
and writes through a per-instance **deferred buffer**. A write is stored in the buffer
(`state$deferred`). It cancels the commit already scheduled, if the promise library allows that, and
schedules a new one with `delay().then(...)`. When a scheduled commit runs, it merges the whole
buffer into the component's live `state` with one `setState` call and empties the buffer. This does
not happen once the component is unmounting. A read returns the buffered value if there is one.
Otherwise it reads live state, first seeding the field with its initial value when it is missing.
`commitState()` flushes the buffer synchronously. A field declared with `@prop` reads the component's
props and falls back to its initializer.

The project has these files:

- `JsValues.dfy` holds `Option`, a small JavaScript `Value` type, and the shape of a field's
  initializer (a function's result, or the falsy value the descriptor holds instead).
- `DeferredState.dfy` is the reference model on values. The `Instance` datatype holds everything the
  decorator keeps on one component instance. It also holds what the promise runtime knows about that
  instance: the set of scheduled commit handlers that have neither run nor been cancelled, and whether
  its promises can be cancelled at all. Every operation of the decorator is a function from one
  `Instance` to the next. When the runtime runs a `.then` handler, that is the explicit step `Fire(t)`.
- `DeferredStateProperties.dfy` proves what the decorator promises about that model: coalescing,
  read-your-writes, the transform veto, one commit per tick, the scheduler invariant, idempotent
  commits, and that commits are silenced after unmount. It also proves the two quirks that follow from
  the code as written.
- `StateComponent.dfy` has the class `Component`. Its fields are the per-instance properties the
  decorator installs, and its methods update them in place the way Decorators.jsx does. Each method is
  proved to produce exactly the instance the reference function gives.
- `PropDecorator.dfy` models the `@prop` getter.

Three behaviours of frontend/Decorators.jsx are easy to miss. The model keeps each one:

- **The unmount flag can be reset.** `state$initDeferred` (frontend/Decorators.jsx:53-58) sets
  `state$componentIsUnmounting` to false whenever the buffer does not exist yet. So when a component
  unmounts before any `@state` field was touched, the first later access clears the flag, and a commit
  after that still reaches live state. `UnmountBeforeFirstAccessIsForgotten` proves this.
- **Unmounting keeps the buffer.** `state$applyDeferred` (frontend/Decorators.jsx:65-67) returns
  early while unmounting and leaves the buffer as it is. `ApplyDeferred` and `UnmountThenCommit`
  state this.
- **The getter writes live state.** The getter (frontend/Decorators.jsx:106-109) seeds a missing
  field directly into `this.state`, without going through the buffer, so `Get` does too.
  `UnmountSilencesCommits` therefore allows reads to add fields after unmount, but never to change one
  that live state already holds.

## Model

| member | source | states |
|---|---|---|
| `DeferredState.Fresh` | frontend/Decorators.jsx:53-58 | Before the first field access none of the decorator's properties exist: no buffer, no promise, flag false, nothing scheduled. Such an instance satisfies the scheduler invariant. |
| `DeferredState.Declare` | frontend/Decorators.jsx:16-24 | An initializer that returns a `StateProperty` supplies both the initial value (its `value`) and the transform (its `set`). A plain result is the initial value and there is no transform. Without an initializer function the initial value is the falsy value the descriptor holds in its place (`initializer && initializer()`). |
| `DeferredState.ApplyTransform` | frontend/Decorators.jsx:118-122 | Without a configured transform, a write keeps its value and is never stopped. |
| `DeferredState.InitDeferred` | frontend/Decorators.jsx:53-60 | Afterwards the buffer exists. An existing buffer leaves the instance unchanged, so a second call is a no-op. A missing buffer becomes empty, the promise null and the flag false. Live state, hash and scheduled handlers are untouched. |
| `DeferredState.CancelPromise` | frontend/Decorators.jsx:28-45 | A null promise changes nothing. An uncancellable promise changes nothing. A cancellable promise's handler will never run. Nothing else changes. |
| `DeferredState.MergeState` | frontend/Decorators.jsx:69 | `setState(buffer)` is a merge. Its keys are the union of both key sets. Buffer keys override, and other live keys keep their values. A null state merges as if it were empty. |
| `DeferredState.ApplyDeferred` | frontend/Decorators.jsx:62-72 | Rendering is always allowed afterwards. If the buffer is missing or the component is unmounting, nothing else changes and the buffer is kept. Otherwise the whole buffer is merged into live state and the buffer becomes empty. |
| `DeferredState.CommitState` | frontend/Decorators.jsx:74-79 | Afterwards the promise is null and rendering is allowed. The stored promise's handler is cancelled exactly when cancellation is supported. With a buffer and no unmount in progress, the whole buffer is merged into live state and the buffer becomes empty; otherwise live state and the buffer are kept. The flag, hash, teardown count and token supply are unchanged. |
| `DeferredState.Unmount` | frontend/Decorators.jsx:47-51 | The flag is raised and the component's own teardown runs once more. Nothing else changes. |
| `DeferredState.Fire` | frontend/Decorators.jsx:136 | A handler that is not scheduled does nothing. A scheduled one is removed from the scheduled handlers, so it can never run again, and the result is exactly `state$applyDeferred` applied to the instance. |
| `DeferredState.Schedule` | frontend/Decorators.jsx:136 | `delay().then(...)` stores a brand-new promise and adds exactly its handler to the scheduled ones. Nothing else changes. |
| `DeferredState.Get` | frontend/Decorators.jsx:82-113 | The buffer is created if needed. A buffered value is returned first. Otherwise a value in live state is returned unchanged. Otherwise the field is seeded with its initial value (creating live state if absent) and that value is returned. |
| `DeferredState.Set` | frontend/Decorators.jsx:115-137 | Live state is never touched. A stopped write only creates the buffer. An accepted write stores the transformed value in the buffer, changes the hash, and stores a new promise whose handler is the scheduled one (the old one is cancelled where possible). |
| `DeferredStateProperties.AtMostOnePending` | frontend/Decorators.jsx:134-136 | With cancellable promises at most one handler waits to run, and it is the stored promise's. |
| `DeferredStateProperties.OnlyStoredPromiseFires` | frontend/Decorators.jsx:28-45 | With cancellable promises, running any handler but the stored promise's changes nothing, so a superseded commit never fires. |
| `DeferredStateProperties.InitDeferredIdempotent` | frontend/Decorators.jsx:53-60 | A second `state$initDeferred` changes nothing. |
| `DeferredStateProperties.StepPreservesValid` | frontend/Decorators.jsx:47-137 | Every operation keeps the scheduler invariant: tokens are fresh, nothing is scheduled before the buffer exists, and with cancellation only the stored promise may fire. |
| `DeferredStateProperties.SetPreservesValid` | frontend/Decorators.jsx:115-137 | A write keeps the scheduler invariant. |
| `DeferredStateProperties.RunPreservesValid` | frontend/Decorators.jsx:47-137 | Any sequence of reads, writes, handler runs, commits and unmounts keeps the scheduler invariant. |
| `DeferredStateProperties.AcceptedWriteReplacesPending` | frontend/Decorators.jsx:134-136 | An accepted write installs a never-used token. With cancellation it is then the only scheduled handler. Without cancellation the superseded handlers stay scheduled beside it. |
| `DeferredStateProperties.VetoedWriteIsNoOp` | frontend/Decorators.jsx:118-126 | Once the buffer exists, a write the transform stops changes nothing: not the buffer, promise, handlers, hash or live state. |
| `DeferredStateProperties.LastWritesFront` | frontend/Decorators.jsx:132 | Last-write-wins seen from the first write: the first write survives only in fields no later accepted write touches. |
| `DeferredStateProperties.LastWritesKeys` | frontend/Decorators.jsx:132 | A field is coalesced exactly when some write to it was accepted. |
| `DeferredStateProperties.LastWritesValue` | frontend/Decorators.jsx:132 | A coalesced field holds the transformed value of its last accepted write. |
| `DeferredStateProperties.WritesCoalesce` | frontend/Decorators.jsx:115-137 | After any writes in one tick, live state is unchanged. The buffer is the earlier buffer overridden by each field's last accepted write. Some handler is pending if any write was accepted, and with no accepted write only the buffer was created. |
| `DeferredStateProperties.SetAllPreservesValid` | frontend/Decorators.jsx:115-137 | Any sequence of writes keeps the scheduler invariant. |
| `DeferredStateProperties.BufferedSurvives` | frontend/Decorators.jsx:82-137 | A buffered value stays in the buffer unchanged through any reads, unmounts, writes to other fields and stopped writes. |
| `DeferredStateProperties.ReadYourWrite` | frontend/Decorators.jsx:82-137 | After an accepted write, the field reads the transformed value, whatever live state holds, through any later reads, unmounts, writes to other fields and stopped writes, until a commit or another accepted write to the field. The read changes nothing. |
| `DeferredStateProperties.ReadAfterWrites` | frontend/Decorators.jsx:82-137 | After a tick of writes, a field reads its last accepted value before any commit, and the read changes nothing. |
| `DeferredStateProperties.GetIsStable` | frontend/Decorators.jsx:89-112 | A second read returns the same value and changes nothing, so a seeded or existing live value is kept. |
| `DeferredStateProperties.FirstReadSeedsDeclaredValue` | frontend/Decorators.jsx:18-112 | On a component without live state, the first read of a field declared through a `StateProperty` creates live state holding just that field with its `value`, and returns it. |
| `DeferredStateProperties.OneCommitPerTick` | frontend/Decorators.jsx:62-137 | With cancellation, a tick of writes leaves exactly one handler. Running it merges every field's last accepted value into live state in one step (unless unmounting), empties the buffer and leaves no handler to run. |
| `DeferredStateProperties.CommitTwice` | frontend/Decorators.jsx:74-79 | `commitState` is idempotent: a second call without an intervening write changes nothing. |
| `DeferredStateProperties.LateFireAppliesCurrentBuffer` | frontend/Decorators.jsx:28-72 | A superseded handler can run only without cancellation. It applies the buffer as it is now (or nothing while unmounting). Any handler run after it leaves live state as it left it. |
| `DeferredStateProperties.UnmountSilencesCommits` | frontend/Decorators.jsx:47-72 | Once unmounting with a buffer, any operations keep the flag. Every value live state holds is kept, and without reads live state is exactly as it was. |
| `DeferredStateProperties.UnmountThenCommit` | frontend/Decorators.jsx:47-79 | The wrapper still runs the original hook. A `commitState` after it leaves live state and the buffer as they were. |
| `DeferredStateProperties.UnmountBeforeFirstAccessIsForgotten` | frontend/Decorators.jsx:47-60 | An unmount before the first field access is undone by that access. A write afterwards is committed to live state when its handler runs. |
| `DeferredStateProperties.CountScenario` | frontend/Decorators.jsx:62-137 | `count` declared 0, then `count = 1; count = 2`: the field reads 2. When the commit runs, live state holds `count: 2` and the buffer is empty. |
| `DeferredStateProperties.UnmountedBufferNeverLands` | frontend/Decorators.jsx:47-137 | Once unmounting, a buffered field stays buffered and never appears in live state, whatever operations follow. |
| `DeferredStateProperties.UnmountScenario` | frontend/Decorators.jsx:47-137 | `count = 5` and then an unmount: whatever follows, live state never holds `count`, and without reads it stays exactly as it was. |
| `StateComponent.Component.constructor` | frontend/Decorators.jsx:53-58 | A new component has live state as given and none of the decorator's properties yet. |
| `StateComponent.Component.InitDeferred` | frontend/Decorators.jsx:53-60 | Updates the instance in place exactly as `DeferredState.InitDeferred` and keeps the invariant. |
| `StateComponent.Component.CancelPromise` | frontend/Decorators.jsx:28-45 | Updates the scheduled handlers exactly as `DeferredState.CancelPromise`. |
| `StateComponent.Component.ApplyDeferred` | frontend/Decorators.jsx:62-72 | Updates the instance in place exactly as `DeferredState.ApplyDeferred`. |
| `StateComponent.Component.CommitState` | frontend/Decorators.jsx:74-79 | Leaves the promise null and updates the instance exactly as `DeferredState.CommitState`. |
| `StateComponent.Component.ComponentWillUnmount` | frontend/Decorators.jsx:47-51 | Raises the flag, runs the original hook, and matches `DeferredState.Unmount`. |
| `StateComponent.Component.Fire` | frontend/Decorators.jsx:136 | Reports whether the handler was still scheduled, and matches `DeferredState.Fire`. |
| `StateComponent.Component.Get` | frontend/Decorators.jsx:82-113 | A buffered value is returned. The value and the new instance are those of `DeferredState.Get`. |
| `StateComponent.Component.Set` | frontend/Decorators.jsx:115-137 | Live state is unchanged, and the new instance is that of `DeferredState.Set`. |
| `PropDecorator.PropGet` | frontend/Decorators.jsx:143-149 | A present prop that is not `undefined` (`null` included) is returned as is. Otherwise the initializer's result is returned, or, without an initializer function, the falsy value the descriptor holds in its place. |
| `PropDecorator.PropGetDefined` | frontend/Decorators.jsx:143-149 | The getter yields `undefined` exactly when no defined prop is available and the fallback (the initializer's result or the falsy value held in its place) is `undefined`. |
| `PropDecorator.PropGetFallbackIsStable` | frontend/Decorators.jsx:143-149 | Supplying the getter's result as the prop reads back the same value. |
| `PropDecorator.DefinedPropIgnoresInitializer` | frontend/Decorators.jsx:143-148 | A defined prop makes the initializer irrelevant. |

## Left out

- The `hook` decorator (frontend/Decorators.jsx:166-228) only defines prototype methods and builds JSX fragments. It is rendering, not state logic.
- The `ref` decorator (frontend/Decorators.jsx:153-164) only records field names and forwards to framework-managed `.current` handles.
- `console.warn` diagnostics and the `JsxReactUtils.config(...)` switches that enable them are not modelled. They only log and never affect state.
- The md5 chaining of `stateHash` is an external string extension. The model keeps a counter that grows on every accepted write, which captures the "changed" signal and nothing more.
- `isBluebirdPromise` is replaced by one `cancellable` capability per instance, and `delay()` by fresh tokens. The runtime's timing is an explicit `Fire` step that may run any scheduled handler at any time, so the lemmas hold for every interleaving.
- React's `setState` is modelled as a synchronous merge into live state. React's own batching and re-rendering are not part of this model.
- Installing the accessors through `global.*` and the decorator protocol, and the `StateProperty` class itself (a datatype here), are host-language plumbing.
- Each `@state` field on a class wraps `componentWillUnmount` once more. The model has one wrapper, because every layer sets the same flag and then calls the next, so n layers give the same state as one.
- `stateHash` starts out undefined, so the first write hashes the string "undefined" (frontend/Decorators.jsx:131). The model starts its counter at 0. `allowRender` is only ever set to true (frontend/Decorators.jsx:63). The model starts it at false, because its first value comes from the component base class, which is not part of this model.
- What the component's own `componentWillUnmount` does is outside this core. The model only counts its runs.
- The transform is called with the component as `this`. The model passes it only the written value, so transforms that read the instance are not covered.
- JavaScript's `in` also sees inherited keys such as `toString`. The model treats it as own-key membership.
- JavaScript numbers are modelled as integers, and objects as opaque references.
- The `@state` initializer runs once at declaration and the `@prop` initializer on every read. The model takes the value each returns, so their side effects are not modelled.
- Exceptions are not modelled, such as a transform that throws or a truthy `config.set` that is not a function.

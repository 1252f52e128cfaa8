/** The getter the `@prop` field decorator installs (frontend/Decorators.jsx): a field backed by the
    component's props, with the field's initializer as the fallback. */
module PropDecorator {
  import opened JsValues

  /** Reads field `field` from `props`. A prop that is missing or `undefined` falls back to
      `descriptor.initializer && descriptor.initializer.call(this)`: what the initializer returns on
      this call, or the falsy value the descriptor holds when there is no initializer function. Any
      other prop value, `null` included, is returned as it is. */
  function PropGet(props: map<string, Value>, field: string, initializer: Initializer<Value>): (r: Value)
    ensures field in props && props[field] != Undefined ==> r == props[field]
    ensures (field !in props || props[field] == Undefined) && initializer.Returns? ==> r == initializer.result
    ensures (field !in props || props[field] == Undefined) && initializer.Missing? ==> r == initializer.falsy
  {
    if field !in props || props[field] == Undefined then
      match initializer
      case Missing(falsy) => falsy
      case Returns(v) => v
    else props[field]
  }

  /** The getter yields `undefined` only when neither a defined prop nor a defined initializer value
      is available. */
  lemma PropGetDefined(props: map<string, Value>, field: string, initializer: Initializer<Value>)
    ensures PropGet(props, field, initializer) == Undefined <==>
              && (field !in props || props[field] == Undefined)
              && (if initializer.Missing? then initializer.falsy == Undefined else initializer.result == Undefined)
  {
  }

  /** Passing the getter's result down as the prop reads back the same value: the fallback is what a
      caller would see had it supplied the prop itself. */
  lemma PropGetFallbackIsStable(props: map<string, Value>, field: string, initializer: Initializer<Value>)
    ensures var r := PropGet(props, field, initializer);
            PropGet(props[field := r], field, initializer) == r
  {
  }

  /** A defined prop hides the initializer entirely: it does not matter what the initializer returns. */
  lemma DefinedPropIgnoresInitializer(props: map<string, Value>, field: string, i1: Initializer<Value>, i2: Initializer<Value>)
    requires field in props && props[field] != Undefined
    ensures PropGet(props, field, i1) == PropGet(props, field, i2)
  {
  }
}

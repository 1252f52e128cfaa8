/** The host-language values the decorators pass around. */
module JsValues {

  /** An optional value: `None` stands for a JavaScript property that is absent, `undefined` or `null`
      where the decorators only test it for truthiness. */
  datatype Option<+T> = None | Some(value: T) {

    /** The wrapped value, or `default` when there is none. */
    function GetOr(default: T): T {
      match this
      case Some(v) => v
      case None => default
    }
  }

  /** A JavaScript value as far as the decorators distinguish them. Numbers are modelled as integers;
      objects and functions are opaque references. */
  datatype Value =
    | Undefined
    | Null
    | Bool(b: bool)
    | Num(n: int)
    | Str(s: string)
    | Ref(id: nat)

  /** JavaScript truthiness: the values an `&&` passes through unchanged when they are its left operand. */
  predicate IsFalsy(v: Value) {
    v == Undefined || v == Null || v == Bool(false) || v == Num(0) || v == Str("")
  }

  type Falsy = v: Value | IsFalsy(v) witness Undefined

  /** A decorated field's `descriptor.initializer`: a function, represented by what it returns, or the
      falsy value the descriptor holds in its place. `initializer && initializer()` yields that falsy
      value itself. */
  datatype Initializer<+T> = Missing(falsy: Falsy) | Returns(result: T)
}

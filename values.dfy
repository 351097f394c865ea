/** The PHP values and array keys a collection stores, and its validator. */
module PhpValues {

  /** A PHP array key: an integer or a string; both kinds mix in one collection. */
  datatype Key = IntKey(i: int) | StrKey(s: string)

  /** The PHP values the collection holds. Datatype equality is PHP's strict
      `===`: `VInt(0)`, `VBool(false)`, `VStr("")` and `VNull` are all distinct.
      An object is represented by its one public property `foo`. */
  datatype Value = VNull | VBool(b: bool) | VInt(n: int) | VStr(s: string) | VObj(foo: int)

  /** The optional element validator: a callback that throws on rejected values. */
  datatype Validator = Unrestricted | Enforce(accepts: Value -> bool)

  /** Whether the validator lets `v` be inserted without throwing. */
  predicate Accepts(validator: Validator, v: Value)
  {
    match validator
    case Unrestricted => true
    case Enforce(accepts) => accepts(v)
  }
}

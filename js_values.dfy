/** JavaScript values as the DataSet container sees them, together with the
    pieces of the language and of underscore that index.js relies on:
    `_.isObject`, strict equality `===` and property reads. `_.isArray` is
    the constructor test `v.Arr?`. */
module JsValues {

  /** A JavaScript value. Objects and arrays carry the identity of the heap
      object they denote (`ref`): strict equality compares them by that
      identity, never by contents. Numbers are modelled as integers. */
  datatype Value =
    | Undefined
    | Null
    | Bool(b: bool)
    | Num(n: int)
    | Str(s: string)
    | Obj(ref: nat, fields: map<string, Value>)
    | Arr(ref: nat, items: seq<Value>)

  /** `_.isObject(v)`: true for objects and arrays, false for primitives,
      `null` and `undefined`. */
  predicate IsObject(v: Value) {
    v.Obj? || v.Arr?
  }

  /** `v === null || v === undefined`. */
  predicate IsNullish(v: Value) {
    v.Null? || v.Undefined?
  }

  /** The property read `v[key]`: an object's own field, `undefined` when the
      field is missing or `v` is not an object. */
  function Get(v: Value, key: string): Value
  {
    if v.Obj? && key in v.fields then v.fields[key] else Undefined
  }

  /** `a === b`: reference identity for objects and arrays, value equality
      for everything else. */
  predicate StrictEquals(a: Value, b: Value) {
    if IsObject(a) && IsObject(b) then a.Obj? == b.Obj? && a.ref == b.ref else a == b
  }

  /** Against a primitive, `===` is plain value equality: this is why
      `indexOf` is a membership test for primitives. */
  lemma StrictEqualsPrimitive(a: Value, p: Value)
    requires !IsObject(p)
    ensures StrictEquals(a, p) <==> a == p
  {
  }

  /** `===` is an equivalence relation on the values modelled here (there is
      no `NaN` among them). */
  lemma StrictEqualsEquivalence(a: Value, b: Value, d: Value)
    ensures StrictEquals(a, a)
    ensures StrictEquals(a, b) ==> StrictEquals(b, a)
    ensures StrictEquals(a, b) && StrictEquals(b, d) ==> StrictEquals(a, d)
  {
  }
}

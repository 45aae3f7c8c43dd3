/** The untyped JavaScript values that the geometry code inspects at run time
    (packages/common/src/utils/type.ts): just enough structure to tell numbers,
    strings, `null`/`undefined` and objects with named properties apart. */
module JsValues {

  /** A JavaScript value.  `Num` is a finite number; `NonFinite` stands for
      NaN and the infinities, which have `typeof` "number" but are not safe.
      Arrays are objects whose named properties this model does not track. */
  datatype JsValue =
    | Undefined
    | Null
    | Bool(b: bool)
    | Num(n: real)
    | NonFinite
    | Str(s: string)
    | Arr(items: seq<JsValue>)
    | Obj(props: map<string, JsValue>)

  /** `isValidObject`: `typeof v === 'object'` and not `null`. */
  predicate IsValidObject(v: JsValue) {
    v.Obj? || v.Arr?
  }

  /** `isSafeNumber`: a number that is finite. */
  predicate IsSafeNumber(v: JsValue) {
    v.Num?
  }

  /** `isNonEmptyString`. */
  predicate IsNonEmptyString(v: JsValue) {
    v.Str? && |v.s| > 0
  }

  /** Reading `v[key]`: `undefined` when the property is missing. */
  function Property(v: JsValue, key: string): JsValue {
    if v.Obj? && key in v.props then v.props[key] else Undefined
  }
}

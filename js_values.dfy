/** The JavaScript view of a field of a JSON request body: which values are
    falsy and what `typeof` answers. The controllers' input checks are written
    in these terms. */
module JsValues {

  /** A field of a parsed JSON body. JSON numbers are modelled as integers. */
  datatype Value =
    | Undefined          // the field is absent from the body
    | Null
    | Bool(b: bool)
    | Number(n: int)
    | Text(s: string)
    | Compound           // an array or an object

  /** The answers of `typeof` that a JSON value can produce. */
  datatype JsType = TUndefined | TObject | TBoolean | TNumber | TString

  function TypeOf(v: Value): JsType {
    match v
    case Undefined => TUndefined
    case Null => TObject
    case Bool(_) => TBoolean
    case Number(_) => TNumber
    case Text(_) => TString
    case Compound => TObject
  }

  /** `!!v` in JavaScript: undefined, null, false, 0 and "" are falsy. */
  predicate Truthy(v: Value) {
    match v
    case Undefined => false
    case Null => false
    case Bool(b) => b
    case Number(n) => n != 0
    case Text(s) => s != []
    case Compound => true
  }
}

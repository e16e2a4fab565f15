/** JSON values as JSON.parse produces them, and the JavaScript operations the server
    applies to them: property access, truthiness and `Number(...)` coercion. */
module Json {
  import opened Js
  import opened JsNumber

  datatype JVal =
    | JNull
    | JBool(b: bool)
    | JNum(n: real)
    | JStr(s: string)
    | JArr(elems: seq<JVal>)
    | JObj(fields: map<string, JVal>)

  /** A parsed JSON object. Key order is not kept. */
  type Obj = map<string, JVal>

  /** `o[k]`, with `None` for `undefined`. It is kept apart from `Js.Lookup` on string maps:
      one generic lookup would box every JSON value the item proofs read, which costs them dearly. */
  function Get(o: Obj, k: string): (r: Option<JVal>)
    ensures r.Some? <==> k in o
    ensures r.Some? ==> r.value == o[k]
  {
    if k in o then Some(o[k]) else None
  }

  /** An object-literal entry `k: v`. A key whose value is `undefined` does not survive
      JSON.stringify, so after a write and the next read it is absent. */
  function Put(o: Obj, k: string, v: Option<JVal>): (r: Obj)
    ensures Get(r, k) == v
    ensures forall j :: j != k ==> Get(r, j) == Get(o, j)
    ensures r.Keys == if v.Some? then o.Keys + {k} else o.Keys - {k}
  {
    if v.Some? then o[k := v.value] else o - {k}
  }

  /** JavaScript truthiness of a JSON value. */
  predicate Truthy(v: JVal) {
    match v
    case JNull => false
    case JBool(b) => b
    case JNum(n) => n != 0.0
    case JStr(s) => s != ""
    case JArr(_) => true
    case JObj(_) => true
  }

  /** `Number(v)`: null is 0, booleans are 0 or 1, strings are parsed, an array goes through
      its `join(",")` text (so only an empty or one-element array can be a number), and an
      object is NaN. */
  function ToNumber(v: JVal): Num
    decreases v
  {
    match v
    case JNull => Finite(0.0)
    case JBool(b) => Finite(if b then 1.0 else 0.0)
    case JNum(n) => Finite(n)
    case JStr(s) => StringToNumber(s)
    case JObj(_) => NaN
    case JArr(a) =>
      if |a| == 0 then Finite(0.0)
      else if |a| > 1 then NaN
      else match a[0]
        case JNull => Finite(0.0)
        case JBool(_) => NaN
        case JNum(n) => Finite(n)
        case JStr(s) => StringToNumber(s)
        case JArr(_) => ToNumber(a[0])
        case JObj(_) => NaN
  }

  /** `Number(undefined)` is NaN. */
  function ToNumberOf(v: Option<JVal>): Num {
    if v.Some? then ToNumber(v.value) else NaN
  }
}

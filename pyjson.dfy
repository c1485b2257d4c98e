/**
 * The values that Python's `json.loads` produces, and the few Python operations
 * on them that the extractor and the normalizer use: truthiness, `dict.get`
 * and the `or` operator.
 */
module PyJson {

  /** A decoded JSON value. Numbers (int or float) are reals; objects are dicts. */
  datatype Json =
    | JNull
    | JBool(b: bool)
    | JNum(n: real)
    | JStr(s: string)
    | JArr(elems: seq<Json>)
    | JObj(fields: map<string, Json>)

  /** Python's `bool(v)`: None, False, 0, "", [] and {} are false. */
  predicate Truthy(v: Json) {
    match v
    case JNull => false
    case JBool(b) => b
    case JNum(n) => n != 0.0
    case JStr(s) => s != ""
    case JArr(a) => a != []
    case JObj(m) => m != map[]
  }

  /** `d.get(k)`: the stored value, or None (JNull) when the key is absent. */
  function Get(d: map<string, Json>, k: string): Json {
    if k in d then d[k] else JNull
  }

  /** `d.get(k, default)`: the default is used only when the key is absent. */
  function GetOr(d: map<string, Json>, k: string, default: Json): Json {
    if k in d then d[k] else default
  }

  /** Python's `a or b` on values: `a` when it is truthy, else `b`. */
  function Or(a: Json, b: Json): (r: Json)
    ensures Truthy(r) <==> Truthy(a) || Truthy(b)
    ensures Truthy(a) ==> r == a
    ensures !Truthy(a) ==> r == b
  {
    if Truthy(a) then a else b
  }

  /** Exactly six values are falsy: None, False, 0, "", [] and {}. */
  lemma FalsyValues(v: Json)
    ensures !Truthy(v) <==>
      v == JNull || v == JBool(false) || v == JNum(0.0) || v == JStr("") || v == JArr([]) || v == JObj(map[])
  {
  }

  /** `d.get(k)` is `d.get(k, None)`, and a default only ever stands in for a missing key. */
  lemma GetIsGetOrNull(d: map<string, Json>, k: string, default: Json)
    ensures Get(d, k) == GetOr(d, k, JNull)
    ensures k in d ==> GetOr(d, k, default) == d[k]
    ensures k !in d ==> GetOr(d, k, default) == default
  {
  }
}

/** The values `json.loads` returns, with the three Python operations the
    header extractor applies to them: truthiness, `key in value` and
    `value[key]`. Both operations can raise, which is `None` here. */
module Json {

  import opened Common
  import opened Strings

  /** A decoded JSON document; numbers are kept as reals. An object keeps, for
      each key, the value `json.loads` keeps (the last one written). */
  datatype Json =
    | JNull
    | JBool(b: bool)
    | JNum(n: real)
    | JStr(s: string)
    | JArr(items: seq<Json>)
    | JObj(fields: map<string, Json>)

  /** Python truthiness of a decoded value. */
  predicate IsTruthy(v: Json) {
    match v
    case JNull => false
    case JBool(b) => b
    case JNum(n) => n != 0.0
    case JStr(s) => s != ""
    case JArr(items) => items != []
    case JObj(fields) => fields != map[]
  }

  /** `key in container` for a string `key`: key membership in a dict,
      element membership in a list, substring test in a string; `None` for
      the `TypeError` that `null`, booleans and numbers raise. */
  function Contains(container: Json, key: string): (r: Option<bool>)
    ensures r.None? <==> container.JNull? || container.JBool? || container.JNum?
  {
    match container
    case JObj(fields) => Some(key in fields)
    case JArr(items) => Some(JStr(key) in items)
    case JStr(s) => Some(IsInfix(key, s))
    case _ => None
  }

  /** `container[key]` for a string `key`: only a dict holding `key` yields a
      value; a missing key raises `KeyError`, any other container `TypeError`. */
  function Index(container: Json, key: string): (r: Option<Json>)
    ensures r.Some? <==> container.JObj? && key in container.fields
    ensures r.Some? ==> r.value == container.fields[key]
  {
    if container.JObj? && key in container.fields then Some(container.fields[key]) else None
  }

  /** On a dict, membership never raises and indexing succeeds exactly for the keys it holds. */
  lemma DictAccess(fields: map<string, Json>, key: string)
    ensures Contains(JObj(fields), key) == Some(key in fields)
    ensures key in fields <==> Index(JObj(fields), key).Some?
  {
  }
}

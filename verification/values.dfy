/**
 * Documents as the YAML loader and the scraping client hand them over:
 * already-parsed Python values, with Python's truthiness, `or` and `dict.get`.
 */
module Values {

  import opened Wrappers

  /** A parsed Python value. Mapping keys are values themselves, as in YAML. */
  datatype Value =
    | Null
    | Bool(b: bool)
    | Int(i: int)
    | Str(s: string)
    | List(items: seq<Value>)
    | Dict(entries: map<Value, Value>)

  /** The one falsy value of each type: None, False, 0, the empty string, list and mapping. */
  const FalsyValues: set<Value> := {Null, Bool(false), Int(0), Str(""), List([]), Dict(map[])}

  /** Python truthiness: a value is true unless it is its type's falsy value. */
  predicate Truthy(v: Value)
    ensures Truthy(v) <==> v !in FalsyValues
  {
    match v
    case Null => false
    case Bool(b) => b
    case Int(i) => i != 0
    case Str(s) => s != ""
    case List(xs) => xs != []
    case Dict(m) => m != map[]
  }

  /** Python's `a or b`: the first operand when it is truthy, the second otherwise. */
  function Or(a: Value, b: Value): (r: Value)
    ensures Truthy(r) <==> Truthy(a) || Truthy(b)
    ensures Truthy(a) ==> r == a
    ensures !Truthy(a) ==> r == b
  {
    if Truthy(a) then a else b
  }

  /** `m.get(k)`: the stored value, or None when the key is absent. */
  function Get(m: map<Value, Value>, k: Value): (r: Value)
    ensures k in m ==> r == m[k]
    ensures k !in m ==> r == Null
  {
    if k in m then m[k] else Null
  }

  /** Whether Python accepts the value as a dict key: lists and dicts are unhashable. */
  predicate Hashable(v: Value) {
    !v.List? && !v.Dict?
  }

  /** An optional field that is present and truthy, as in `'k' in d and d['k']`. */
  predicate TruthyField(field: Option<Value>) {
    field.Some? && Truthy(field.value)
  }
}

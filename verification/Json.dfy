/**
 * The decoded form of a PowerShell `ConvertTo-Json` output, as `json.loads`
 * hands it to the audit code, together with the two Python operations the
 * audit applies to it: truthiness (`if x`, `not x`) and `dict.get`.
 */
module Json {

  datatype Value =
    | Null
    | Bool(b: bool)
    | Number(n: int)
    | Str(s: string)
    | Array(items: seq<Value>)
    | Object(members: map<string, Value>)

  /** What `json.loads` produced: a value, or a `JSONDecodeError`. */
  datatype Decoded = Parsed(value: Value) | Undecodable

  /**
   * Python truthiness of a decoded value: `None`, `False`, `0`, `""`, `[]`
   * and `{}` are false, everything else is true.
   */
  predicate Truthy(v: Value) {
    match v
    case Null => false
    case Bool(b) => b
    case Number(n) => n != 0
    case Str(s) => |s| > 0
    case Array(items) => |items| > 0
    case Object(members) => |members| > 0
  }

  /**
   * `v.get(key, default)` on an object; the caller has already checked that
   * `v` is an object (on anything else Python raises `AttributeError`).
   */
  function Get(v: Value, key: string, default: Value): (r: Value)
    requires v.Object?
    ensures key in v.members ==> r == v.members[key]
    ensures key !in v.members ==> r == default
  {
    if key in v.members then v.members[key] else default
  }

  /**
   * `v if isinstance(v, list) else [v]`: the elements of a list, or a single
   * decoded object (or scalar) as the only element of a one-element list.
   */
  function AsList(v: Value): (r: seq<Value>)
    ensures v.Array? ==> r == v.items
    ensures !v.Array? ==> |r| == 1 && r[0] == v
  {
    if v.Array? then v.items else [v]
  }

  predicate AllObjects(vs: seq<Value>) {
    forall i :: 0 <= i < |vs| ==> vs[i].Object?
  }
}

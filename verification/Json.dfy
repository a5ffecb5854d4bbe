/** JSON values as Python's `json` module hands them to the benchmark tooling. */
module Json {
  import opened Options

  /** A decoded JSON value. `NonFinite` stands for Python's `NaN`, `Infinity` and `-Infinity`. */
  datatype Value =
    | Null
    | Bool(b: bool)
    | Num(q: real)
    | NonFinite
    | Str(s: string)
    | Arr(items: seq<Value>)
    | Obj(members: map<string, Value>)

  /** The member called `key`, or `Null` if there is none. */
  function Get(v: Value, key: string): Value
    requires v.Obj?
  {
    if key in v.members then v.members[key] else Null
  }

  /** The strings that occur as values anywhere inside `v`. */
  ghost function Strings(v: Value): set<string>
  {
    match v
    case Str(s) => {s}
    case Arr(items) => set i, s | 0 <= i < |items| && s in Strings(items[i]) :: s
    case Obj(members) => set k, s | k in members && s in Strings(members[k]) :: s
    case _ => {}
  }
}

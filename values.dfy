/**
 * The Python values the pipeline passes around: JSON-shaped values as they
 * come out of the crawl records and the metadata extractors, dictionaries
 * keyed by strings, bytes, and the exceptions that can leave a call.
 */
module Values {

  /** A byte of a Python `bytes` object. */
  type byte = b: int | 0 <= b < 256

  /** A JSON-shaped Python value; `Null` is Python's `None` (pandas' missing value). */
  datatype Value =
    | Null
    | Bool(b: bool)
    | Num(n: int)
    | Str(s: string)
    | Arr(items: seq<Value>)
    | Obj(fields: map<string, Value>)

  /** A Python `dict` with string keys. */
  type Dict = map<string, Value>

  /** A row of `final_dict`, partial or base. */
  type Row = Dict

  /** Exceptions that can propagate out of the modelled code. */
  datatype PyError =
    | TypeError       // e.g. `bytes.decode(None)`, or indexing a non-dict with a string
    | LookupError     // `bytes.decode` with an encoding name Python does not know
    | KeyError(key: string)
    | AttributeError  // a method called on `None`

  /** Python truthiness (`if v:`). */
  predicate Truthy(v: Value) {
    match v
    case Null => false
    case Bool(b) => b
    case Num(n) => n != 0
    case Str(s) => s != []
    case Arr(xs) => xs != []
    case Obj(m) => m != map[]
  }

  /** `d.get(k)`: the value stored under `k`, or `None` when `k` is absent. */
  function Get(d: Dict, k: string): Value {
    if k in d then d[k] else Null
  }
}

/**
 * The JSON-shaped data the service matcher works on: field values, service
 * descriptors (one JSON object per registry line), evaluation items, and the
 * Option/Result wrappers used for absent values and for error paths.
 */
module Records {

  datatype Option<+T> = None | Some(value: T)

  datatype Result<+T, +E> = Success(value: T) | Failure(error: E)

  /** A JSON field value: null, a string, or an integer. */
  datatype Value = Null | Str(s: string) | Num(n: int)

  /** A service descriptor or repository record: a JSON object. */
  type Descriptor = map<string, Value>

  /** The empty object `{}`, the "no prediction" answer. */
  const Empty: Descriptor := map[]

  /** `d.get(key)`: the value stored under `key`, or null when it is missing. */
  function Get(d: Descriptor, key: string): Value
  {
    if key in d then d[key] else Null
  }

  /** Python truthiness of a JSON value: null, "" and 0 are false. */
  predicate Truthy(v: Value)
  {
    match v
    case Null => false
    case Str(s) => s != ""
    case Num(n) => n != 0
  }

  /** Why a strategy wrapper could not be constructed: the registry file is
    * missing (`FileNotFoundError`) or holds no valid record (`ValueError`). */
  datatype InitError = RegistryNotFound | RegistryEmpty

  /** One (query, expected service) pair of an evaluation set. */
  datatype EvalItem = EvalItem(query: string, expected: Descriptor)
}

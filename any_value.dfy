/**
 * A tagged union standing for `std::any` as `Struct` and `Result` use it:
 * a stored value remembers its type, and `std::any_cast<T>` succeeds only
 * when asked for exactly that type.
 */
module AnyValue {
  import opened Wrappers

  /** The types a value can be asked for with `std::any_cast<T>`. */
  datatype TypeTag = NullPtrType | BoolType | IntType | DoubleType | StringType | IntVectorType

  /** A value held by a `std::any`; `NullPtr` is the `nullptr` that `setResult` stores by default. */
  datatype Value =
    | NullPtr
    | Boolean(b: bool)
    | Integer(i: int)
    | Double(d: real)
    | Str(s: string)
    | IntVector(xs: seq<int>)
  {
    function Tag(): TypeTag {
      match this
      case NullPtr => NullPtrType
      case Boolean(_) => BoolType
      case Integer(_) => IntType
      case Double(_) => DoubleType
      case Str(_) => StringType
      case IntVector(_) => IntVectorType
    }
  }

  /** A `std::any`: `None` when it is empty, otherwise the value it holds. */
  type Any = Option<Value>

  /** The standard exceptions the modelled members can throw. */
  datatype Exception =
    | BadAnyCast                 // std::bad_any_cast
    | OutOfRange                 // std::out_of_range, from unordered_map::at
    | RuntimeError(what: string) // std::runtime_error

  /** A returned value, or the exception thrown instead. */
  datatype Outcome<+T> = Ok(value: T) | Throws(exception: Exception)

  /**
   * `std::any_cast<T>(a)` on a `std::any` that is empty (`None`) or holds a
   * value: the value when it has type `t`, `bad_any_cast` in every other case.
   */
  function AnyCast(a: Any, t: TypeTag): (r: Outcome<Value>)
    ensures r.Ok? <==> a.Some? && a.value.Tag() == t
    ensures r.Ok? ==> a == Some(r.value)
    ensures r.Throws? ==> r.exception == BadAnyCast
  {
    if a.Some? && a.value.Tag() == t then Ok(a.value) else Throws(BadAnyCast)
  }
}

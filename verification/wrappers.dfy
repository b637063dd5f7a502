/** Optional values, and the three states a member of a decoded JSON object can be in. */
module Wrappers {

  /** A value that may be missing: JSON `null`, or a Python `None`. */
  datatype Option<+T> = None | Some(value: T) {

    /** The value, or `default` when there is none. */
    function GetOr(default: T): T {
      match this
      case Some(v) => v
      case None => default
    }
  }

  /** A member of a JSON object as seen by Python's `dict.get`: the key may be
      missing, present with `null`, or present with a value. */
  datatype Member<+T> = Absent | Null | Given(value: T)

  /** `obj.get(key, default)`: a missing key yields `default`, `null` yields `None`. */
  function Get<T>(m: Member<T>, default: T): Option<T>
  {
    match m
    case Absent => Some(default)
    case Null => None
    case Given(v) => Some(v)
  }

  /** `obj.get(key, default)` for a boolean member, read for its truth value:
      a missing key yields `default`, while `null` yields `None`, which is falsy. */
  predicate Truthy(m: Member<bool>, default: bool)
  {
    Get(m, default) == Some(true)
  }
}

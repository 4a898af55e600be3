/** Failure-carrying result shapes shared by the whole model. */
module Wrappers {

  /** A value that may be absent: JavaScript's `null` / `undefined`. */
  datatype Option<+T> = None | Some(value: T) {
    /** The value, or `fallback` when absent (JavaScript's `x ?? fallback`). */
    function GetOr(fallback: T): T {
      match this
      case Some(v) => v
      case None => fallback
    }
  }

  /**
   * One field of a partial update: `Keep` when the field is `undefined`
   * (left out of the SET list), `Put(v)` when it is given (`v` may itself be null).
   */
  datatype Patch<+T> = Keep | Put(value: T) {
    /** The field's value after the update, given its value before. */
    function Over(current: T): T {
      match this
      case Put(v) => v
      case Keep => current
    }
  }

  /** The outcome of an operation that throws an error in the source. */
  datatype Result<+T, +E> = Success(value: T) | Failure(error: E)
}

/** The roles of src/types/roles.ts and the caller the authentication middleware attaches. */
module Roles {
  datatype UserRole = Admin | Manager | User

  /** `req.user`: the identity decoded from the bearer token. */
  datatype AuthUser = AuthUser(id: int, username: string, role: UserRole)
}

/**
 * Role gates (src/middleware/authorize.ts): `authorize(...allowedRoles)`
 * lets a request through to the next handler, or answers it itself.
 */
module Authorization {
  import opened Wrappers
  import opened Roles
  import opened Http

  const ForbiddenMessage := "Bạn không có quyền truy cập tài nguyên này"

  /** Either `next()` is called (and nothing is sent), or a response with this status and message is sent. */
  datatype Decision = Next | Deny(status: nat, message: string)

  /**
   * `authorize(...allowedRoles)` applied to the request's user: 401 without a
   * user, 403 for a role outside the list, and `next()` exactly when the role
   * is in the list.
   */
  function Authorize(allowedRoles: seq<UserRole>, user: Option<AuthUser>): (d: Decision)
    ensures user.None? ==> d == Deny(401, UnauthenticatedMessage)
    ensures d == Next <==> user.Some? && user.value.role in allowedRoles
    ensures user.Some? && user.value.role !in allowedRoles ==> d == Deny(403, ForbiddenMessage)
    ensures d.Deny? ==> d.status == 401 || d.status == 403
  {
    if user.None? then Deny(401, UnauthenticatedMessage)
    else if user.value.role !in allowedRoles then Deny(403, ForbiddenMessage)
    else Next
  }

  /** `requireAdmin`: only administrators pass. */
  function RequireAdmin(user: Option<AuthUser>): (d: Decision)
    ensures d == Next <==> user.Some? && user.value.role == Admin
    ensures user.Some? && user.value.role != Admin ==> d == Deny(403, ForbiddenMessage)
  {
    Authorize([Admin], user)
  }

  /** `requireAdminOrManager`: administrators and managers pass, plain users do not. */
  function RequireAdminOrManager(user: Option<AuthUser>): (d: Decision)
    ensures d == Next <==> user.Some? && user.value.role != UserRole.User
    ensures user.Some? && user.value.role == UserRole.User ==> d == Deny(403, ForbiddenMessage)
  {
    assert user.Some? ==> (user.value.role in [Admin, Manager] <==> !user.value.role.User?);
    Authorize([Admin, Manager], user)
  }

  /** Widening the list of roles never turns a pass into a refusal. */
  lemma AuthorizeMonotone(allowed: seq<UserRole>, wider: seq<UserRole>, user: Option<AuthUser>)
    requires forall r :: r in allowed ==> r in wider
    ensures Authorize(allowed, user) == Next ==> Authorize(wider, user) == Next
    ensures Authorize(wider, user).Deny? ==> Authorize(allowed, user) == Authorize(wider, user)
  {
  }

  /** Whoever passes `requireAdmin` passes `requireAdminOrManager`. */
  lemma AdminGateNested(user: Option<AuthUser>)
    ensures RequireAdmin(user) == Next ==> RequireAdminOrManager(user) == Next
  {
    AuthorizeMonotone([Admin], [Admin, Manager], user);
  }
}

/**
 * Permission and response decisions of the user handlers
 * (src/controller/userController.ts). Each handler takes the request's
 * authenticated user (`None` when the request carries none) and the
 * `userService` it calls.
 */
module UserController {
  import opened Wrappers
  import opened Roles
  import opened Http
  import opened UserModel
  import opened UserServices

  const ServerErrorMessage := "Lỗi server"
  const ViewForbiddenMessage := "Bạn không có quyền xem thông tin user này"
  const UserNotFoundMessage := "Không tìm thấy user"
  const UpdateForbiddenMessage := "Bạn không có quyền cập nhật user này"
  const UserMissingMessage := "User không tồn tại"
  const DeletedMessage := "Xóa user thành công"

  /** `users.map(({ password, ...user }) => user)`. */
  function HidePasswords(users: seq<User>): (r: seq<PublicUser>)
    ensures |r| == |users|
    ensures forall i :: 0 <= i < |r| ==> r[i] == WithoutPassword(users[i])
  {
    seq(|users|, i requires 0 <= i < |users| => WithoutPassword(users[i]))
  }

  /** `getAllUsers`: every user, in table order, without passwords. */
  method GetAllUsers(service: UserService) returns (r: Response<seq<PublicUser>>)
    ensures r.status == 200 && r.body.Json?
    ensures |r.body.data| == |service.store.rows|
    ensures forall i :: 0 <= i < |r.body.data| ==> r.body.data[i] == WithoutPassword(service.store.rows[i])
  {
    var users := service.GetAllUsers();
    r := Response(200, Json(HidePasswords(users)));
  }

  /**
   * Only a plain user looking at someone else is refused a profile; a
   * request without a user is not refused here.
   */
  predicate ViewForbidden(current: Option<AuthUser>, id: int) {
    current.Some? && current.value.id != id && current.value.role != Admin && current.value.role != Manager
  }

  /**
   * `getUserById`: 403 for a plain user asking for another id, 404 for an
   * unknown id, else the user without the password.
   */
  function GetUserById(service: UserService, current: Option<AuthUser>, id: int): (r: Response<PublicUser>)
    reads service.store
    ensures r.status == 403 <==> current.Some? && current.value.id != id && current.value.role == UserRole.User
    ensures r.status == 403 ==> r.body == Message(ViewForbiddenMessage)
    ensures r.status == 404 <==> !ViewForbidden(current, id) && FindById(service.store.rows, id).None?
    ensures r.status == 404 ==> r.body == Message(UserNotFoundMessage)
    ensures r.status == 200 ==> r.body == Json(WithoutPassword(FindById(service.store.rows, id).value))
    ensures r.status in {200, 403, 404}
  {
    if ViewForbidden(current, id) then Response(403, Message(ViewForbiddenMessage))
    else
      var user := service.GetUserById(id);
      if user.None? then Response(404, Message(UserNotFoundMessage))
      else Response(200, Json(WithoutPassword(user.value)))
  }

  /** Anyone may view their own profile, and administrators and managers anyone's. */
  lemma OwnProfileVisible(service: UserService, current: AuthUser, id: int)
    requires current.id == id || current.role != UserRole.User
    requires FindById(service.store.rows, id).Some?
    ensures GetUserById(service, Some(current), id).status == 200
  {
  }

  /** Only an administrator may update someone else. */
  predicate UpdateForbidden(current: AuthUser, id: int) {
    current.id != id && current.role != Admin
  }

  /** `delete req.body.role` for a caller who is not an administrator. */
  function RoleGuarded(current: AuthUser, data: UserUpdate): (r: UserUpdate)
    ensures current.role == Admin ==> r == data
    ensures current.role != Admin ==> r == data.(role := Keep)
  {
    if current.role != Admin && data.role.Put? then data.(role := Keep) else data
  }

  /** Whatever a non-administrator sends, the update leaves every role as it was. */
  lemma NonAdminKeepsRoles(rows: seq<User>, current: AuthUser, id: int, data: UserUpdate)
    requires current.role != Admin
    ensures forall i :: 0 <= i < |rows| ==> UpdatedRows(rows, id, RoleGuarded(current, data))[i].role == rows[i].role
  {
  }

  /**
   * `updateUser`: 401 without a user, 403 for someone else unless an
   * administrator; otherwise the role is dropped for non-administrators and
   * the service's update runs. A rejected username surfaces as a 500, a
   * null result as 404, and the updated row is sent without its password.
   */
  method UpdateUser(service: UserService, current: Option<AuthUser>, id: int, body: UserUpdate) returns (r: Response<PublicUser>)
    requires service.store.Valid()
    modifies service.store
    ensures service.store.Valid() && service.store.nextId == old(service.store.nextId)
    ensures current.None? ==> r == Response(401, Message(UnauthenticatedMessage)) && service.store.rows == old(service.store.rows)
    ensures current.Some? && UpdateForbidden(current.value, id) ==>
      r == Response(403, Message(UpdateForbiddenMessage)) && service.store.rows == old(service.store.rows)
    ensures current.Some? && !UpdateForbidden(current.value, id) ==>
      var data := RoleGuarded(current.value, body);
      if UsernameRejected(data) then
        r == Response(500, Message(ServerErrorMessage)) && service.store.rows == old(service.store.rows)
      else
        && service.store.rows == (if NoChange(data) then old(service.store.rows) else UpdatedRows(old(service.store.rows), id, data))
        && var u := UpdateResult(old(service.store.rows), id, data);
           r == if u.None? then Response(404, Message(UserMissingMessage)) else Response(200, Json(WithoutPassword(u.value)))
  {
    if current.None? {
      return Response(401, Message(UnauthenticatedMessage));
    }
    var currentUser := current.value;
    if currentUser.id != id && currentUser.role != Admin {
      return Response(403, Message(UpdateForbiddenMessage));
    }
    var data := body;
    if currentUser.role != Admin && data.role.Put? {
      data := data.(role := Keep);
    }
    var updated := service.UpdateUser(id, data);
    if updated.Failure? {
      return Response(500, Message(ServerErrorMessage));
    }
    if updated.value.None? {
      return Response(404, Message(UserMissingMessage));
    }
    r := Response(200, Json(WithoutPassword(updated.value.value)));
  }

  /** `deleteUser`: 404 when no row had the id, else a confirmation; only that row goes. */
  method DeleteUser(service: UserService, id: int) returns (r: Response<PublicUser>)
    requires service.store.Valid()
    modifies service.store
    ensures service.store.Valid() && service.store.nextId == old(service.store.nextId)
    ensures service.store.rows == DeletedRows(old(service.store.rows), id)
    ensures r == if exists u :: u in old(service.store.rows) && u.id == id
                 then Response(200, Message(DeletedMessage))
                 else Response(404, Message(UserMissingMessage))
  {
    var success := service.DeleteUser(id);
    if !success {
      return Response(404, Message(UserMissingMessage));
    }
    r := Response(200, Message(DeletedMessage));
  }
}

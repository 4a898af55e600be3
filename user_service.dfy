/**
 * `UserService` (src/service/userService.ts): pass-through to the user
 * store, plus a guard on the length of a new username.
 */
module UserServices {
  import opened Wrappers
  import opened Text
  import opened UserModel

  const UsernameTooShortMessage := "Username phải có ít nhất 3 ký tự"

  /**
   * `data.username && data.username.length < 3`: only a given, non-empty
   * username of one or two UTF-16 units is refused; an empty one passes.
   */
  function UsernameRejected(data: UserUpdate): (rejected: bool)
    ensures rejected ==> data.username.Put? && 1 <= |data.username.value| <= 2
    ensures data.username.Keep? ==> !rejected
    ensures data.username == Put("") ==> !rejected
    ensures data.username.Put? && |data.username.value| >= 3 ==> !rejected
    ensures (data.username.Put? && 1 <= |data.username.value| <= 2 &&
             forall i :: 0 <= i < |data.username.value| ==> data.username.value[i] as int < 0x10000) ==> rejected
  {
    data.username.Put? && data.username.value != "" && Utf16Length(data.username.value) < 3
  }

  class UserService {
    const store: UserStore

    constructor (store: UserStore)
      ensures this.store == store
    {
      this.store := store;
    }

    /** `getAllUsers`: the store's `findAll`. */
    method GetAllUsers() returns (users: seq<User>)
      ensures users == store.rows
    {
      users := store.FindAll();
    }

    /** `getUserById`: the store's `findById`. */
    function GetUserById(id: int): (r: Option<User>)
      reads store
      ensures r == FindById(store.rows, id)
    {
      FindById(store.rows, id)
    }

    /** `updateUser`: throws on a too-short username before touching the store, else the store's `update`. */
    method UpdateUser(id: int, data: UserUpdate) returns (r: Result<Option<User>, string>)
      requires store.Valid()
      modifies store
      ensures store.Valid()
      ensures UsernameRejected(data) ==>
        r == Failure(UsernameTooShortMessage) && store.rows == old(store.rows) && store.nextId == old(store.nextId)
      ensures !UsernameRejected(data) ==>
        && r == Success(UpdateResult(old(store.rows), id, data))
        && store.rows == (if NoChange(data) then old(store.rows) else UpdatedRows(old(store.rows), id, data))
        && store.nextId == old(store.nextId)
    {
      if data.username.Put? && data.username.value != "" && Utf16Length(data.username.value) < 3 {
        return Failure(UsernameTooShortMessage);
      }
      var updated := store.Update(id, data);
      r := Success(updated);
    }

    /** `deleteUser`: the store's `delete`. */
    method DeleteUser(id: int) returns (deleted: bool)
      requires store.Valid()
      modifies store
      ensures store.Valid() && store.nextId == old(store.nextId)
      ensures deleted <==> exists u :: u in old(store.rows) && u.id == id
      ensures store.rows == DeletedRows(old(store.rows), id)
    {
      deleted := store.Delete(id);
    }

    /** `getUserByEmail`: the store's `findByEmail`. */
    function GetUserByEmail(email: string): (r: Option<User>)
      reads store
      ensures r == FindByEmail(store.rows, email)
    {
      FindByEmail(store.rows, email)
    }
  }
}

/**
 * The user store (src/model/User.ts) as an in-memory `users` table: INSERT
 * with a default role, the single-row SELECTs, the partial UPDATE over five
 * columns and DELETE.
 */
module UserModel {
  import opened Wrappers
  import opened Roles
  import opened Tables

  /** One row of the `users` table; `password` holds the stored hash. */
  datatype User = User(
    id: int,
    username: string,
    password: string,
    email: Option<string>,
    fullName: Option<string>,
    role: UserRole)

  /** A user as responses show it: every column but `password`. */
  datatype PublicUser = PublicUser(
    id: int,
    username: string,
    email: Option<string>,
    fullName: Option<string>,
    role: UserRole)

  /** `const { password, ...rest } = user`. */
  function WithoutPassword(u: User): (p: PublicUser)
    ensures p.id == u.id && p.username == u.username && p.role == u.role
    ensures p.email == u.email && p.fullName == u.fullName
  {
    PublicUser(u.id, u.username, u.email, u.fullName, u.role)
  }

  /** Nothing of the password shows in the public view. */
  lemma WithoutPasswordHidesPassword(u: User, other: string)
    ensures WithoutPassword(u.(password := other)) == WithoutPassword(u)
  {
  }

  /** `UserCreationAttributes` as given to `create`: `None` is an absent field. */
  datatype UserCreationAttributes = UserCreationAttributes(
    username: string,
    password: string,
    email: Option<string>,
    fullName: Option<string>,
    role: Option<UserRole>)

  /** The attributes given to `update`: each is left alone (`Keep`) or written (`Put`). */
  datatype UserUpdate = UserUpdate(
    username: Patch<string>,
    password: Patch<string>,
    email: Patch<Option<string>>,
    fullName: Patch<Option<string>>,
    role: Patch<UserRole>)

  /** One `column = ?` entry of the SET list that `update` accumulates. */
  datatype UserAssignment =
    | SetUsername(username: string)
    | SetPassword(password: string)
    | SetEmail(email: Option<string>)
    | SetFullName(fullName: Option<string>)
    | SetRole(role: UserRole)

  /** `id` is the table's key. */
  ghost predicate UniqueIds(rows: seq<User>) {
    forall i, j :: 0 <= i < j < |rows| ==> rows[i].id != rows[j].id
  }

  // ---------------------------------------------------------------------------
  // Queries

  /** The row `create` stores for `data` under the fresh key `id`. */
  function StoredUser(id: int, data: UserCreationAttributes): (u: User)
    ensures u.id == id && u.username == data.username && u.password == data.password
    ensures u.email == data.email && u.fullName == data.fullName
    ensures data.role.Some? ==> u.role == data.role.value
    ensures data.role.None? ==> u.role == UserRole.User
  {
    User.User(id, data.username, data.password, data.email, data.fullName, data.role.GetOr(UserRole.User))
  }

  function FindByUsername(rows: seq<User>, username: string): (r: Option<User>)
    ensures r.Some? ==> r.value in rows && r.value.username == username
    ensures r.None? <==> forall u :: u in rows ==> u.username != username
  {
    First(rows, (u: User) => u.username == username)
  }

  function FindById(rows: seq<User>, id: int): (r: Option<User>)
    ensures r.Some? ==> r.value in rows && r.value.id == id
    ensures r.None? <==> forall u :: u in rows ==> u.id != id
  {
    First(rows, (u: User) => u.id == id)
  }

  /** `WHERE email = ?` never matches a NULL email. */
  function FindByEmail(rows: seq<User>, email: string): (r: Option<User>)
    ensures r.Some? ==> r.value in rows && r.value.email == Some(email)
    ensures r.None? <==> forall u :: u in rows ==> u.email != Some(email)
  {
    First(rows, (u: User) => u.email == Some(email))
  }

  /** Over a keyed table the row found by id is the one at the key's position. */
  lemma FindByIdKeyed(rows: seq<User>, k: int)
    requires UniqueIds(rows) && 0 <= k < |rows|
    ensures FindById(rows, rows[k].id) == Some(rows[k])
  {
    assert rows[k] in rows;
    var u := FindById(rows, rows[k].id).value;
    var j :| 0 <= j < |rows| && rows[j] == u;
    assert j == k;
  }

  // ---------------------------------------------------------------------------
  // UPDATE

  /** The SET list `update` accumulates, in push order. */
  function SetList(data: UserUpdate): seq<UserAssignment> {
    (if data.username.Put? then [SetUsername(data.username.value)] else [])
    + (if data.password.Put? then [SetPassword(data.password.value)] else [])
    + (if data.email.Put? then [SetEmail(data.email.value)] else [])
    + (if data.fullName.Put? then [SetFullName(data.fullName.value)] else [])
    + (if data.role.Put? then [SetRole(data.role.value)] else [])
  }

  /** The update names no field at all. */
  predicate NoChange(data: UserUpdate) {
    data.username.Keep? && data.password.Keep? && data.email.Keep? && data.fullName.Keep? && data.role.Keep?
  }

  /** One `column = value` of a SET list applied to a row. */
  function Assign(u: User, a: UserAssignment): User {
    match a
    case SetUsername(n) => u.(username := n)
    case SetPassword(p) => u.(password := p)
    case SetEmail(e) => u.(email := e)
    case SetFullName(f) => u.(fullName := f)
    case SetRole(r) => u.(role := r)
  }

  /** A whole SET list applied to a row, left to right. */
  function Apply(u: User, fields: seq<UserAssignment>): User
    decreases |fields|
  {
    if fields == [] then u else Apply(Assign(u, fields[0]), fields[1..])
  }

  /** The reference meaning of a partial update: each given field is written, the rest kept. */
  function Patched(u: User, data: UserUpdate): User {
    u.(username := data.username.Over(u.username),
       password := data.password.Over(u.password),
       email := data.email.Over(u.email),
       fullName := data.fullName.Over(u.fullName),
       role := data.role.Over(u.role))
  }

  lemma {:induction false} ApplyConcat(u: User, a: seq<UserAssignment>, b: seq<UserAssignment>)
    ensures Apply(u, a + b) == Apply(Apply(u, a), b)
    decreases |a|
  {
    if a == [] {
      assert a + b == b;
    } else {
      assert (a + b)[1..] == a[1..] + b;
      ApplyConcat(Assign(u, a[0]), a[1..], b);
    }
  }

  /** The SET list built field by field means exactly the partial update, and never touches the key. */
  lemma SetListMeansPatch(u: User, data: UserUpdate)
    ensures Apply(u, SetList(data)) == Patched(u, data)
    ensures Patched(u, data).id == u.id
  {
    var n := if data.username.Put? then [SetUsername(data.username.value)] else [];
    var p := if data.password.Put? then [SetPassword(data.password.value)] else [];
    var e := if data.email.Put? then [SetEmail(data.email.value)] else [];
    var f := if data.fullName.Put? then [SetFullName(data.fullName.value)] else [];
    var r := if data.role.Put? then [SetRole(data.role.value)] else [];
    ApplyConcat(u, n + p + e + f, r);
    ApplyConcat(u, n + p + e, f);
    ApplyConcat(u, n + p, e);
    ApplyConcat(u, n, p);
  }

  /** The SET list is empty exactly when no field is given. */
  lemma SetListEmpty(data: UserUpdate)
    ensures SetList(data) == [] <==> NoChange(data)
  {
  }

  /** The engine's UPDATE: the SET list applied to every row with the id. */
  function SetWhereId(rows: seq<User>, id: int, fields: seq<UserAssignment>): (r: seq<User>)
    ensures |r| == |rows|
  {
    seq(|rows|, i requires 0 <= i < |rows| => if rows[i].id == id then Apply(rows[i], fields) else rows[i])
  }

  /** `UPDATE users SET ... WHERE id = ?` over the whole table. */
  function UpdatedRows(rows: seq<User>, id: int, data: UserUpdate): (r: seq<User>)
    ensures |r| == |rows|
    ensures forall i :: 0 <= i < |rows| ==> r[i].id == rows[i].id
    ensures forall i :: 0 <= i < |rows| && rows[i].id != id ==> r[i] == rows[i]
    ensures forall i :: 0 <= i < |rows| && rows[i].id == id ==> r[i] == Patched(rows[i], data)
  {
    seq(|rows|, i requires 0 <= i < |rows| => if rows[i].id == id then Patched(rows[i], data) else rows[i])
  }

  lemma SetWhereIdIsUpdate(rows: seq<User>, id: int, data: UserUpdate)
    ensures SetWhereId(rows, id, SetList(data)) == UpdatedRows(rows, id, data)
  {
    forall i | 0 <= i < |rows| && rows[i].id == id
      ensures Apply(rows[i], SetList(data)) == Patched(rows[i], data)
    {
      SetListMeansPatch(rows[i], data);
    }
  }

  /** The number of rows an `UPDATE ... WHERE id = ?` touches (`affectedRows`). */
  function CountId(rows: seq<User>, id: int): (n: nat)
    ensures n == 0 <==> forall u :: u in rows ==> u.id != id
  {
    if rows == [] then 0
    else
      assert forall u :: u in rows <==> u == rows[0] || u in rows[1..];
      (if rows[0].id == id then 1 else 0) + CountId(rows[1..], id)
  }

  /** A partial update keeps every key, so the table stays keyed. */
  lemma UpdatedRowsKeepIds(rows: seq<User>, id: int, data: UserUpdate)
    ensures forall i :: 0 <= i < |rows| ==> UpdatedRows(rows, id, data)[i].id == rows[i].id
    ensures UniqueIds(rows) ==> UniqueIds(UpdatedRows(rows, id, data))
    ensures forall u :: u in UpdatedRows(rows, id, data) ==> exists v :: v in rows && v.id == u.id
  {
    var r := UpdatedRows(rows, id, data);
    forall u | u in r ensures exists v :: v in rows && v.id == u.id {
      var i :| 0 <= i < |r| && r[i] == u;
      assert rows[i] in rows;
    }
  }

  /** What `update` returns: null without fields or without a matching row, else the re-read row. */
  function UpdateResult(rows: seq<User>, id: int, data: UserUpdate): (r: Option<User>)
    ensures r.None? <==> NoChange(data) || forall x :: x in rows ==> x.id != id
    ensures r.Some? ==> r.value.id == id && exists x :: x in rows && x.id == id && r.value == Patched(x, data)
  {
    if NoChange(data) || FindById(rows, id).None? then None
    else
      UpdateFindsPatchedRow(rows, id, data);
      FindById(UpdatedRows(rows, id, data), id)
  }

  /** When some row has the id, the re-read after the update finds one of them, patched. */
  lemma UpdateFindsPatchedRow(rows: seq<User>, id: int, data: UserUpdate)
    requires FindById(rows, id).Some?
    ensures FindById(UpdatedRows(rows, id, data), id).Some?
    ensures exists x :: x in rows && x.id == id && FindById(UpdatedRows(rows, id, data), id).value == Patched(x, data)
  {
    var u := UpdatedRows(rows, id, data);
    var k :| 0 <= k < |rows| && rows[k] == FindById(rows, id).value;
    assert u[k] in u && u[k].id == id;
    var found := FindById(u, id).value;
    var i :| 0 <= i < |u| && u[i] == found;
    assert rows[i] in rows && found == Patched(rows[i], data);
  }

  /**
   * Over a keyed table, `update` changes at most the row with that id: the
   * row it returns is that row with the given fields written, every other row
   * is kept, and null comes back exactly when no field is given.
   */
  lemma UpdateResultIsPatchedRow(rows: seq<User>, id: int, data: UserUpdate, k: nat)
    requires UniqueIds(rows)
    requires k < |rows| && rows[k].id == id
    ensures UpdateResult(rows, id, data) == if NoChange(data) then None else Some(Patched(rows[k], data))
    ensures forall i :: 0 <= i < |rows| && i != k ==> UpdatedRows(rows, id, data)[i] == rows[i]
  {
    var r := UpdatedRows(rows, id, data);
    assert r[k] == Patched(rows[k], data);
    assert forall u :: u in r && u.id == id ==> u == r[k];
  }

  /** `update` on an id the table does not hold returns null and changes no row. */
  lemma UpdateMissingId(rows: seq<User>, id: int, data: UserUpdate)
    requires forall u :: u in rows ==> u.id != id
    ensures UpdateResult(rows, id, data).None?
    ensures UpdatedRows(rows, id, data) == rows
  {
    var r := UpdatedRows(rows, id, data);
    forall i | 0 <= i < |rows| ensures r[i] == rows[i] {
      assert rows[i] in rows;
    }
  }

  // ---------------------------------------------------------------------------
  // DELETE

  /** `DELETE FROM users WHERE id = ?`. */
  function DeletedRows(rows: seq<User>, id: int): (r: seq<User>)
    ensures forall u :: u in r <==> u in rows && u.id != id
    ensures |r| < |rows| <==> exists u :: u in rows && u.id == id
  {
    WhereShrinks(rows, (u: User) => u.id != id);
    Where(rows, (u: User) => u.id != id)
  }

  lemma {:induction false} WhereKeepsUniqueIds(rows: seq<User>, p: User -> bool)
    requires UniqueIds(rows)
    ensures UniqueIds(Where(rows, p))
  {
    if rows != [] {
      WhereKeepsUniqueIds(rows[1..], p);
      var rest := Where(rows[1..], p);
      assert rows == [rows[0]] + rows[1..];
      forall v | v in rest ensures v.id != rows[0].id {
        var k :| 0 <= k < |rows[1..]| && rows[1..][k] == v;
        assert rows[k + 1] == v;
      }
    }
  }

  /** Deleting rows keeps the key unique. */
  lemma DeletedKeepsKeys(rows: seq<User>, id: int)
    requires UniqueIds(rows)
    ensures UniqueIds(DeletedRows(rows, id))
  {
    WhereKeepsUniqueIds(rows, (u: User) => u.id != id);
    assert DeletedRows(rows, id) == Where(rows, (u: User) => u.id != id);
  }

  // ---------------------------------------------------------------------------
  // The store

  /** `UserStore`: the `users` table and its key generator. */
  class UserStore {
    var rows: seq<User>
    var nextId: int

    ghost predicate Valid()
      reads this
    {
      0 < nextId && UniqueIds(rows) && forall u :: u in rows ==> 0 < u.id < nextId
    }

    constructor ()
      ensures Valid() && rows == [] && nextId == 1
    {
      rows := [];
      nextId := 1;
    }

    /** `create`: INSERT with the role defaulting to `user`, then the row re-read by its new id. */
    method Create(data: UserCreationAttributes) returns (r: User)
      requires Valid()
      modifies this
      ensures Valid()
      ensures r == StoredUser(old(nextId), data)
      ensures rows == old(rows) + [r] && nextId == old(nextId) + 1
      ensures forall u :: u in old(rows) ==> u.id != r.id
    {
      var role := data.role.GetOr(UserRole.User);
      var newId := nextId;
      rows := rows + [User.User(newId, data.username, data.password, data.email, data.fullName, role)];
      nextId := nextId + 1;
      r := FindById(rows, newId).value;
      assert rows[|rows| - 1] in rows;
      assert forall u :: u in rows ==> u in old(rows) || u == rows[|rows| - 1];
    }

    /** `findAll`: every row of the table. */
    method FindAll() returns (r: seq<User>)
      ensures r == rows
    {
      r := rows;
    }

    /** The `fields` array of `update`, one push per given attribute. */
    static method BuildSetList(data: UserUpdate) returns (fields: seq<UserAssignment>)
      ensures fields == SetList(data)
      ensures |fields| == 0 <==> NoChange(data)
    {
      fields := [];
      if data.username.Put? { fields := fields + [SetUsername(data.username.value)]; }
      if data.password.Put? { fields := fields + [SetPassword(data.password.value)]; }
      if data.email.Put? { fields := fields + [SetEmail(data.email.value)]; }
      if data.fullName.Put? { fields := fields + [SetFullName(data.fullName.value)]; }
      if data.role.Put? { fields := fields + [SetRole(data.role.value)]; }
    }

    /** `update`: builds the SET list, runs the UPDATE, then re-reads the row. */
    method Update(id: int, data: UserUpdate) returns (r: Option<User>)
      requires Valid()
      modifies this
      ensures Valid() && nextId == old(nextId)
      ensures rows == (if NoChange(data) then old(rows) else UpdatedRows(old(rows), id, data))
      ensures r == UpdateResult(old(rows), id, data)
    {
      var fields := BuildSetList(data);
      SetListEmpty(data);
      if |fields| == 0 {
        return None;
      }
      var before := rows;
      var affectedRows := CountId(before, id);
      rows := SetWhereId(before, id, fields);
      SetWhereIdIsUpdate(before, id, data);
      UpdatedRowsKeepIds(before, id, data);
      if affectedRows == 0 {
        return None;
      }
      r := FindById(rows, id);
    }

    /** `delete`: true iff a row with that id existed; only that row goes. */
    method Delete(id: int) returns (deleted: bool)
      requires Valid()
      modifies this
      ensures Valid() && nextId == old(nextId)
      ensures deleted <==> exists u :: u in old(rows) && u.id == id
      ensures rows == DeletedRows(old(rows), id)
    {
      var before := rows;
      rows := DeletedRows(before, id);
      deleted := |rows| < |before|;
      DeletedKeepsKeys(before, id);
    }
  }
}

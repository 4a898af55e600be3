# Attendance API core, modelled in Dafny

This project models the core of a small attendance-tracking REST API. It
covers four areas:

- **The attendance lifecycle.** Employees check in once per day and check out
  once. Check-out records the hours worked, in hundredths of an hour.
- **The two SQL tables and their stores.** The `attendance` and `users` tables
  are in-memory sequences of rows, held by the store classes. Each SQL
  statement of the stores becomes an operation on that sequence: INSERT with
  defaults, the single-row SELECTs, the ordered, windowed and paged SELECTs,
  the partial UPDATE, DELETE, and the aggregate statistics query.
- **Account rules and HTTP decisions.** This covers login, ordered
  registration checks and the username guard. It also covers the role gates,
  the ownership rules and status mapping of the user and attendance handlers,
  and the classification done by the error middleware.
- **SQL text utilities.** These are the `?` to `$k` placeholder rewriting, the
  INSERT/RETURNING result header, the comment stripping of the PostgreSQL
  schema script, and the statement splitting and tolerant execution loop of
  the SQLite bootstrap.

Abstractions used throughout:

- Dates are integer day numbers and timestamps are integer milliseconds.
- The clock is an input: `now` is the current time and `today` its day.
- Worked hours are integer hundredths of an hour. `Math.round(diff / 3600000 * 100)`
  is `(diff + 18000) / 36000` for the non-negative differences of a working day.
- The password hash is a function parameter `hash` about which nothing is
  assumed. `comparePassword` is equality of hashes.
- The file system (`existsSync`, `readFileSync`) and the database driver's
  answers are parameters:
  - the table list;
  - the row count, the returned rows and `lastval()`;
  - the outcome of each SQLite statement.
- A request's authenticated user is an `Option<AuthUser>`. Query-string values
  arrive already parsed: `None` means absent or empty.

Modules, one per source file of the core:

- `AttendanceModel`: `src/model/Attendance.ts`
- `AttendanceServices`: `src/service/attendanceService.ts`
- `UserModel`: `src/model/User.ts`
- `AuthService`: `src/service/authService.ts`
- `UserServices`: `src/service/userService.ts`
- `UserController`: `src/controller/userController.ts`
- `AttendanceController`: `src/controller/attendanceController.ts`
- `Authorization`: `src/middleware/authorize.ts`
- `ErrorHandling`: `src/middleware/errorHandler.ts`
- `Connection`: `src/config/connection.ts`
- `InitPostgres`: `src/utils/initPostgres.ts`
- `InitSqlite`: `src/utils/initSQLite.ts`

Shared helpers:

- `Wrappers`: `Option`, `Result`, and `Patch` (an update attribute that is
  left alone or written).
- `Roles`: the role enum of `src/types/roles.ts`.
- `Text`: the JavaScript string built-ins that are used.
- `Tables`: the `WHERE` filter.
- `Http`: response bodies.

The stores' operations are methods of classes that hold the table, and so are
the attendance and user services' operations, which hold their store.
`AuthService.RegisterUser`, `AuthService.CreateUser` and the controller
handlers are module-level methods that take the store or the service as a
parameter. Each state-changing method is proved to follow a function on the
table contents, and the lifecycle lemmas are proved about those functions.

`averageHours` is SQL `AVG("totalHours")`, which skips nulls
(src/model/Attendance.ts:205). The model averages the non-null hours and
gives 0 when there are none.

## Model

| member | source | states |
|---|---|---|
| AttendanceModel.SortRecent | src/model/Attendance.ts:82 | `ORDER BY "workDate" DESC, "checkInTime" DESC`: the result is a permutation of the input, most recent first |
| AttendanceModel.Page | src/model/Attendance.ts:113-120 | without a limit every row is kept; with one, at most `limit` consecutive rows starting at the offset (0 when absent) |
| AttendanceModel.FindById | src/model/Attendance.ts:74-77 | the row carrying the id, or null exactly when no row carries it |
| AttendanceModel.FindByUserId | src/model/Attendance.ts:80-86 | exactly the user's rows, each as often as stored, most recent first |
| AttendanceModel.FindByUserIdAndDate | src/model/Attendance.ts:89-96 | a row of that user on that date, or null exactly when none exists |
| AttendanceModel.FindTodayByUserId | src/model/Attendance.ts:99-106 | a row of that user on today's date, or null exactly when none exists |
| AttendanceModel.FindAll | src/model/Attendance.ts:109-124 | rows of the table most recent first; without a limit exactly the sorted table, with one the `LIMIT`/`OFFSET` slice of it: `min(limit, n - offset)` rows starting at `offset`, none when `offset >= n` |
| AttendanceModel.PageOfOrdered | src/model/Attendance.ts:109-124 | a page of rows in order is in order and holds only rows of the table |
| AttendanceModel.FindByDateRange | src/model/Attendance.ts:127-143 | exactly the rows with `start <= workDate <= end` (both inclusive) and of the user when one is given, most recent first |
| AttendanceModel.StatusCountsPartition | src/model/Attendance.ts:206-208 | the three status counts add up to the number of rows |
| AttendanceModel.NoReportedHoursSumZero | src/model/Attendance.ts:204 | with no non-null hours the summed hours are 0 (the COALESCE default) |
| AttendanceModel.Tally | src/model/Attendance.ts:201-229 | `totalRecords` counts the rows, each status count is the number of rows with that status and together they partition the rows, `totalHours` sums the non-null hours, and `averageHours` times the number of non-null hours is `totalHours` (0 when there are none) |
| AttendanceModel.GetStatistics | src/model/Attendance.ts:190-229 | the aggregates over the rows of the inclusive window (and user), whose count is the length of `findByDateRange`'s answer |
| AttendanceModel.StoredRow | src/model/Attendance.ts:42-60 | the inserted row: fresh id, `status` defaulting to `checked_in`, a `totalHours` of 0 and empty notes stored as null |
| AttendanceModel.SetListMeansPatch | src/model/Attendance.ts:150-165 | applying the pushed SET list writes exactly the given fields and keeps the others |
| AttendanceModel.SetListEmpty | src/model/Attendance.ts:167 | the SET list is empty exactly when no field is given |
| AttendanceModel.SetWhereIdIsUpdate | src/model/Attendance.ts:169-172 | the UPDATE statement equals the partial update of the rows with that id |
| AttendanceModel.CountId | src/model/Attendance.ts:174 | `affectedRows` is 0 exactly when no row carries the id |
| AttendanceModel.UpdatedRowsKeepIds | src/model/Attendance.ts:169-172 | an update never changes a key and keeps keys unique |
| AttendanceModel.CountStatusIsMultiplicity | src/model/Attendance.ts:206-208 | the `SUM(CASE WHEN status = ...)` count is the multiplicity of that status among the rows' statuses |
| AttendanceModel.StatusCounts | src/model/Attendance.ts:206-208 | the three status counts are the three multiplicities and add up to the number of rows |
| AttendanceModel.Window | src/model/Attendance.ts:209-217 | exactly the rows with `start <= workDate <= end` and, when a user is given, of that user |
| AttendanceModel.UpdatedRows | src/model/Attendance.ts:146-177 | same length and ids; the row with the id gets the given fields written, every other row is unchanged |
| AttendanceModel.UpdateResult | src/model/Attendance.ts:146-177 | null iff no field is given or no row has the id; otherwise a row of the table with that id and the given fields written |
| AttendanceModel.UpdateFindsPatchedRow | src/model/Attendance.ts:174-177 | when the id is found, the row read back after the update is the patched row of the table |
| AttendanceModel.UpdateResultIsPatchedRow | src/model/Attendance.ts:146-177 | over a keyed table `update` returns null without fields, else the row with the given fields written; every other row is unchanged |
| AttendanceModel.UpdateMissingId | src/model/Attendance.ts:174-175 | on an unknown id `update` returns null and changes no row |
| AttendanceModel.DeletedRows | src/model/Attendance.ts:181-187 | exactly the rows without that id remain, and the table shrinks iff a row had it |
| AttendanceModel.DeletedKeepsKeys | src/model/Attendance.ts:181-187 | deleting keeps the key unique |
| AttendanceModel.AttendanceStore.Create | src/model/Attendance.ts:42-71 | appends the stored row under a fresh id and returns it; the key stays unique |
| AttendanceModel.AttendanceStore.BuildSetList | src/model/Attendance.ts:147-165 | the pushes build the SET list, which is empty iff no field is given |
| AttendanceModel.AttendanceStore.Update | src/model/Attendance.ts:146-178 | no write without fields; otherwise the table is partially updated at that id; returns the re-read row, or null |
| AttendanceModel.AttendanceStore.Delete | src/model/Attendance.ts:181-187 | true iff a row had the id; only that row is removed |
| AttendanceServices.HoursHundredths | src/service/attendanceService.ts:49-56 | the elapsed time in hundredths of an hour, rounded half up: `36000h - 18000 <= diff < 36000h + 18000` |
| AttendanceServices.NineToHalfPastFive | src/service/attendanceService.ts:49-56 | 09:00 to 17:30 counts as 8.50 hours |
| AttendanceServices.CheckOutNotes | src/service/attendanceService.ts:58 | `notes \|\| attendance.notes \|\| null`: new non-empty notes win, else the existing non-empty notes, else null |
| AttendanceServices.CheckInStep | src/service/attendanceService.ts:12-31 | with a record for today, "already checked in" and no change; otherwise exactly one new open record for today (`now`, `checked_in`, `notes \|\| null`) is appended |
| AttendanceServices.CheckOutData | src/service/attendanceService.ts:50-59 | the update sets a check-out time `now`, the hours of `now - checkInTime` rounded to hundredths, status `checked_out`, the chosen notes, and leaves id, user, day and check-in time alone |
| AttendanceServices.CheckInAppendsKeyedRow | src/service/attendanceService.ts:22-30 | the inserted record's fresh id keeps the ids of the table unique |
| AttendanceServices.CheckOutStep | src/service/attendanceService.ts:34-67 | "not checked in" or "already checked out" change nothing; otherwise only today's record is closed: check-out time `now`, rounded hours, `checked_out`, notes as above, keys unchanged |
| AttendanceServices.CheckOutUpdatesOpenRecord | src/service/attendanceService.ts:61-64 | over a keyed table the check-out update finds its row, so the "could not update" error does not arise |
| AttendanceServices.CheckInKeepsOnePerUserDay | src/service/attendanceService.ts:17-30 | check-in keeps at most one record per user and day |
| AttendanceServices.CheckOutKeepsOnePerUserDay | src/service/attendanceService.ts:54-61 | check-out keeps unique keys and at most one record per user and day |
| AttendanceServices.SameKeysKeepInvariants | src/service/attendanceService.ts:54-61 | tables agreeing row by row on id, user and day satisfy the same key invariants |
| AttendanceServices.SecondCheckInFails | src/service/attendanceService.ts:17-20 | a second check-in on the same day fails and changes nothing |
| AttendanceServices.OnlyRecordOfDay | src/service/attendanceService.ts:39 | with one record per user and day, today's lookup finds that record |
| AttendanceServices.FoundAfterCheckIn | src/service/attendanceService.ts:22-30 | after a check-in, today's lookup finds the new record |
| AttendanceServices.CheckInThenOut | src/service/attendanceService.ts:12-67 | check-in then check-out yields the one new record, checked out with the hours since check-in and the check-in notes |
| AttendanceServices.SecondCheckOutFails | src/service/attendanceService.ts:44-46 | a second check-out fails and keeps the stored hours and notes |
| AttendanceServices.AttendanceService.CheckIn | src/service/attendanceService.ts:12-31 | result and new table are those of `CheckInStep`; the store stays valid |
| AttendanceServices.AttendanceService.CheckOut | src/service/attendanceService.ts:34-67 | result and new table are those of `CheckOutStep`; the store stays valid |
| AttendanceServices.AttendanceService.GetUserAttendance | src/service/attendanceService.ts:70-72 | exactly the store's `findByUserId`; `limit` and `offset` are ignored |
| AttendanceServices.AttendanceService.GetTodayAttendance | src/service/attendanceService.ts:75-77 | exactly the store's `findTodayByUserId` |
| AttendanceServices.AttendanceService.GetAttendanceByDateRange | src/service/attendanceService.ts:80-86 | exactly the store's `findByDateRange` |
| AttendanceServices.AttendanceService.GetStatistics | src/service/attendanceService.ts:89-102 | exactly the store's `getStatistics` |
| AttendanceServices.AttendanceService.GetAllAttendance | src/service/attendanceService.ts:105-107 | exactly the store's `findAll` |
| UserModel.WithoutPassword | src/controller/userController.ts:37-38 | every column but `password` is kept |
| UserModel.WithoutPasswordHidesPassword | src/controller/userController.ts:37-38 | the public view does not depend on the password |
| UserModel.StoredUser | src/model/User.ts:27-37 | the inserted row, with the role defaulting to `user` |
| UserModel.FindByUsername | src/model/User.ts:41-44 | a row with the username, or null exactly when none has it |
| UserModel.FindById | src/model/User.ts:47-50 | the row with the id, or null exactly when none has it |
| UserModel.FindByEmail | src/model/User.ts:91-97 | a row with that email, or null exactly when none has it; a null email never matches |
| UserModel.FindByIdKeyed | src/model/User.ts:47-50 | over a keyed table the lookup by a row's id finds that row |
| UserModel.SetListMeansPatch | src/model/User.ts:63-67 | applying the pushed SET list writes exactly the given fields among the five |
| UserModel.SetListEmpty | src/model/User.ts:68 | the SET list is empty exactly when no field is given |
| UserModel.SetWhereIdIsUpdate | src/model/User.ts:72-73 | the UPDATE statement equals the partial update of the row with that id |
| UserModel.CountId | src/model/User.ts:75 | `affectedRows` is 0 exactly when no row carries the id |
| UserModel.UpdatedRowsKeepIds | src/model/User.ts:72-73 | an update never changes a key and keeps keys unique |
| UserModel.UpdatedRows | src/model/User.ts:59-79 | same length and ids; the row with the id gets the given fields written, every other row is unchanged |
| UserModel.UpdateResult | src/model/User.ts:59-79 | null iff no field is given or no row has the id; otherwise a row of the table with that id and the given fields written |
| UserModel.UpdateFindsPatchedRow | src/model/User.ts:75-78 | when the id is found, the row read back after the update is the patched row of the table |
| UserModel.UpdateResultIsPatchedRow | src/model/User.ts:59-79 | over a keyed table `update` returns null without fields, else the row with the given fields written; every other row is unchanged |
| UserModel.UpdateMissingId | src/model/User.ts:75-76 | on an unknown id `update` returns null and changes no row |
| UserModel.DeletedRows | src/model/User.ts:82-88 | exactly the rows without that id remain, and the table shrinks iff a row had it |
| UserModel.DeletedKeepsKeys | src/model/User.ts:82-88 | deleting keeps the key unique |
| UserModel.UserStore.Create | src/model/User.ts:27-38 | appends the row with the default role under a fresh id and returns the row re-read by that id |
| UserModel.UserStore.FindAll | src/model/User.ts:53-56 | every row of the table |
| UserModel.UserStore.BuildSetList | src/model/User.ts:60-67 | the pushes build the SET list, which is empty iff no field is given |
| UserModel.UserStore.Update | src/model/User.ts:59-79 | no write without fields; otherwise the table is partially updated at that id; returns the re-read row, or null |
| UserModel.UserStore.Delete | src/model/User.ts:82-88 | true iff a row had the id; only that row is removed |
| AuthService.LoginUser | src/service/authService.ts:32-52 | success iff the username is known and the password hashes to the stored hash; on success the public view of that user, else one fixed message |
| AuthService.LoginFailuresIndistinguishable | src/service/authService.ts:34-41 | an unknown username and a wrong password give identical answers |
| AuthService.RegistrationError | src/service/authService.ts:69-99 | the first failing check in order (taken name first, then password length, then a non-empty email without `@`, then a non-empty full name shorter than 3), none iff all pass; in particular a bad email is reported with its message before a short full name |
| AuthService.RegisteredUser | src/service/authService.ts:101-108 | the stored row holds `hash(password)`, never the plaintext, and the default role |
| AuthService.RegisterThenLogin | src/service/authService.ts:62-118 | whoever registers can then log in with the same name and password |
| AuthService.RegisterUser | src/service/authService.ts:62-119 | a failing check rejects with its message and creates nothing; otherwise exactly the registered row is appended and its public view returned |
| AuthService.CreateUser | src/service/authService.ts:129-142 | appends the row with the hashed password without any check |
| UserServices.UsernameRejected | src/service/userService.ts:16-18 | only a given, non-empty username shorter than 3 UTF-16 units is refused; an absent or empty one passes |
| UserServices.UserService.GetAllUsers | src/service/userService.ts:6-8 | the store's rows |
| UserServices.UserService.GetUserById | src/service/userService.ts:10-12 | the store's `findById` |
| UserServices.UserService.UpdateUser | src/service/userService.ts:14-21 | a refused username throws and leaves the table as it was; otherwise exactly the store's `update` |
| UserServices.UserService.DeleteUser | src/service/userService.ts:23-25 | the store's `delete` |
| UserServices.UserService.GetUserByEmail | src/service/userService.ts:27-29 | the store's `findByEmail` |
| UserController.HidePasswords | src/controller/userController.ts:11 | each user in order, without its password |
| UserController.GetAllUsers | src/controller/userController.ts:7-16 | 200 with every user, in order, without passwords |
| UserController.GetUserById | src/controller/userController.ts:18-42 | 403 iff a plain user asks for another id (no user is not refused); 404 iff not refused and the id is unknown; else 200 with the user without password |
| UserController.OwnProfileVisible | src/controller/userController.ts:24-28 | anyone sees their own existing profile, and admins and managers see anyone's |
| UserController.RoleGuarded | src/controller/userController.ts:59-61 | for a non-admin the role field is dropped from the update, for an admin the body is unchanged |
| UserController.NonAdminKeepsRoles | src/controller/userController.ts:59-61 | whatever a non-admin sends, every stored role stays as it was |
| UserController.UpdateUser | src/controller/userController.ts:44-75 | 401 without a user and 403 for another id unless admin, both without writing; a refused username gives 500; otherwise the guarded update runs, and the result is 404 for null or 200 without password |
| UserController.DeleteUser | src/controller/userController.ts:77-90 | only the row with the id is removed; 200 with the confirmation iff it existed, else 404 |
| AttendanceController.ErrorMessagesNonEmpty | src/controller/attendanceController.ts:22-27 | every service error has a non-empty message, so the fallback message is never used |
| AttendanceController.StepResponse | src/controller/attendanceController.ts:17-27 | success gives 200 with the message and the record; an error gives 400 with the error's message |
| AttendanceController.CheckIn | src/controller/attendanceController.ts:8-28 | 401 without a user and nothing written; otherwise the check-in step, answered as above |
| AttendanceController.CheckOut | src/controller/attendanceController.ts:31-51 | 401 without a user and nothing written; otherwise the check-out step, answered as above |
| AttendanceController.SecondCheckInIs400 | src/controller/attendanceController.ts:22-27 | checking in twice on a day answers 400 with the "already checked in" message |
| AttendanceController.GetTodayAttendance | src/controller/attendanceController.ts:54-72 | 401 without a user, else 200 with today's record or null |
| AttendanceController.GetUserAttendanceHistory | src/controller/attendanceController.ts:75-97 | 401 without a user, else 200 with the user's full history, most recent first |
| AttendanceController.HistoryIgnoresPaging | src/controller/attendanceController.ts:82-85 | the history answer does not depend on `limit` or `offset` |
| AttendanceController.StatisticsWindow | src/controller/attendanceController.ts:111-117 | each date defaults on its own: the end to today, the start to 30 days before today |
| AttendanceController.GetStatistics | src/controller/attendanceController.ts:100-133 | 401 without a user, 403 for any non-admin, otherwise 200 with the statistics of the defaulted window and the optional user |
| AttendanceController.StatisticsDefaultWindow | src/controller/attendanceController.ts:111-119 | without dates an admin gets the statistics of the last 30 days up to today |
| AttendanceController.GetAllAttendance | src/controller/attendanceController.ts:136-176 | 401 without a user, 403 for any non-admin; otherwise the range query (with the user) when both dates are given, else `findAll` with limit 100 and offset 0 by default |
| AttendanceController.AllAttendanceIgnoresUserWithoutRange | src/controller/attendanceController.ts:159-164 | without both dates the `userId` filter has no effect |
| AttendanceController.AllAttendanceDefaultPage | src/controller/attendanceController.ts:156-164 | without a limit an admin gets at most 100 records |
| Authorization.Authorize | src/middleware/authorize.ts:10-24 | 401 without a user; `next` exactly when the role is allowed; 403 otherwise |
| Authorization.RequireAdmin | src/middleware/authorize.ts:29 | admits exactly administrators |
| Authorization.RequireAdminOrManager | src/middleware/authorize.ts:34 | admits exactly administrators and managers, rejects plain users |
| Authorization.AuthorizeMonotone | src/middleware/authorize.ts:16-22 | allowing more roles never turns an admitted request away |
| Authorization.AdminGateNested | src/middleware/authorize.ts:29-34 | whoever passes the admin gate passes the admin-or-manager gate |
| ErrorHandling.HandleError | src/middleware/errorHandler.ts:18-38 | 400 iff the name is `ValidationError` (its message or the default); else 401 iff the name is `UnauthorizedError` or the message contains `unauthorized`; else 500 |
| ErrorHandling.ValidationTakesPrecedence | src/middleware/errorHandler.ts:18-25 | a validation error mentioning `unauthorized` is still a 400 |
| ErrorHandling.UnauthorizedIsCaseSensitive | src/middleware/errorHandler.ts:25 | for any error that is neither a validation nor an unauthorized error, a message containing `Unauthorized` but not `unauthorized` gives 500, not 401 |
| ErrorHandling.CapitalisedUnauthorized | src/middleware/errorHandler.ts:25 | the message `Unauthorized` meets that condition, so the case is reachable |
| ErrorHandling.ProductionHidesMessages | src/middleware/errorHandler.ts:33-38 | in production a 500 carries the fixed system-error text whatever the message |
| Connection.NatToStringValue | src/config/connection.ts:78 | the numeral of `$k` reads back as `k` |
| Connection.Rewrite | src/config/connection.ts:77-78 | no `?` is left in the rewritten query |
| Connection.RewriteNumbersPieces | src/config/connection.ts:77-78 | every character but `?` is kept in order, and the pieces between the `?`s are joined by `$k`, `$(k+1)`, ... consecutively |
| Connection.RewriteWithoutPlaceholders | src/config/connection.ts:78 | text without `?` is unchanged |
| Connection.ConvertPlaceholders | src/config/connection.ts:72-79 | absent or empty params leave the SQL unchanged; otherwise the rewrite numbering from 1, with no `?` left |
| Connection.InsertId | src/config/connection.ts:94-120 | an id only for INSERT; with RETURNING the first returned row's `id` (none without rows), otherwise `lastval()` |
| Connection.BuildHeader | src/config/connection.ts:88-120 | `affectedRows` and `rowCount` both equal the driver count, or 0; `insertId` as above |
| InitPostgres.AlreadyInitialised | src/utils/initPostgres.ts:16-22 | schema creation is skipped iff both `users` and `attendance` are listed |
| InitPostgres.FindSchemaPath | src/utils/initPostgres.ts:35-41 | the first existing candidate in list order, or none iff no candidate exists |
| InitPostgres.CutLineComment | src/utils/initPostgres.ts:56-60 | the line up to its first `--`, with no `--` left; a line without `--` is unchanged |
| InitPostgres.CutLines | src/utils/initPostgres.ts:52-61 | each line cut on its own, the count kept |
| InitPostgres.StripLineComments | src/utils/initPostgres.ts:52-62 | no `--` is left in the text after line comments are cut |
| InitPostgres.JoinWithoutDashes | src/utils/initPostgres.ts:62 | joining lines free of `--` with a newline creates no `--` |
| InitPostgres.StripLineCommentsByLine | src/utils/initPostgres.ts:52-62 | line stripping keeps the number of lines and cuts line i at its first `--` |
| InitPostgres.StripLineCommentsNoDashes | src/utils/initPostgres.ts:52-62 | text without `--` is unchanged by line stripping |
| InitPostgres.StripBlockComments | src/utils/initPostgres.ts:63 | the text never grows |
| InitPostgres.StripBlockCommentsNoOpeners | src/utils/initPostgres.ts:63 | text without `/*` is unchanged |
| InitPostgres.StripBlockCommentsUnclosed | src/utils/initPostgres.ts:63 | text with no `*/` anywhere is left as it is, so every `/*` in it stays |
| InitPostgres.NearestCloserEndsComment | src/utils/initPostgres.ts:63 | a leading comment ends at the nearest `*/`, not a later one |
| InitPostgres.CleanedSql | src/utils/initPostgres.ts:52-63 | the cleaned script is no longer than the line-stripped one, and a script with neither `--` nor `/*` is sent exactly as read |
| InitPostgres.CleanedSqlWithoutComments | src/utils/initPostgres.ts:52-63 | a script with neither `--` nor `/*` is sent exactly as read |
| InitPostgres.InitializePostgres | src/utils/initPostgres.ts:12-67 | skipped iff both tables exist; with no schema file the error; otherwise the cleaned script of the first existing path |
| InitSqlite.Statements | src/utils/initSQLite.ts:24-27 | exactly the trimmed `;`-pieces that are statements (non-empty, not starting with `--` or `SELECT`) |
| InitSqlite.StatementsAreClean | src/utils/initSQLite.ts:24-27 | each statement is non-empty, trimmed, free of `;`, and starts neither with `--` nor with `SELECT` in any letter case |
| InitSqlite.SinglePiece | src/utils/initSQLite.ts:24-27 | text without `;` gives its trimmed self, or nothing |
| InitSqlite.StatementsConcat | src/utils/initSQLite.ts:24-27 | statements keep source order: those of `a;b` are those of `a` followed by those of `b` |
| InitSqlite.Preview | src/utils/initSQLite.ts:37 | the warning shows a prefix of the statement, of 50 characters or the whole statement when shorter |
| InitSqlite.WarningsReportFailures | src/utils/initSQLite.ts:30-41 | at most one warning per statement, each naming a failed statement that is not tolerated, with its first 50 characters and its message |
| InitSqlite.NoWarningsIff | src/utils/initSQLite.ts:36-37 | no warning iff every failure mentions `already exists` or `duplicate` |
| InitSqlite.AllStatementsRun | src/utils/initSQLite.ts:30-31 | the non-blank test inside the loop skips no extracted statement |
| InitSqlite.RunStatements | src/utils/initSQLite.ts:30-41 | every non-blank statement runs in order, a failure does not stop the loop, and the warnings are those above |
| InitSqlite.InitializeSqlite | src/utils/initSQLite.ts:13-41 | no schema file runs nothing; otherwise every extracted statement runs in order, with the warnings above |

## Left out

- Storage and driver failures: a database that throws is not modelled. This leaves out:
  - the catch branches of `checkIn` and `checkOut` (src/controller/attendanceController.ts:22-26, 45-49) for store errors; they answer 400 with the error's message, and the model gives that answer for the errors the service throws;
  - the catch branches of the attendance getters (src/controller/attendanceController.ts:66-70, 91-95, 127-131, 170-174), which answer 500 with the error's message or a fixed fallback;
  - the catch branches of src/controller/userController.ts, which answer 500 with the generic message "Lỗi server";
  - the generic messages of `loginUser` and `registerUser` (src/service/authService.ts:53-59, 120-126);
  - the errors of `initializePostgresDatabase` and `initializeSQLiteDatabase` after a failed connection.
- The `pg` pool, the connection configuration and src/config/sqliteConnection.ts. The stores work on in-memory tables instead.
- JWT signing and verification (src/middleware/auth.ts, src/controller/authController.ts). Handlers receive the authenticated user as an input.
- The HMAC of src/utils/hashPassword.ts, which is the uninterpreted parameter `hash`.
- Express wiring (src/server.ts, src/routes/*.ts).
- Console logging, including the SQLite warning itself. The warnings are returned as values.
- The check-then-insert race between concurrent check-ins. Concurrency is out of scope, so the one-record-per-day invariant is proved for sequential calls only.
- Uniqueness constraints of the database schema files. Those files are not part of this model.
- AttendanceServices.HoursHundredths: floating point is not modelled. This is exact integer rounding. It can differ from `Math.round` on a float product only at exact half-hundredths that the float computation rounds the other way.
- AttendanceModel.Tally: `averageHours` is an exact rational. PostgreSQL's numeric average and its JSON float are not modelled.
- Time zones: `today` is built from local date parts in the service, but the store looks it up through a UTC date. The model uses one abstract day number for both.
- AttendanceController.StatisticsWindow: the time of day of `new Date()` is not modelled; the window is in whole days.
- Parsing of ids, dates and query strings (`parseInt`, `new Date(...)`, `Number(...)`): inputs arrive parsed. A `NaN` id or an invalid date is not modelled.
- Connection.InsertId: the returned row's `id` arrives as an optional integer. Its `parseInt` parsing is not modelled. A failing `lastval()` query is modelled as no id.
- Text.ToUpper: only ASCII letters are upper-cased, since Unicode case mapping is not modelled. This affects only the `INSERT`, `RETURNING` and `SELECT` tests.
- InitSqlite.Preview: `substring(0, 50)` counts UTF-16 units; the model counts characters.
- Fields outside the model: the `createdAt`/`updatedAt` columns, and JSON `null` written to a non-nullable column through an update body.
- Roles are the three values of the enum. `data.role || UserRole.USER` on a role read back from the table is therefore the identity in the model; an empty stored role, which the falsy-role update below can write, is not modelled.
- UserController.RoleGuarded: src/controller/userController.ts:59 deletes `req.body.role` only when it is truthy, so a falsy role (`""`, `0`, `false`) sent by a non-admin is kept and written by src/model/User.ts:67. A `Patch<UserRole>` cannot carry such a value, so the model drops every role a non-admin sends.
- UserController.NonAdminKeepsRoles: holds only for role values of the enum; a non-admin's falsy role (`""`, `0`, `false`) would overwrite the stored role, which the model does not represent.
- A too-short username in `updateUser` throws inside the service and surfaces from the controller as a 500 with the generic server message. That is what the code does, and the model keeps it.

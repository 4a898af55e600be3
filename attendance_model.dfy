/**
 * The attendance record store (src/model/Attendance.ts) as an in-memory table.
 *
 * Each SQL statement of the store becomes an operation over the table's rows:
 * INSERT ... RETURNING, the SELECTs (by key, ordered, date window, LIMIT/OFFSET),
 * the partial UPDATE, DELETE and the aggregate statistics query. Work dates are
 * day numbers, timestamps are milliseconds, and `totalHours` is kept in
 * integer hundredths of an hour.
 */
module AttendanceModel {
  import opened Wrappers
  import opened Text
  import opened Tables

  datatype AttendanceStatus = CheckedIn | CheckedOut | Absent

  /** One row of the `attendance` table. */
  datatype Attendance = Attendance(
    id: int,
    userId: int,
    checkInTime: int,
    checkOutTime: Option<int>,
    workDate: int,
    totalHours: Option<int>,
    status: AttendanceStatus,
    notes: Option<string>)

  /** `AttendanceCreationAttributes`: `None` stands for an absent or null field. */
  datatype CreationAttributes = CreationAttributes(
    userId: int,
    checkInTime: int,
    checkOutTime: Option<int>,
    workDate: int,
    totalHours: Option<int>,
    status: Option<AttendanceStatus>,
    notes: Option<string>)

  /** `AttendanceUpdateAttributes`: each field is left alone (`Keep`) or written (`Put`). */
  datatype UpdateAttributes = UpdateAttributes(
    checkOutTime: Patch<Option<int>>,
    totalHours: Patch<Option<int>>,
    status: Patch<AttendanceStatus>,
    notes: Patch<Option<string>>)

  /** One `column = ?` entry of the SET list that `update` accumulates. */
  datatype Assignment =
    | SetCheckOutTime(checkOutTime: Option<int>)
    | SetTotalHours(totalHours: Option<int>)
    | SetStatus(status: AttendanceStatus)
    | SetNotes(notes: Option<string>)

  /** The result row of the statistics query. `averageHours` is exact (a rational). */
  datatype Statistics = Statistics(
    totalRecords: nat,
    totalHours: int,
    averageHours: real,
    checkedInCount: nat,
    checkedOutCount: nat,
    absentCount: nat)

  // ---------------------------------------------------------------------------
  // Table invariants

  /** `id` is the table's key. */
  ghost predicate UniqueIds(rows: seq<Attendance>) {
    forall i, j :: 0 <= i < j < |rows| ==> rows[i].id != rows[j].id
  }

  /** At most one row per (user, work date): the service's invariant, not the table's. */
  ghost predicate OnePerUserDay(rows: seq<Attendance>) {
    forall i, j :: 0 <= i < j < |rows| ==>
      rows[i].userId != rows[j].userId || rows[i].workDate != rows[j].workDate
  }

  // ---------------------------------------------------------------------------
  // Filtering and ordering

  /** `a` may come before `b` under `ORDER BY "workDate" DESC, "checkInTime" DESC`. */
  predicate Precedes(a: Attendance, b: Attendance) {
    a.workDate > b.workDate || (a.workDate == b.workDate && a.checkInTime >= b.checkInTime)
  }

  ghost predicate Ordered(s: seq<Attendance>) {
    forall i, j :: 0 <= i < j < |s| ==> Precedes(s[i], s[j])
  }

  /** Places `x` after every row that may precede it, keeping earlier table rows first among ties. */
  function Insert(x: Attendance, s: seq<Attendance>): (r: seq<Attendance>)
    ensures multiset(r) == multiset(s) + multiset{x}
  {
    if s == [] then [x]
    else
      assert s == [s[0]] + s[1..];
      if Precedes(s[0], x) then [s[0]] + Insert(x, s[1..]) else [x] + s
  }

  /** Every row of `s` may follow `a`. */
  ghost predicate Leads(a: Attendance, s: seq<Attendance>) {
    forall y :: y in s ==> Precedes(a, y)
  }

  lemma LeadsInsert(a: Attendance, x: Attendance, s: seq<Attendance>)
    requires Leads(a, s) && Precedes(a, x)
    ensures Leads(a, Insert(x, s))
  {
    forall y | y in Insert(x, s) ensures Precedes(a, y) {
      assert y in multiset(Insert(x, s));
      if y != x { assert y in multiset(s); }
    }
  }

  lemma OrderedCons(a: Attendance, s: seq<Attendance>)
    requires Ordered(s) && Leads(a, s)
    ensures Ordered([a] + s)
  {
    forall i, j | 0 <= i < j < |[a] + s| ensures Precedes(([a] + s)[i], ([a] + s)[j]) {
      if i > 0 {
        assert ([a] + s)[i] == s[i - 1] && ([a] + s)[j] == s[j - 1];
      } else {
        assert ([a] + s)[j] == s[j - 1];
        assert s[j - 1] in s;
      }
    }
  }

  /** Inserting into an ordered sequence keeps it ordered. */
  lemma {:induction false} InsertOrdered(x: Attendance, s: seq<Attendance>)
    requires Ordered(s)
    ensures Ordered(Insert(x, s))
  {
    if s == [] {
    } else if Precedes(s[0], x) {
      InsertOrdered(x, s[1..]);
      assert Leads(s[0], s[1..]) by {
        forall y | y in s[1..] ensures Precedes(s[0], y) {
          var k :| 0 <= k < |s[1..]| && s[1..][k] == y;
          assert s[k + 1] == y;
        }
      }
      LeadsInsert(s[0], x, s[1..]);
      OrderedCons(s[0], Insert(x, s[1..]));
    } else {
      assert Leads(x, s) by {
        forall y | y in s ensures Precedes(x, y) {
          var k :| 0 <= k < |s| && s[k] == y;
          assert k == 0 || Precedes(s[0], s[k]);
        }
      }
      OrderedCons(x, s);
    }
  }

  /** The ORDER BY clause: a stable sort of the rows, most recent first. */
  function SortRecent(s: seq<Attendance>): (r: seq<Attendance>)
    ensures multiset(r) == multiset(s) && |r| == |s|
    ensures Ordered(r)
  {
    if s == [] then []
    else
      var n := |s| - 1;
      assert s == s[..n] + [s[n]];
      var sorted := SortRecent(s[..n]);
      InsertOrdered(s[n], sorted);
      var r := Insert(s[n], sorted);
      assert |r| == |multiset(r)|;
      r
  }

  /** `LIMIT`/`OFFSET`: OFFSET only counts when a LIMIT is given. */
  function Page(s: seq<Attendance>, limit: Option<nat>, offset: Option<nat>): (r: seq<Attendance>)
    ensures limit.None? ==> r == s
    ensures limit.Some? ==>
      var skip := offset.GetOr(0);
      |r| == (if skip >= |s| then 0 else if skip + limit.value > |s| then |s| - skip else limit.value)
      && (forall i :: 0 <= i < |r| ==> r[i] == s[skip + i])
      && (skip < |s| ==> r == s[skip..skip + |r|])
  {
    if limit.None? then s
    else
      var skip := offset.GetOr(0);
      var from := if skip >= |s| then |s| else skip;
      var upto := if skip + limit.value >= |s| then |s| else skip + limit.value;
      s[from..upto]
  }

  // ---------------------------------------------------------------------------
  // The SELECT statements

  /** `SELECT * FROM attendance WHERE id = ?`. */
  function FindById(rows: seq<Attendance>, id: int): (r: Option<Attendance>)
    ensures r.Some? ==> r.value in rows && r.value.id == id
    ensures r.None? <==> forall x :: x in rows ==> x.id != id
  {
    First(rows, (x: Attendance) => x.id == id)
  }

  /** `WHERE "userId" = ?`, in table order. */
  function OfUser(rows: seq<Attendance>, userId: int): (r: seq<Attendance>)
    ensures forall x :: x in r <==> x in rows && x.userId == userId
  {
    Where(rows, (x: Attendance) => x.userId == userId)
  }

  /** A user's rows, most recent first. */
  function FindByUserId(rows: seq<Attendance>, userId: int): (r: seq<Attendance>)
    ensures Ordered(r)
    ensures forall x :: x in r <==> x in rows && x.userId == userId
    ensures multiset(r) == multiset(OfUser(rows, userId))
  {
    var w := OfUser(rows, userId);
    var r := SortRecent(w);
    assert forall x :: x in r <==> x in multiset(w);
    r
  }

  /** The user's row for one work date (the first one, in table order), or null. */
  function FindByUserIdAndDate(rows: seq<Attendance>, userId: int, workDate: int): (r: Option<Attendance>)
    ensures r.Some? ==> r.value in rows && r.value.userId == userId && r.value.workDate == workDate
    ensures r.None? <==> forall x :: x in rows ==> x.userId != userId || x.workDate != workDate
  {
    First(rows, (x: Attendance) => x.userId == userId && x.workDate == workDate)
  }

  /** The user's row for `today`, the calendar day the clock reads. */
  function FindTodayByUserId(rows: seq<Attendance>, userId: int, today: int): (r: Option<Attendance>)
    ensures r.Some? ==> r.value in rows && r.value.userId == userId && r.value.workDate == today
    ensures r.None? <==> forall x :: x in rows ==> x.userId != userId || x.workDate != today
  {
    FindByUserIdAndDate(rows, userId, today)
  }

  /** Every row, most recent first, paged when a limit is given. */
  function FindAll(rows: seq<Attendance>, limit: Option<nat>, offset: Option<nat>): (r: seq<Attendance>)
    ensures Ordered(r)
    ensures limit.None? ==> multiset(r) == multiset(rows) && r == SortRecent(rows)
    ensures limit.Some? ==> |r| <= limit.value
    ensures limit.Some? ==>
      var skip := offset.GetOr(0);
      && |r| == (if skip >= |rows| then 0 else if skip + limit.value > |rows| then |rows| - skip else limit.value)
      && (skip < |rows| ==> r == SortRecent(rows)[skip..skip + |r|])
    ensures forall x :: x in r ==> x in rows
  {
    var sorted := SortRecent(rows);
    PageOfOrdered(sorted, limit, offset);
    assert forall x :: x in sorted ==> x in multiset(rows);
    Page(sorted, limit, offset)
  }

  /** A page of an ordered sequence is ordered and holds only its rows. */
  lemma PageOfOrdered(s: seq<Attendance>, limit: Option<nat>, offset: Option<nat>)
    requires Ordered(s)
    ensures Ordered(Page(s, limit, offset))
    ensures forall x :: x in Page(s, limit, offset) ==> x in s
  {
    var r := Page(s, limit, offset);
    if limit.Some? {
      var skip := offset.GetOr(0);
      forall i, j | 0 <= i < j < |r| ensures Precedes(r[i], r[j]) {
        assert r[i] == s[skip + i] && r[j] == s[skip + j];
      }
      forall x | x in r ensures x in s {
        var i :| 0 <= i < |r| && r[i] == x;
        assert s[skip + i] == x;
      }
    }
  }

  /** The row lies in the inclusive window `[start, end]`, and belongs to `userId` when one is given. */
  predicate InWindow(x: Attendance, start: int, end: int, userId: Option<int>) {
    start <= x.workDate <= end && (userId.Some? ==> x.userId == userId.value)
  }

  /** `WHERE "workDate" >= ? AND "workDate" <= ? [AND "userId" = ?]`, in table order. */
  function Window(rows: seq<Attendance>, start: int, end: int, userId: Option<int>): (r: seq<Attendance>)
    ensures forall x :: x in r <==> x in rows && InWindow(x, start, end, userId)
  {
    Where(rows, (x: Attendance) => InWindow(x, start, end, userId))
  }

  /** Rows whose work date lies in `[start, end]` (and of `userId` when given), most recent first. */
  function FindByDateRange(rows: seq<Attendance>, start: int, end: int, userId: Option<int>): (r: seq<Attendance>)
    ensures Ordered(r)
    ensures forall x :: x in r <==>
      x in rows && start <= x.workDate <= end && (userId.Some? ==> x.userId == userId.value)
    ensures multiset(r) == multiset(Window(rows, start, end, userId))
  {
    var w := Window(rows, start, end, userId);
    var r := SortRecent(w);
    assert forall x :: x in r <==> x in multiset(w);
    r
  }

  // ---------------------------------------------------------------------------
  // The aggregate statistics query

  /** `SUM("totalHours")` with nulls skipped (0 over no rows, after COALESCE). */
  function SumHours(rows: seq<Attendance>): int {
    if rows == [] then 0 else rows[0].totalHours.GetOr(0) + SumHours(rows[1..])
  }

  /** The number of non-null `totalHours`: the divisor of SQL's AVG. */
  function ReportedHours(rows: seq<Attendance>): nat {
    if rows == [] then 0 else (if rows[0].totalHours.Some? then 1 else 0) + ReportedHours(rows[1..])
  }

  /** `SUM(CASE WHEN status = st THEN 1 ELSE 0 END)`. */
  function CountStatus(rows: seq<Attendance>, st: AttendanceStatus): nat {
    if rows == [] then 0 else (if rows[0].status == st then 1 else 0) + CountStatus(rows[1..], st)
  }

  /** The status column of the selected rows. */
  function Statuses(rows: seq<Attendance>): (r: seq<AttendanceStatus>)
    ensures |r| == |rows| && forall i :: 0 <= i < |rows| ==> r[i] == rows[i].status
  {
    seq(|rows|, i requires 0 <= i < |rows| => rows[i].status)
  }

  /** The conditional sum counts exactly the rows that have the status. */
  lemma {:induction false} CountStatusIsMultiplicity(rows: seq<Attendance>, st: AttendanceStatus)
    ensures CountStatus(rows, st) == multiset(Statuses(rows))[st]
  {
    if rows != [] {
      CountStatusIsMultiplicity(rows[1..], st);
      assert Statuses(rows) == [rows[0].status] + Statuses(rows[1..]);
    }
  }

  /** Every row has exactly one of the three statuses. */
  lemma {:induction false} StatusCountsPartition(rows: seq<Attendance>)
    ensures CountStatus(rows, CheckedIn) + CountStatus(rows, CheckedOut) + CountStatus(rows, Absent) == |rows|
  {
    if rows != [] {
      StatusCountsPartition(rows[1..]);
    }
  }

  /** Each status count is the number of rows with that status, and together they count every row. */
  lemma StatusCounts(rows: seq<Attendance>)
    ensures CountStatus(rows, CheckedIn) == multiset(Statuses(rows))[CheckedIn]
    ensures CountStatus(rows, CheckedOut) == multiset(Statuses(rows))[CheckedOut]
    ensures CountStatus(rows, Absent) == multiset(Statuses(rows))[Absent]
    ensures CountStatus(rows, CheckedIn) + CountStatus(rows, CheckedOut) + CountStatus(rows, Absent) == |rows|
  {
    StatusCountsPartition(rows);
    CountStatusIsMultiplicity(rows, CheckedIn);
    CountStatusIsMultiplicity(rows, CheckedOut);
    CountStatusIsMultiplicity(rows, Absent);
  }

  /** With no reported hours, the sum of hours is zero. */
  lemma {:induction false} NoReportedHoursSumZero(rows: seq<Attendance>)
    ensures ReportedHours(rows) == 0 ==> SumHours(rows) == 0
  {
    if rows != [] {
      NoReportedHoursSumZero(rows[1..]);
    }
  }

  /** The six aggregates over the selected rows. */
  function Tally(w: seq<Attendance>): (r: Statistics)
    ensures r.totalRecords == |w|
    ensures r.checkedInCount + r.checkedOutCount + r.absentCount == r.totalRecords
    ensures r.checkedInCount == multiset(Statuses(w))[CheckedIn]
    ensures r.checkedOutCount == multiset(Statuses(w))[CheckedOut]
    ensures r.absentCount == multiset(Statuses(w))[Absent]
    ensures r.totalHours == SumHours(w)
    ensures ReportedHours(w) == 0 ==> r.totalHours == 0 && r.averageHours == 0.0
    ensures ReportedHours(w) > 0 ==> r.averageHours * ReportedHours(w) as real == r.totalHours as real
  {
    StatusCounts(w);
    NoReportedHoursSumZero(w);
    var n := ReportedHours(w);
    Statistics(
      |w|,
      SumHours(w),
      if n == 0 then 0.0 else SumHours(w) as real / n as real,
      CountStatus(w, CheckedIn),
      CountStatus(w, CheckedOut),
      CountStatus(w, Absent))
  }

  /** The statistics query over the inclusive window `[start, end]`, scoped to `userId` when given. */
  function GetStatistics(rows: seq<Attendance>, start: int, end: int, userId: Option<int>): (r: Statistics)
    ensures r.totalRecords == |FindByDateRange(rows, start, end, userId)|
    ensures r == Tally(Window(rows, start, end, userId))
  {
    var w := Window(rows, start, end, userId);
    assert |FindByDateRange(rows, start, end, userId)| == |multiset(w)|;
    Tally(w)
  }

  // ---------------------------------------------------------------------------
  // INSERT and UPDATE semantics

  /** The row INSERT ... RETURNING gives back for `data` under the fresh key `id`. */
  function StoredRow(id: int, data: CreationAttributes): (r: Attendance)
    ensures r.id == id && r.userId == data.userId
    ensures r.checkInTime == data.checkInTime && r.workDate == data.workDate
    ensures r.checkOutTime == data.checkOutTime
    ensures r.status == (if data.status.Some? then data.status.value else CheckedIn)
    ensures r.totalHours.Some? <==> data.totalHours.Some? && data.totalHours.value != 0
    ensures r.totalHours.Some? ==> r.totalHours == data.totalHours
    ensures r.notes.Some? <==> data.notes.Some? && data.notes.value != ""
    ensures r.notes.Some? ==> r.notes == data.notes
  {
    Attendance(
      id,
      data.userId,
      data.checkInTime,
      data.checkOutTime,
      data.workDate,
      if data.totalHours == Some(0) then None else data.totalHours,
      data.status.GetOr(CheckedIn),
      OrNull(data.notes))
  }

  /** The SET list `update` accumulates, in push order. */
  function SetList(data: UpdateAttributes): seq<Assignment> {
    (if data.checkOutTime.Put? then [SetCheckOutTime(data.checkOutTime.value)] else [])
    + (if data.totalHours.Put? then [SetTotalHours(data.totalHours.value)] else [])
    + (if data.status.Put? then [SetStatus(data.status.value)] else [])
    + (if data.notes.Put? then [SetNotes(data.notes.value)] else [])
  }

  /** The update names no field at all. */
  predicate NoChange(data: UpdateAttributes) {
    data.checkOutTime.Keep? && data.totalHours.Keep? && data.status.Keep? && data.notes.Keep?
  }

  /** One `column = value` of a SET list applied to a row. */
  function Assign(x: Attendance, a: Assignment): Attendance {
    match a
    case SetCheckOutTime(t) => x.(checkOutTime := t)
    case SetTotalHours(h) => x.(totalHours := h)
    case SetStatus(st) => x.(status := st)
    case SetNotes(n) => x.(notes := n)
  }

  /** A whole SET list applied to a row, left to right. */
  function Apply(x: Attendance, fields: seq<Assignment>): Attendance
    decreases |fields|
  {
    if fields == [] then x else Apply(Assign(x, fields[0]), fields[1..])
  }

  /** The reference meaning of a partial update: each given field is written, the rest kept. */
  function Patched(x: Attendance, data: UpdateAttributes): Attendance {
    x.(checkOutTime := data.checkOutTime.Over(x.checkOutTime),
       totalHours := data.totalHours.Over(x.totalHours),
       status := data.status.Over(x.status),
       notes := data.notes.Over(x.notes))
  }

  lemma {:induction false} ApplyConcat(x: Attendance, a: seq<Assignment>, b: seq<Assignment>)
    ensures Apply(x, a + b) == Apply(Apply(x, a), b)
    decreases |a|
  {
    if a == [] {
      assert a + b == b;
    } else {
      assert (a + b)[1..] == a[1..] + b;
      ApplyConcat(Assign(x, a[0]), a[1..], b);
    }
  }

  /** The SET list built field by field means exactly the partial update. */
  lemma SetListMeansPatch(x: Attendance, data: UpdateAttributes)
    ensures Apply(x, SetList(data)) == Patched(x, data)
  {
    var c := if data.checkOutTime.Put? then [SetCheckOutTime(data.checkOutTime.value)] else [];
    var h := if data.totalHours.Put? then [SetTotalHours(data.totalHours.value)] else [];
    var s := if data.status.Put? then [SetStatus(data.status.value)] else [];
    var n := if data.notes.Put? then [SetNotes(data.notes.value)] else [];
    ApplyConcat(x, c + h + s, n);
    ApplyConcat(x, c + h, s);
    ApplyConcat(x, c, h);
  }

  /** The SET list is empty exactly when no field is given. */
  lemma SetListEmpty(data: UpdateAttributes)
    ensures SetList(data) == [] <==> NoChange(data)
  {
  }

  /** The engine's UPDATE: the SET list applied to every row with the id. */
  function SetWhereId(rows: seq<Attendance>, id: int, fields: seq<Assignment>): (r: seq<Attendance>)
    ensures |r| == |rows|
  {
    seq(|rows|, i requires 0 <= i < |rows| => if rows[i].id == id then Apply(rows[i], fields) else rows[i])
  }

  lemma SetWhereIdIsUpdate(rows: seq<Attendance>, id: int, data: UpdateAttributes)
    ensures SetWhereId(rows, id, SetList(data)) == UpdatedRows(rows, id, data)
  {
    forall i | 0 <= i < |rows| && rows[i].id == id
      ensures Apply(rows[i], SetList(data)) == Patched(rows[i], data)
    {
      SetListMeansPatch(rows[i], data);
    }
  }

  /** The number of rows an `UPDATE ... WHERE id = ?` touches (`affectedRows`). */
  function CountId(rows: seq<Attendance>, id: int): (n: nat)
    ensures n == 0 <==> forall x :: x in rows ==> x.id != id
  {
    if rows == [] then 0
    else
      assert forall x :: x in rows <==> x == rows[0] || x in rows[1..];
      (if rows[0].id == id then 1 else 0) + CountId(rows[1..], id)
  }

  /** A partial update never touches the key. */
  lemma UpdatedRowsKeepIds(rows: seq<Attendance>, id: int, data: UpdateAttributes)
    ensures forall i :: 0 <= i < |rows| ==> UpdatedRows(rows, id, data)[i].id == rows[i].id
    ensures UniqueIds(rows) ==> UniqueIds(UpdatedRows(rows, id, data))
    ensures forall x :: x in UpdatedRows(rows, id, data) ==> exists y :: y in rows && y.id == x.id
  {
    var u := UpdatedRows(rows, id, data);
    forall x | x in u ensures exists y :: y in rows && y.id == x.id {
      var i :| 0 <= i < |u| && u[i] == x;
      assert rows[i] in rows;
    }
  }

  /** `UPDATE attendance SET ... WHERE id = ?` over the whole table. */
  function UpdatedRows(rows: seq<Attendance>, id: int, data: UpdateAttributes): (r: seq<Attendance>)
    ensures |r| == |rows|
    ensures forall i :: 0 <= i < |rows| ==> r[i].id == rows[i].id
    ensures forall i :: 0 <= i < |rows| && rows[i].id != id ==> r[i] == rows[i]
    ensures forall i :: 0 <= i < |rows| && rows[i].id == id ==> r[i] == Patched(rows[i], data)
  {
    seq(|rows|, i requires 0 <= i < |rows| => if rows[i].id == id then Patched(rows[i], data) else rows[i])
  }

  /** What `update` returns: null without fields or without a matching row, else the re-read row. */
  function UpdateResult(rows: seq<Attendance>, id: int, data: UpdateAttributes): (r: Option<Attendance>)
    ensures r.None? <==> NoChange(data) || forall x :: x in rows ==> x.id != id
    ensures r.Some? ==> r.value.id == id && exists x :: x in rows && x.id == id && r.value == Patched(x, data)
  {
    if NoChange(data) || FindById(rows, id).None? then None
    else
      UpdateFindsPatchedRow(rows, id, data);
      FindById(UpdatedRows(rows, id, data), id)
  }

  /** When some row has the id, the re-read after the update finds one of them, patched. */
  lemma UpdateFindsPatchedRow(rows: seq<Attendance>, id: int, data: UpdateAttributes)
    requires FindById(rows, id).Some?
    ensures FindById(UpdatedRows(rows, id, data), id).Some?
    ensures exists x :: x in rows && x.id == id && FindById(UpdatedRows(rows, id, data), id).value == Patched(x, data)
  {
    var u := UpdatedRows(rows, id, data);
    var k :| 0 <= k < |rows| && rows[k] == FindById(rows, id).value;
    assert u[k] in u && u[k].id == id;
    var found := FindById(u, id).value;
    var i :| 0 <= i < |u| && u[i] == found;
    assert rows[i] in rows && found == Patched(rows[i], data);
  }

  /**
   * Over a keyed table, `update` changes at most the row with that id: the row
   * it returns is that row with the given fields written, and null is returned
   * exactly when no field is given or no row has the id.
   */
  lemma UpdateResultIsPatchedRow(rows: seq<Attendance>, id: int, data: UpdateAttributes, k: nat)
    requires UniqueIds(rows)
    requires k < |rows| && rows[k].id == id
    ensures UpdateResult(rows, id, data) == if NoChange(data) then None else Some(Patched(rows[k], data))
    ensures UniqueIds(UpdatedRows(rows, id, data))
    ensures forall i :: 0 <= i < |rows| && i != k ==> UpdatedRows(rows, id, data)[i] == rows[i]
  {
    var u := UpdatedRows(rows, id, data);
    assert u[k] == Patched(rows[k], data);
    assert forall x :: x in u && x.id == id ==> x == u[k];
  }

  /** `update` on an id the table does not hold returns null and changes no row. */
  lemma UpdateMissingId(rows: seq<Attendance>, id: int, data: UpdateAttributes)
    requires forall x :: x in rows ==> x.id != id
    ensures UpdateResult(rows, id, data).None?
    ensures UpdatedRows(rows, id, data) == rows
  {
    var u := UpdatedRows(rows, id, data);
    forall i | 0 <= i < |rows| ensures u[i] == rows[i] {
      assert rows[i] in rows;
    }
  }

  /** `DELETE FROM attendance WHERE id = ?`. */
  function DeletedRows(rows: seq<Attendance>, id: int): (r: seq<Attendance>)
    ensures forall x :: x in r <==> x in rows && x.id != id
    ensures |r| < |rows| <==> exists x :: x in rows && x.id == id
  {
    WhereShrinks(rows, (x: Attendance) => x.id != id);
    Where(rows, (x: Attendance) => x.id != id)
  }

  // ---------------------------------------------------------------------------
  // The store

  /** `AttendanceStore`: the `attendance` table and its SERIAL key generator. */
  class AttendanceStore {
    var rows: seq<Attendance>
    var nextId: int

    ghost predicate Valid()
      reads this
    {
      0 < nextId && UniqueIds(rows) && forall x :: x in rows ==> 0 < x.id < nextId
    }

    constructor ()
      ensures Valid() && rows == [] && nextId == 1
    {
      rows := [];
      nextId := 1;
    }

    /** `create`: INSERT with defaults, returning the new row under a fresh id. */
    method Create(data: CreationAttributes) returns (r: Attendance)
      requires Valid()
      modifies this
      ensures Valid()
      ensures r == StoredRow(old(nextId), data)
      ensures rows == old(rows) + [r] && nextId == old(nextId) + 1
      ensures forall x :: x in old(rows) ==> x.id != r.id
    {
      r := StoredRow(nextId, data);
      rows := rows + [r];
      nextId := nextId + 1;
    }

    /** The `fields` array of `update`, one push per given attribute. */
    static method BuildSetList(data: UpdateAttributes) returns (fields: seq<Assignment>)
      ensures fields == SetList(data)
      ensures |fields| == 0 <==> NoChange(data)
    {
      fields := [];
      if data.checkOutTime.Put? { fields := fields + [SetCheckOutTime(data.checkOutTime.value)]; }
      if data.totalHours.Put? { fields := fields + [SetTotalHours(data.totalHours.value)]; }
      if data.status.Put? { fields := fields + [SetStatus(data.status.value)]; }
      if data.notes.Put? { fields := fields + [SetNotes(data.notes.value)]; }
    }

    /** `update`: builds the SET list, runs the UPDATE, then re-reads the row. */
    method Update(id: int, data: UpdateAttributes) returns (r: Option<Attendance>)
      requires Valid()
      modifies this
      ensures Valid() && nextId == old(nextId)
      ensures rows == (if NoChange(data) then old(rows) else UpdatedRows(old(rows), id, data))
      ensures r == UpdateResult(old(rows), id, data)
    {
      var fields := BuildSetList(data);
      SetListEmpty(data);
      if |fields| == 0 {
        return None;
      }
      var before := rows;
      var affectedRows := CountId(before, id);
      rows := SetWhereId(before, id, fields);
      SetWhereIdIsUpdate(before, id, data);
      UpdatedRowsKeepIds(before, id, data);
      if affectedRows == 0 {
        return None;
      }
      r := FindById(rows, id);
    }

    /** `delete`: true iff a row with that id existed; only that row goes. */
    method Delete(id: int) returns (deleted: bool)
      requires Valid()
      modifies this
      ensures Valid() && nextId == old(nextId)
      ensures deleted <==> exists x :: x in old(rows) && x.id == id
      ensures rows == DeletedRows(old(rows), id)
    {
      var before := rows;
      rows := DeletedRows(before, id);
      deleted := |rows| < |before|;
      DeletedKeepsKeys(before, id);
    }
  }

  /** Deleting rows keeps the key unique. */
  lemma DeletedKeepsKeys(rows: seq<Attendance>, id: int)
    requires UniqueIds(rows)
    ensures UniqueIds(DeletedRows(rows, id))
  {
    WhereKeepsUniqueIds(rows, (x: Attendance) => x.id != id);
    assert DeletedRows(rows, id) == Where(rows, (x: Attendance) => x.id != id);
  }

  lemma {:induction false} WhereKeepsUniqueIds(rows: seq<Attendance>, p: Attendance -> bool)
    requires UniqueIds(rows)
    ensures UniqueIds(Where(rows, p))
  {
    if rows != [] {
      WhereKeepsUniqueIds(rows[1..], p);
      var rest := Where(rows[1..], p);
      assert rows == [rows[0]] + rows[1..];
      forall y | y in rest ensures y.id != rows[0].id {
        var k :| 0 <= k < |rows[1..]| && rows[1..][k] == y;
        assert rows[k + 1] == y;
      }
    }
  }
}

/**
 * The check-in/check-out state machine of `AttendanceService`
 * (src/service/attendanceService.ts) over the attendance store.
 *
 * The clock is an input: `now` is the current time in milliseconds and
 * `today` its calendar day. Each transition is given twice: as a function
 * of the table (`CheckInStep`, `CheckOutStep`), about which the lifecycle
 * lemmas are proved, and as a method of the service that changes the store
 * and is proved to follow that function.
 */
module AttendanceServices {
  import opened Wrappers
  import opened Text
  import opened AttendanceModel

  /** The errors the service throws, with their messages. */
  datatype AttendanceError = AlreadyCheckedIn | NotCheckedIn | AlreadyCheckedOut | UpdateFailed {
    function Message(): string {
      match this
      case AlreadyCheckedIn => "Bạn đã chấm công vào hôm nay rồi"
      case NotCheckedIn => "Bạn chưa chấm công vào hôm nay"
      case AlreadyCheckedOut => "Bạn đã chấm công ra hôm nay rồi"
      case UpdateFailed => "Không thể cập nhật chấm công"
    }
  }

  /**
   * `Math.round(diffMs / (1000 * 60 * 60) * 100)`: the elapsed time in
   * hundredths of an hour, rounded to the nearest with halves going up.
   */
  function HoursHundredths(diffMs: int): (h: int)
    ensures 36000 * h - 18000 <= diffMs < 36000 * h + 18000
  {
    (diffMs + 18000) / 36000
  }

  /** A full working day from 09:00 to 17:30 counts as 8.50 hours. */
  lemma NineToHalfPastFive()
    ensures HoursHundredths((17 * 60 + 30) * 60000 - 9 * 60 * 60000) == 850
  {
  }

  /** The outcome of one service call: its result and the table after it. */
  datatype Step = Step(result: Result<Attendance, AttendanceError>, rows: seq<Attendance>, nextId: int)

  /** The notes written at check-out: `notes || attendance.notes || null`. */
  function CheckOutNotes(notes: Option<string>, existing: Option<string>): (r: Option<string>)
    ensures r.Some? ==> r.value != ""
    ensures OrNull(notes).Some? ==> r == notes
    ensures OrNull(notes).None? ==> r == OrNull(existing)
  {
    if OrNull(notes).Some? then notes else OrNull(existing)
  }

  /** The partial update `checkOut` sends for the open record `a`. */
  function CheckOutData(a: Attendance, notes: Option<string>, now: int): (d: UpdateAttributes)
    ensures !NoChange(d)
    ensures var c := Patched(a, d);
      && c.id == a.id && c.userId == a.userId && c.workDate == a.workDate && c.checkInTime == a.checkInTime
      && c.checkOutTime == Some(now)
      && c.totalHours == Some(HoursHundredths(now - a.checkInTime))
      && c.status == CheckedOut
      && c.notes == CheckOutNotes(notes, a.notes)
  {
    UpdateAttributes(
      Put(Some(now)),
      Put(Some(HoursHundredths(now - a.checkInTime))),
      Put(CheckedOut),
      Put(CheckOutNotes(notes, a.notes)))
  }

  /** `checkIn` as a function of the table. */
  function CheckInStep(rows: seq<Attendance>, nextId: int, userId: int, notes: Option<string>, now: int, today: int): (s: Step)
    ensures FindTodayByUserId(rows, userId, today).Some? ==>
      s == Step(Failure(AlreadyCheckedIn), rows, nextId)
    ensures FindTodayByUserId(rows, userId, today).None? ==>
      && s.result.Success?
      && s.rows == rows + [s.result.value]
      && s.nextId == nextId + 1
      && var r := s.result.value;
      && r.id == nextId && r.userId == userId
      && r.checkInTime == now && r.workDate == today
      && r.checkOutTime.None? && r.totalHours.None?
      && r.status == CheckedIn && r.notes == OrNull(notes)
  {
    if FindTodayByUserId(rows, userId, today).Some? then
      Step(Failure(AlreadyCheckedIn), rows, nextId)
    else
      var r := StoredRow(nextId, CreationAttributes(userId, now, None, today, None, Some(CheckedIn), OrNull(notes)));
      Step(Success(r), rows + [r], nextId + 1)
  }

  /** `checkOut` as a function of the table. */
  function CheckOutStep(rows: seq<Attendance>, nextId: int, userId: int, notes: Option<string>, now: int, today: int): (s: Step)
    ensures s.nextId == nextId
    ensures FindTodayByUserId(rows, userId, today).None? ==>
      s == Step(Failure(NotCheckedIn), rows, nextId)
    ensures FindTodayByUserId(rows, userId, today).Some? && FindTodayByUserId(rows, userId, today).value.checkOutTime.Some? ==>
      s == Step(Failure(AlreadyCheckedOut), rows, nextId)
    ensures var e := FindTodayByUserId(rows, userId, today);
      UniqueIds(rows) && e.Some? && e.value.checkOutTime.None? ==>
      && s.result.Success?
      && var a, r := e.value, s.result.value;
      && r.id == a.id && r.userId == a.userId && r.workDate == a.workDate && r.checkInTime == a.checkInTime
      && r.checkOutTime == Some(now)
      && r.totalHours == Some(HoursHundredths(now - a.checkInTime))
      && r.status == CheckedOut
      && r.notes == CheckOutNotes(notes, a.notes)
      && |s.rows| == |rows|
      && forall i :: 0 <= i < |rows| ==> s.rows[i] == (if rows[i].id == a.id then r else rows[i])
  {
    var e := FindTodayByUserId(rows, userId, today);
    if e.None? then Step(Failure(NotCheckedIn), rows, nextId)
    else if e.value.checkOutTime.Some? then Step(Failure(AlreadyCheckedOut), rows, nextId)
    else
      var a := e.value;
      var data := CheckOutData(a, notes, now);
      var after := UpdatedRows(rows, a.id, data);
      var updated := UpdateResult(rows, a.id, data);
      CheckOutUpdatesOpenRecord(rows, a, data);
      if updated.None? then Step(Failure(UpdateFailed), after, nextId)
      else Step(Success(updated.value), after, nextId)
  }

  /** Over a keyed table the check-out update finds its row and returns it patched. */
  lemma CheckOutUpdatesOpenRecord(rows: seq<Attendance>, a: Attendance, data: UpdateAttributes)
    requires a in rows && !NoChange(data)
    ensures UniqueIds(rows) ==> UpdateResult(rows, a.id, data) == Some(Patched(a, data))
    ensures UniqueIds(rows) ==> forall i :: 0 <= i < |rows| ==>
      UpdatedRows(rows, a.id, data)[i] == (if rows[i].id == a.id then Patched(a, data) else rows[i])
  {
    if UniqueIds(rows) {
      var k :| 0 <= k < |rows| && rows[k] == a;
      UpdateResultIsPatchedRow(rows, a.id, data, k);
    }
  }

  // ---------------------------------------------------------------------------
  // The lifecycle, for sequential calls

  /** A successful check-in keeps at most one record per user and day. */
  lemma CheckInKeepsOnePerUserDay(rows: seq<Attendance>, nextId: int, userId: int, notes: Option<string>, now: int, today: int)
    requires OnePerUserDay(rows)
    ensures OnePerUserDay(CheckInStep(rows, nextId, userId, notes, now, today).rows)
  {
    var s := CheckInStep(rows, nextId, userId, notes, now, today);
    if s.rows != rows {
      var t := s.rows;
      forall i, j | 0 <= i < j < |t| ensures t[i].userId != t[j].userId || t[i].workDate != t[j].workDate {
        if j == |rows| {
          assert t[i] == rows[i] && rows[i] in rows;
        } else {
          assert t[i] == rows[i] && t[j] == rows[j];
        }
      }
    }
  }

  /** A check-out changes no user or work date, so it keeps at most one record per user and day. */
  lemma CheckOutKeepsOnePerUserDay(rows: seq<Attendance>, nextId: int, userId: int, notes: Option<string>, now: int, today: int)
    requires UniqueIds(rows) && OnePerUserDay(rows)
    ensures var s := CheckOutStep(rows, nextId, userId, notes, now, today);
      OnePerUserDay(s.rows) && UniqueIds(s.rows)
  {
    var s := CheckOutStep(rows, nextId, userId, notes, now, today);
    var e := FindTodayByUserId(rows, userId, today);
    if e.Some? && e.value.checkOutTime.None? {
      var a, r := e.value, s.result.value;
      forall i | 0 <= i < |rows| ensures SameKeys(s.rows[i], rows[i]) {
        if rows[i].id == a.id {
          assert rows[i] in rows;
        }
      }
      SameKeysKeepInvariants(rows, s.rows);
    }
  }

  /** Two rows agree on id, user and work day. */
  predicate SameKeys(x: Attendance, y: Attendance) {
    x.id == y.id && x.userId == y.userId && x.workDate == y.workDate
  }

  /** Tables that agree row by row on id, user and work day satisfy the same key invariants. */
  lemma SameKeysKeepInvariants(rows: seq<Attendance>, t: seq<Attendance>)
    requires |t| == |rows| && forall i :: 0 <= i < |rows| ==> SameKeys(t[i], rows[i])
    ensures UniqueIds(rows) ==> UniqueIds(t)
    ensures OnePerUserDay(rows) ==> OnePerUserDay(t)
  {
    assert forall i :: 0 <= i < |rows| ==> t[i].id == rows[i].id;
    assert forall i :: 0 <= i < |rows| ==> t[i].userId == rows[i].userId && t[i].workDate == rows[i].workDate;
  }

  /** A second check-in on the same day fails and leaves the table as the first one left it. */
  lemma SecondCheckInFails(rows: seq<Attendance>, nextId: int, userId: int, notes: Option<string>, notes2: Option<string>, now: int, now2: int, today: int)
    ensures var s := CheckInStep(rows, nextId, userId, notes, now, today);
      CheckInStep(s.rows, s.nextId, userId, notes2, now2, today) == Step(Failure(AlreadyCheckedIn), s.rows, s.nextId)
  {
    var s := CheckInStep(rows, nextId, userId, notes, now, today);
    if s.result.Success? {
      assert s.result.value in s.rows;
    }
  }

  /** Where a user has one record per day, the day's lookup finds that record. */
  lemma OnlyRecordOfDay(t: seq<Attendance>, k: int, userId: int, today: int)
    requires OnePerUserDay(t) && 0 <= k < |t| && t[k].userId == userId && t[k].workDate == today
    ensures FindTodayByUserId(t, userId, today) == Some(t[k])
  {
    assert t[k] in t;
    var e := FindTodayByUserId(t, userId, today);
    var j :| 0 <= j < |t| && t[j] == e.value;
    assert j == k;
  }

  /** After a check-in, the day's lookup finds the record it appended. */
  lemma FoundAfterCheckIn(rows: seq<Attendance>, row: Attendance, userId: int, today: int)
    requires FindTodayByUserId(rows, userId, today).None?
    requires row.userId == userId && row.workDate == today
    ensures FindTodayByUserId(rows + [row], userId, today) == Some(row)
  {
    assert row in rows + [row];
    var e := FindTodayByUserId(rows + [row], userId, today);
    assert e.value in rows || e.value == row;
  }

  /**
   * Check-in followed by check-out closes the day's record: it is checked out
   * at `outAt` with the hours worked since `inAt`, and it is the only row that
   * changed.
   */
  lemma CheckInThenOut(rows: seq<Attendance>, nextId: int, userId: int, notes: Option<string>, inAt: int, outAt: int, today: int)
    requires UniqueIds(rows) && forall x :: x in rows ==> x.id < nextId
    requires FindTodayByUserId(rows, userId, today).None?
    ensures var s1 := CheckInStep(rows, nextId, userId, notes, inAt, today);
      var s2 := CheckOutStep(s1.rows, s1.nextId, userId, None, outAt, today);
      && s2.result.Success?
      && s2.result.value.id == nextId
      && s2.result.value.status == CheckedOut
      && s2.result.value.checkOutTime == Some(outAt)
      && s2.result.value.totalHours == Some(HoursHundredths(outAt - inAt))
      && s2.result.value.notes == OrNull(notes)
      && s2.rows == rows + [s2.result.value]
  {
    var s1 := CheckInStep(rows, nextId, userId, notes, inAt, today);
    var row := s1.result.value;
    CheckInAppendsKeyedRow(rows, nextId, row);
    FoundAfterCheckIn(rows, row, userId, today);
    var s2 := CheckOutStep(s1.rows, s1.nextId, userId, None, outAt, today);
    ClosingLastRow(rows, row, s2.rows, s2.result.value);
  }

  /** Appending a row under a key above every key in use keeps the key unique. */
  lemma CheckInAppendsKeyedRow(rows: seq<Attendance>, nextId: int, row: Attendance)
    requires UniqueIds(rows) && forall x :: x in rows ==> x.id < nextId
    requires row.id == nextId
    ensures UniqueIds(rows + [row])
    ensures forall i :: 0 <= i < |rows| ==> rows[i].id != row.id
  {
    forall i | 0 <= i < |rows| ensures rows[i].id != row.id {
      assert rows[i] in rows;
    }
  }

  /** Rewriting only the last row, whose key no other row has, replaces that row. */
  lemma ClosingLastRow(rows: seq<Attendance>, row: Attendance, t: seq<Attendance>, r: Attendance)
    requires forall i :: 0 <= i < |rows| ==> rows[i].id != row.id
    requires |t| == |rows| + 1
    requires forall i :: 0 <= i < |rows| + 1 ==> t[i] == (if (rows + [row])[i].id == row.id then r else (rows + [row])[i])
    ensures t == rows + [r]
  {
    forall i | 0 <= i < |rows| + 1 ensures t[i] == (rows + [r])[i] {
      if i < |rows| {
        assert (rows + [row])[i] == rows[i];
      }
    }
  }

  /** A second check-out on the same day fails and keeps the hours and notes the first one stored. */
  lemma SecondCheckOutFails(rows: seq<Attendance>, nextId: int, userId: int, notes: Option<string>, notes2: Option<string>, now: int, now2: int, today: int)
    requires UniqueIds(rows) && OnePerUserDay(rows)
    ensures var s := CheckOutStep(rows, nextId, userId, notes, now, today);
      s.result.Success? ==>
      CheckOutStep(s.rows, s.nextId, userId, notes2, now2, today) == Step(Failure(AlreadyCheckedOut), s.rows, s.nextId)
  {
    var s := CheckOutStep(rows, nextId, userId, notes, now, today);
    if s.result.Success? {
      var a := FindTodayByUserId(rows, userId, today).value;
      var k :| 0 <= k < |rows| && rows[k] == a;
      assert s.rows[k] == s.result.value;
      CheckOutKeepsOnePerUserDay(rows, nextId, userId, notes, now, today);
      OnlyRecordOfDay(s.rows, k, userId, today);
    }
  }

  /** `AttendanceService`: the state machine over one store. */
  class AttendanceService {
    const store: AttendanceStore

    constructor (store: AttendanceStore)
      ensures this.store == store
    {
      this.store := store;
    }

    /** `checkIn`: refuses a second record for the same day, else creates an open one. */
    method CheckIn(userId: int, notes: Option<string>, now: int, today: int) returns (r: Result<Attendance, AttendanceError>)
      requires store.Valid()
      modifies store
      ensures store.Valid()
      ensures Step(r, store.rows, store.nextId) == CheckInStep(old(store.rows), old(store.nextId), userId, notes, now, today)
    {
      var existing := FindTodayByUserId(store.rows, userId, today);
      if existing.Some? {
        return Failure(AlreadyCheckedIn);
      }
      var data := CreationAttributes(userId, now, None, today, None, Some(CheckedIn), OrNull(notes));
      var created := store.Create(data);
      r := Success(created);
    }

    /** `checkOut`: closes today's open record with the hours worked. */
    method CheckOut(userId: int, notes: Option<string>, now: int, today: int) returns (r: Result<Attendance, AttendanceError>)
      requires store.Valid()
      modifies store
      ensures store.Valid()
      ensures Step(r, store.rows, store.nextId) == CheckOutStep(old(store.rows), old(store.nextId), userId, notes, now, today)
    {
      var attendance := FindTodayByUserId(store.rows, userId, today);
      if attendance.None? {
        return Failure(NotCheckedIn);
      }
      if attendance.value.checkOutTime.Some? {
        return Failure(AlreadyCheckedOut);
      }
      var a := attendance.value;
      ghost var rows0, nextId0 := store.rows, store.nextId;
      var diffMs := now - a.checkInTime;
      var updateData := UpdateAttributes(
        Put(Some(now)),
        Put(Some(HoursHundredths(diffMs))),
        Put(CheckedOut),
        Put(CheckOutNotes(notes, a.notes)));
      assert updateData == CheckOutData(a, notes, now) && !NoChange(updateData);
      var updated := store.Update(a.id, updateData);
      assert store.rows == UpdatedRows(rows0, a.id, updateData);
      if updated.None? {
        return Failure(UpdateFailed);
      }
      r := Success(updated.value);
    }

    /** `getUserAttendance`: the store's history for the user; `limit` and `offset` are not used. */
    function GetUserAttendance(userId: int, limit: Option<nat>, offset: Option<nat>): (r: seq<Attendance>)
      reads store
      ensures r == FindByUserId(store.rows, userId)
    {
      FindByUserId(store.rows, userId)
    }

    /** `getTodayAttendance`: the user's record for `today`, or null. */
    function GetTodayAttendance(userId: int, today: int): (r: Option<Attendance>)
      reads store
      ensures r == FindTodayByUserId(store.rows, userId, today)
    {
      FindTodayByUserId(store.rows, userId, today)
    }

    /** `getAttendanceByDateRange`: the store's inclusive date-window query. */
    function GetAttendanceByDateRange(start: int, end: int, userId: Option<int>): (r: seq<Attendance>)
      reads store
      ensures r == FindByDateRange(store.rows, start, end, userId)
    {
      FindByDateRange(store.rows, start, end, userId)
    }

    /** `getStatistics`: the store's aggregate query. */
    function GetStatistics(start: int, end: int, userId: Option<int>): (r: Statistics)
      reads store
      ensures r == AttendanceModel.GetStatistics(store.rows, start, end, userId)
    {
      AttendanceModel.GetStatistics(store.rows, start, end, userId)
    }

    /** `getAllAttendance`: every record, most recent first, paged. */
    function GetAllAttendance(limit: Option<nat>, offset: Option<nat>): (r: seq<Attendance>)
      reads store
      ensures r == FindAll(store.rows, limit, offset)
    {
      FindAll(store.rows, limit, offset)
    }
  }
}

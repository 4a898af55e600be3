/**
 * Request handling of the attendance routes
 * (src/controller/attendanceController.ts): the 401 and 403 gates, the
 * mapping of service errors to statuses, and the defaults and dispatch of
 * the query parameters.
 *
 * Each handler takes the request's authenticated user (`None` when there
 * is none) and the query parameters already read: `None` is a parameter
 * that is absent or empty. Dates are day numbers and `today` is the day the
 * request is served.
 */
module AttendanceController {
  import opened Wrappers
  import opened Roles
  import opened Http
  import opened AttendanceModel
  import opened AttendanceServices

  const CheckedInMessage := "Chấm công vào thành công"
  const CheckedOutMessage := "Chấm công ra thành công"
  const CheckInFallbackMessage := "Không thể chấm công vào"
  const CheckOutFallbackMessage := "Không thể chấm công ra"
  const StatisticsForbiddenMessage := "Bạn không có quyền xem thống kê"
  const AllAttendanceForbiddenMessage := "Bạn không có quyền xem tất cả chấm công"

  /** `error.message || fallback`. */
  function MessageOr(message: string, fallback: string): (m: string)
    ensures message != "" ==> m == message
    ensures message == "" ==> m == fallback
  {
    if message != "" then message else fallback
  }

  /** Every error of the service has a message of its own, so no fallback text is ever sent. */
  lemma ErrorMessagesNonEmpty(e: AttendanceError)
    ensures e.Message() != ""
    ensures MessageOr(e.Message(), CheckInFallbackMessage) == e.Message()
    ensures MessageOr(e.Message(), CheckOutFallbackMessage) == e.Message()
  {
  }

  /** The response to a check-in or check-out: the record on success, 400 with the error's message on failure. */
  function StepResponse(result: Result<Attendance, AttendanceError>, success: string, fallback: string): (r: Response<Attendance>)
    ensures result.Success? ==> r == Response(200, Succeeded(Some(success), result.value))
    ensures result.Failure? ==> r == Response(400, Failed(result.error.Message()))
  {
    match result
    case Success(a) => Response(200, Succeeded(Some(success), a))
    case Failure(e) =>
      ErrorMessagesNonEmpty(e);
      Response(400, Failed(MessageOr(e.Message(), fallback)))
  }

  /** `checkIn`: 401 without a user, else the service's check-in for that user. */
  method CheckIn(service: AttendanceService, user: Option<AuthUser>, notes: Option<string>, now: int, today: int)
    returns (r: Response<Attendance>)
    requires service.store.Valid()
    modifies service.store
    ensures service.store.Valid()
    ensures user.None? ==>
      r == Response(401, Message(UnauthenticatedMessage)) && service.store.rows == old(service.store.rows)
    ensures user.Some? ==>
      var s := CheckInStep(old(service.store.rows), old(service.store.nextId), user.value.id, notes, now, today);
      && service.store.rows == s.rows && service.store.nextId == s.nextId
      && r == StepResponse(s.result, CheckedInMessage, CheckInFallbackMessage)
  {
    if user.None? {
      return Response(401, Message(UnauthenticatedMessage));
    }
    var attendance := service.CheckIn(user.value.id, notes, now, today);
    r := StepResponse(attendance, CheckedInMessage, CheckInFallbackMessage);
  }

  /** `checkOut`: 401 without a user, else the service's check-out for that user. */
  method CheckOut(service: AttendanceService, user: Option<AuthUser>, notes: Option<string>, now: int, today: int)
    returns (r: Response<Attendance>)
    requires service.store.Valid()
    modifies service.store
    ensures service.store.Valid()
    ensures user.None? ==>
      r == Response(401, Message(UnauthenticatedMessage)) && service.store.rows == old(service.store.rows)
    ensures user.Some? ==>
      var s := CheckOutStep(old(service.store.rows), old(service.store.nextId), user.value.id, notes, now, today);
      && service.store.rows == s.rows && service.store.nextId == s.nextId
      && r == StepResponse(s.result, CheckedOutMessage, CheckOutFallbackMessage)
  {
    if user.None? {
      return Response(401, Message(UnauthenticatedMessage));
    }
    var attendance := service.CheckOut(user.value.id, notes, now, today);
    r := StepResponse(attendance, CheckedOutMessage, CheckOutFallbackMessage);
  }

  /** A second check-in on the same day is answered 400 with the "already checked in" message. */
  lemma SecondCheckInIs400(rows: seq<Attendance>, nextId: int, userId: int, notes: Option<string>, now: int, today: int)
    requires FindTodayByUserId(rows, userId, today).Some?
    ensures StepResponse(CheckInStep(rows, nextId, userId, notes, now, today).result, CheckedInMessage, CheckInFallbackMessage)
      == Response(400, Failed("Bạn đã chấm công vào hôm nay rồi"))
  {
  }

  /** `getTodayAttendance`: 401 without a user, else the user's record for today, or null. */
  function GetTodayAttendance(service: AttendanceService, user: Option<AuthUser>, today: int): (r: Response<Option<Attendance>>)
    reads service.store
    ensures user.None? ==> r == Response(401, Message(UnauthenticatedMessage))
    ensures user.Some? ==> r.status == 200 && r.body.Succeeded? && r.body.notice.None?
    ensures user.Some? && r.body.data.Some? ==>
      r.body.data.value in service.store.rows &&
      r.body.data.value.userId == user.value.id && r.body.data.value.workDate == today
    ensures user.Some? && r.body.data.None? ==>
      forall a :: a in service.store.rows ==> !(a.userId == user.value.id && a.workDate == today)
  {
    if user.None? then Response(401, Message(UnauthenticatedMessage))
    else Response(200, Succeeded(None, service.GetTodayAttendance(user.value.id, today)))
  }

  /** `getUserAttendanceHistory`: 401 without a user, else that user's records; `limit` and `offset` reach the service unused. */
  function GetUserAttendanceHistory(service: AttendanceService, user: Option<AuthUser>, limit: Option<nat>, offset: Option<nat>)
    : (r: Response<seq<Attendance>>)
    reads service.store
    ensures user.None? ==> r == Response(401, Message(UnauthenticatedMessage))
    ensures user.Some? ==> r == Response(200, Succeeded(None, FindByUserId(service.store.rows, user.value.id)))
  {
    if user.None? then Response(401, Message(UnauthenticatedMessage))
    else Response(200, Succeeded(None, service.GetUserAttendance(user.value.id, limit, offset)))
  }

  /** The paging of the history is not applied: every page request gets the whole history. */
  lemma HistoryIgnoresPaging(service: AttendanceService, user: AuthUser, l1: Option<nat>, o1: Option<nat>, l2: Option<nat>, o2: Option<nat>)
    ensures GetUserAttendanceHistory(service, Some(user), l1, o1) == GetUserAttendanceHistory(service, Some(user), l2, o2)
  {
  }

  /** The window `getStatistics` uses: the given days, else the last 30 days up to today. */
  function StatisticsWindow(startDate: Option<int>, endDate: Option<int>, today: int): (w: (int, int))
    ensures w.0 == (if startDate.Some? then startDate.value else today - 30)
    ensures w.1 == (if endDate.Some? then endDate.value else today)
  {
    (startDate.GetOr(today - 30), endDate.GetOr(today))
  }

  /**
   * `getStatistics`: 401 without a user, 403 for anyone but an
   * administrator, else the statistics over the window for the given user
   * or for everyone.
   */
  function GetStatistics(service: AttendanceService, user: Option<AuthUser>, startDate: Option<int>, endDate: Option<int>, userId: Option<int>, today: int)
    : (r: Response<Statistics>)
    reads service.store
    ensures user.None? ==> r == Response(401, Message(UnauthenticatedMessage))
    ensures user.Some? && user.value.role != Admin ==> r == Response(403, Message(StatisticsForbiddenMessage))
    ensures r.status == 200 <==> user.Some? && user.value.role == Admin
    ensures r.status == 200 ==>
      var w := StatisticsWindow(startDate, endDate, today);
      r.body == Succeeded(None, AttendanceModel.GetStatistics(service.store.rows, w.0, w.1, userId))
  {
    if user.None? then Response(401, Message(UnauthenticatedMessage))
    else if user.value.role != Admin then Response(403, Message(StatisticsForbiddenMessage))
    else
      var start := if startDate.Some? then startDate.value else today - 30;
      var end := if endDate.Some? then endDate.value else today;
      Response(200, Succeeded(None, service.GetStatistics(start, end, userId)))
  }

  /** Without dates an administrator gets the statistics of the 31 days from today - 30 to today. */
  lemma StatisticsDefaultWindow(service: AttendanceService, admin: AuthUser, userId: Option<int>, today: int)
    requires admin.role == Admin
    ensures GetStatistics(service, Some(admin), None, None, userId, today).body
      == Succeeded(None, AttendanceModel.GetStatistics(service.store.rows, today - 30, today, userId))
  {
  }

  /**
   * `getAllAttendance`: 401 without a user, 403 for anyone but an
   * administrator; with both dates the inclusive range query (for the given
   * user or everyone), otherwise one page of every record, 100 from offset 0
   * unless told otherwise.
   */
  function GetAllAttendance(service: AttendanceService, user: Option<AuthUser>, startDate: Option<int>, endDate: Option<int>,
                            userId: Option<int>, limit: Option<nat>, offset: Option<nat>)
    : (r: Response<seq<Attendance>>)
    reads service.store
    ensures user.None? ==> r == Response(401, Message(UnauthenticatedMessage))
    ensures user.Some? && user.value.role != Admin ==> r == Response(403, Message(AllAttendanceForbiddenMessage))
    ensures r.status == 200 <==> user.Some? && user.value.role == Admin
    ensures r.status == 200 && startDate.Some? && endDate.Some? ==>
      r.body == Succeeded(None, FindByDateRange(service.store.rows, startDate.value, endDate.value, userId))
    ensures r.status == 200 && (startDate.None? || endDate.None?) ==>
      r.body == Succeeded(None, FindAll(service.store.rows, Some(limit.GetOr(100)), Some(offset.GetOr(0))))
  {
    if user.None? then Response(401, Message(UnauthenticatedMessage))
    else if user.value.role != Admin then Response(403, Message(AllAttendanceForbiddenMessage))
    else
      var limit := if limit.Some? then limit.value else 100;
      var offset := if offset.Some? then offset.value else 0;
      var attendance :=
        if startDate.Some? && endDate.Some? then service.GetAttendanceByDateRange(startDate.value, endDate.value, userId)
        else service.GetAllAttendance(Some(limit), Some(offset));
      Response(200, Succeeded(None, attendance))
  }

  /** Without both dates the `userId` filter is not applied. */
  lemma AllAttendanceIgnoresUserWithoutRange(service: AttendanceService, user: Option<AuthUser>, startDate: Option<int>, endDate: Option<int>,
                                             u1: Option<int>, u2: Option<int>, limit: Option<nat>, offset: Option<nat>)
    requires startDate.None? || endDate.None?
    ensures GetAllAttendance(service, user, startDate, endDate, u1, limit, offset)
         == GetAllAttendance(service, user, startDate, endDate, u2, limit, offset)
  {
  }

  /** Without paging parameters at most 100 records are sent. */
  lemma AllAttendanceDefaultPage(service: AttendanceService, admin: AuthUser, startDate: Option<int>, endDate: Option<int>, userId: Option<int>)
    requires admin.role == Admin && (startDate.None? || endDate.None?)
    ensures |GetAllAttendance(service, Some(admin), startDate, endDate, userId, None, None).body.data| <= 100
  {
  }
}

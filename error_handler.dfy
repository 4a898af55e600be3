/**
 * The last-resort error handler (src/middleware/errorHandler.ts): an error
 * is classified by its name and message into a status and a message. The
 * error log it writes is not modelled; `production` stands for
 * `NODE_ENV === 'production'`.
 */
module ErrorHandling {
  import opened Text
  import opened Http

  const InvalidDataMessage := "Dữ liệu không hợp lệ"
  const NoAccessMessage := "Không có quyền truy cập"
  const SystemErrorMessage := "Đã xảy ra lỗi hệ thống"
  const InternalServerErrorMessage := "Internal Server Error"

  /** A thrown `Error`: its `name` and `message`. */
  datatype Error = Error(name: string, message: string)

  predicate IsValidationError(err: Error) {
    err.name == "ValidationError"
  }

  predicate IsUnauthorizedError(err: Error) {
    err.name == "UnauthorizedError" || Includes(err.message, "unauthorized")
  }

  /**
   * `errorHandler`: 400 for a validation error (its message, or a default
   * when empty), else 401 for an unauthorized error, else 500 whose message
   * is fixed in production and the error's own (or a default) otherwise.
   */
  function HandleError(err: Error, production: bool): (r: Response<()>)
    ensures r.body.Failed?
    ensures r.status == 400 <==> IsValidationError(err)
    ensures r.status == 401 <==> !IsValidationError(err) && IsUnauthorizedError(err)
    ensures r.status == 500 <==> !IsValidationError(err) && !IsUnauthorizedError(err)
    ensures r.status == 400 ==> r.body.message == (if err.message == "" then InvalidDataMessage else err.message)
    ensures r.status == 401 ==> r.body.message == NoAccessMessage
    ensures r.status == 500 && production ==> r.body.message == SystemErrorMessage
    ensures r.status == 500 && !production ==>
      r.body.message == (if err.message == "" then InternalServerErrorMessage else err.message)
  {
    if err.name == "ValidationError" then
      Response(400, Failed(if err.message != "" then err.message else InvalidDataMessage))
    else if err.name == "UnauthorizedError" || Includes(err.message, "unauthorized") then
      Response(401, Failed(NoAccessMessage))
    else
      Response(500, Failed(if production then SystemErrorMessage
                           else if err.message != "" then err.message else InternalServerErrorMessage))
  }

  /** A validation error stays a 400 even when its message mentions `unauthorized`. */
  lemma ValidationTakesPrecedence(message: string)
    requires Includes(message, "unauthorized")
    ensures HandleError(Error("ValidationError", message), false).status == 400
    ensures HandleError(Error("ValidationError", message), true).status == 400
  {
  }

  /**
   * Matching `unauthorized` is case-sensitive: an error of any other name
   * whose message mentions `Unauthorized` but not `unauthorized` is a 500.
   */
  lemma UnauthorizedIsCaseSensitive(name: string, message: string, production: bool)
    requires name != "ValidationError" && name != "UnauthorizedError"
    requires Includes(message, "Unauthorized") && !Includes(message, "unauthorized")
    ensures HandleError(Error(name, message), production).status == 500
  {
  }

  /** Such messages exist: `Unauthorized` itself does not contain `unauthorized`. */
  lemma CapitalisedUnauthorized()
    ensures Includes("Unauthorized", "Unauthorized") && !Includes("Unauthorized", "unauthorized")
  {
    var m := "Unauthorized";
    assert OccursAt(m, "Unauthorized", 0);
    forall k: nat ensures !OccursAt(m, "unauthorized", k) {
      if k + 12 <= |m| {
        assert m[k] != 'u' || k != 0;
      }
    }
  }

  /** In production two unclassified errors get the same response, whatever their messages. */
  lemma ProductionHidesMessages(e1: Error, e2: Error)
    requires HandleError(e1, true).status == 500 && HandleError(e2, true).status == 500
    ensures HandleError(e1, true) == HandleError(e2, true)
  {
  }
}

/**
 * The JSON responses the handlers send: a status and one of the body shapes
 * the controllers and middleware use.
 */
module Http {
  import opened Wrappers

  /** The 401 message every authenticated route shares. */
  const UnauthenticatedMessage := "Chưa xác thực"

  datatype Body<T> =
    | Message(message: string)                       // `{ message }`
    | Failed(message: string)                        // `{ success: false, message }`
    | Succeeded(notice: Option<string>, data: T)     // `{ success: true, [message,] data }`
    | Json(data: T)                                  // the value itself

  /** `res.status(status).json(body)`; `res.json(body)` is status 200. */
  datatype Response<T> = Response(status: nat, body: Body<T>)
}

/** What the Next.js side throws and answers: the `ApiError` class of the
    shared types, the bridge's `PdfApiError`, plain `Error`s and `TypeError`s,
    and JSON responses. */
module ApiTypes {
  import opened Wrappers
  import opened JsValues

  /** The class of a thrown `Error` instance that is not an `ApiError`. */
  datatype ErrorClass = PlainError | TypeError | PdfApiError

  /** A thrown value. `statusCode` and `isServiceUnavailable` are `None` when
      the thrown object has no such property. */
  datatype Thrown =
    | ApiError(message: string, status: int, unavailable: bool)
    | Error(cls: ErrorClass, message: string, statusCode: Option<int>, isServiceUnavailable: Option<bool>)
    | NonError(isObject: bool, statusCode: Option<int>, isServiceUnavailable: Option<bool>)

  /** `new ApiError(message, statusCode?, isServiceUnavailable?)`: the
      omitted arguments default to 500 and false. */
  function NewApiError(message: string, statusCode: Option<int>, unavailable: Option<bool>): (e: Thrown)
    ensures e.ApiError? && e.message == message
    ensures statusCode.None? ==> e.status == 500
    ensures unavailable.None? ==> !e.unavailable
  {
    ApiError(message, statusCode.GetOr(500), unavailable.GetOr(false))
  }

  /** `new PdfApiError(message, statusCode?, isServiceUnavailable?)`: an
      `Error` subclass whose two properties are always present, with the
      same defaults as `ApiError`. */
  function NewPdfApiError(message: string, statusCode: Option<int>, unavailable: Option<bool>): Thrown {
    Error(PdfApiError, message, Some(statusCode.GetOr(500)), Some(unavailable.GetOr(false)))
  }

  /** `new Error(message)` */
  function NewError(message: string): Thrown {
    Error(PlainError, message, None, None)
  }

  /** A failure inside code this model does not cover (the storage adapter,
      the JavaScript engine); only its being an `Error` matters here. */
  function Foreign(description: string): Thrown {
    Error(PlainError, description, None, None)
  }

  /** A JSON response: its HTTP status and its body. */
  datatype Response = Json(status: int, body: JsValue)
}

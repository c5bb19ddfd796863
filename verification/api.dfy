/** Shared result types of the HTTP handlers: an optional value, and either a
    success value or one of the error responses the server sends. */
module Api {

  datatype Option<+T> = None | Some(value: T) {
    function GetOr(default: T): T {
      match this
      case Some(v) => v
      case None => default
    }
  }

  /** The error responses of the JSON API, each with the message it carries. */
  datatype Error =
    | BadRequest(message: string)     // 400
    | Unauthorized(message: string)   // 401
    | NotFound(message: string)       // 404
    | Conflict(message: string)       // 409

  function StatusCode(e: Error): int {
    match e
    case BadRequest(_) => 400
    case Unauthorized(_) => 401
    case NotFound(_) => 404
    case Conflict(_) => 409
  }

  datatype Result<+T> = Ok(value: T) | Err(error: Error)

  const VideoNotFound: Error := NotFound("Video not found")
}

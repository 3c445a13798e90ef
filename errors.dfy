/**
  The server's error kinds as the handlers and services raise them. The
  messages are kept where they are fixed text; where the source appends the
  Display of a foreign error, only the fixed part is kept.
*/
module Errors {
  datatype Error =
    | BadRequest(message: string)
    | Unauthorized
    | NotFound(message: string)
    | InternalServerError
    | InternalServerErrorWithContext(context: string)
  {
    /** The two kinds `process_m3u8_by_schema_with_retry` retries on. */
    predicate IsInternal() {
      this.InternalServerError? || this.InternalServerErrorWithContext?
    }
  }
}

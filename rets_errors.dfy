/** The errors the pull parser raises, and the value-or-error result its
    operations return in place of C++ exceptions. */
module RetsErrors {

  /** The HTTP status a truncated final chunk is reported with:
      408 Request Timeout, section 6.5.7 of RFC 7231. */
  const RequestTimeout: int := 408

  datatype ParseError =
    | ParserFinished                 // a fetch after EndDocument was delivered
    | PastEndOfDocument              // the stream ended with nothing queued
    | HttpError(status: int)         // the stream ended before the document did
    | MalformedDocument(line: nat, column: nat, description: string)

  datatype Result<+T> = Success(value: T) | Failure(error: ParseError)
}

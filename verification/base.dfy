/** Failure-carrying wrappers and the error values the downloader produces.

    Go reports failure through a trailing `error` result; here an operation that
    can fail returns `Result<T>` (a value or an error) or `Outcome` (pass or an
    error).  The `Error` constructors name the distinct errors the code creates,
    with the text it formats noted beside each. */
module Base {

  /** One byte of a payload. */
  newtype byte = b: int | 0 <= b < 256

  /** An optional value; `None` stands for Go's `nil` pointer or slice. */
  datatype Option<+T> = None | Some(value: T)

  datatype Error =
    | Transport(reason: string)            // an error returned by client.Get
    | RetriesExhausted(code: int)          // "status code: %d" after the last retry
    | UnexpectedStatus(code: int)          // "status code %d" for an accepted non-200 response
    | BodyRead(reason: string)             // io.ReadAll failed
    | Decode(reason: string)               // json.Unmarshal failed
    | Io(reason: string)                   // os.Create or a file write failed
    | RateLimiter(reason: string)          // limiter.Wait failed
    | BooruNotSupported                    // ErrBooruNotSupported
    | HostNotSupported(host: string)       // "%s is not supported"
    | VideoPost                            // ErrVideoPost
    | MediaNotFound                        // "media not found"
    | Wrapped(context: string, cause: Error)  // fmt.Errorf("<context>: %w", cause)

  datatype Result<+T> = Ok(value: T) | Err(error: Error)

  datatype Outcome = Pass | Fail(error: Error)
}

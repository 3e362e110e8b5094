/** Optional values, HTTP errors and the result of a request handler. */
module Results {

  /** Python's `Optional[T]`: `None` or a value. */
  datatype Option<T> = None | Some(value: T)

  /** What an `HTTPException` carries back to the client: a status code and a detail text. */
  datatype HttpError = HttpError(status: int, detail: string)

  /** A handler either answers with a value or fails with an HTTP error. */
  datatype Result<T> = Ok(value: T) | Err(error: HttpError)
}

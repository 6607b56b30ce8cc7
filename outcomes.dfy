/** Outcomes of the service's operations: a value, or the Python exception
    the operation raises instead of returning. */
module Outcomes {

  datatype Option<+T> = None | Some(value: T)

  /** The two kinds of exception main.py raises: a bare `ValueError`, and
      FastAPI's `HTTPException` with its status code and `detail` text. */
  datatype Failure =
    | ValueError(message: string)
    | HttpException(statusCode: int, detail: string)

  datatype Result<+T> = Ok(value: T) | Err(error: Failure)
}

/** The two exceptions the ingestion path can raise, and a result type that
    carries either a value or one of them. */
module Outcomes {

  /** `ValueError` is what `itertools.batched` raises for a batch size below
      one; `RuntimeError` is what `download_file` raises for a suffix it does
      not dispatch. Each carries the message the program gives it. */
  datatype Error = ValueError(message: string) | RuntimeError(message: string)

  datatype Result<T> = Success(value: T) | Failure(error: Error)
}

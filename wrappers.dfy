/** Failure-carrying values shared by the whole model. */
module Wrappers {

  /** A value that may be absent; `None` stands for a C# `null`. */
  datatype Option<+T> = None | Some(value: T)

  /** The outcome of an operation that either returns a value or throws. */
  datatype Result<+T> = Success(value: T) | Failure(error: Exception)

  /** The .NET exceptions the modelled code can raise. */
  datatype Exception =
    | ArgumentOutOfRange  // `StringGenerator.GetRandomString` with a negative length
    | InvalidOperation    // an unsupported media type
    | NullReference       // a successful response without a Content-Type header
    | Aggregate(inner: Exception)  // `Task.Result` on a faulted task rethrows its exception wrapped
}

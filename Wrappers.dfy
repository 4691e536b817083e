/** The optional and fallible results the C++ code returns through std::optional and std::expected. */
module Wrappers {

  datatype Option<T> = None | Some(value: T)

  datatype Result<T, E> = Success(value: T) | Failure(error: E)
}

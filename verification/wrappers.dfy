/** Optional values and results with an error, for the "may be missing" and
    "may fail" answers of the ORM, the forms and the template filters. */
module Wrappers {

  datatype Option<+T> = None | Some(value: T)

  datatype Result<+R, +E> = Success(value: R) | Failure(error: E)
}

/** Optional values, results of a run, and the two kinds of error the tool reports. */
module Outcomes {

  datatype Option<T> = None | Some(value: T)

  /** The two errors the command-line tool ends with. */
  datatype Error =
    | BadParameter  // the prior manifest was rejected while the options were validated
    | UsageError    // any exception raised while the run itself was in progress

  datatype Result<T> = Success(value: T) | Failure(error: Error)
}

/** Option and Result values, and the failures the optimizer can raise. */
module Outcomes {

  datatype Option<+T> = None | Some(value: T)

  /** The ways a run can stop with an exception instead of a value. */
  datatype Error =
    | EmptyPool             // a choice was asked of an empty id list with a non-zero sample size
    | SampleLargerThanPool  // more distinct ids were asked for than the catalog holds
    | NegativeSampleSize    // a negative sample size was asked for
    | EmptyPopulation       // the scores of an empty population cannot be stacked
    | MissingSecondParent   // selection produced a single parent, so the second one cannot be read

  datatype Result<+T> = Ok(value: T) | Err(error: Error)
}

/** Missing values and the Python exceptions the pipeline can raise. */
module Wrappers {

  /** A value that may be missing: `None` stands for pandas' NaN / NaT / None. */
  datatype Option<T> = None | Some(value: T)

  /** The exceptions the modelled code raises on bad input. */
  datatype Error =
    | KeyError(key: string)        // a missing dictionary key or dataframe column
    | AssertionError               // a failed `assert`
    | ValueError(text: string)     // a value a conversion cannot handle
    | AttributeError(text: string) // a method called on a missing value

  /** The outcome of an operation that may raise. */
  datatype Result<T> = Success(value: T) | Failure(error: Error)
}

/** Option for write-once cells, and Result for constructors that reject
    invalid parameters. */
module Wrappers {

  datatype Option<T> = None | Some(value: T)

  /** The outcome of building a distribution: the distribution, or the name
      of the parameter that failed validation (the source throws). */
  datatype Result<T> = Ok(value: T) | Invalid(parameter: string)
}

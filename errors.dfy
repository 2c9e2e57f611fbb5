/** The Python exceptions the pipeline can raise, and a result type that carries them. */
module Errors {

  /** The exceptions raised by the scripts: a missing dict key or column,
      a value of the wrong type (len or os.path.split of a NaN), a failed
      unpacking of a too-short list, and a division by an empty title's length. */
  datatype Error =
    | KeyError(key: string)
    | TypeError
    | ValueError
    | ZeroDivisionError

  /** Either the value a step computed or the exception that stopped the run. */
  datatype Result<+T> = Ok(value: T) | Err(error: Error)
}

/** Option and Result, for Python's None and for the exceptions the modelled code raises. */
module Wrappers {

  datatype Option<T> = None | Some(value: T)

  /** The Python exception classes that the modelled code can raise. */
  datatype Error =
    | KeyError        // `del d[k]` or `d[k]` on a missing key
    | TypeError       // indexing or comparing a value of the wrong type
    | IndexError      // indexing past the end of a sequence or array
    | ValueError      // `int(...)` on text that is not an integer, unpacking the wrong number of parts
    | IOError         // a capture that cannot be opened
    | UnboundLocalError  // a local read before any branch assigned it

  datatype Result<T> = Ok(value: T) | Err(error: Error)
}

/** Optional values and call outcomes used in place of the exceptions that the tool's
    external collaborators (PDF rendering, OCR, the file system) may raise. */
module Wrappers {

  /** A value that may be absent, as Python's `None` default arguments. */
  datatype Option<+T> = None | Some(value: T)

  /** The outcome of a call that either returns a value or raises; the cause
      stands for the exception's message. */
  datatype Result<+T> = Ok(value: T) | Err(cause: string)
}

/** Shared wrappers: optional values, results and the exceptions the library raises. */
module Base {

  datatype Option<+T> = None | Some(value: T)

  /** The Python exception classes that the modelled code raises. */
  datatype Error =
    | TypeError       // mismatched date kinds, an absent bound used as a value
    | ValueError      // crossing bounds, zero step, infinite start, non-boolean flag
    | AttributeError  // reading `_resolution` on a range built without bounds
    | PlainException  // `raise Exception(...)`: pentad out of range, hours/days at infinity

  datatype Result<+T> = Ok(value: T) | Err(error: Error)

  /** The outcome of a call made only for its effect (a setter). */
  datatype Outcome = Pass | Fail(error: Error)

  /** How a lazily pulled sequence ends after the items it has produced:
      the next pull raises StopIteration, raises an exception, or was not made
      because the caller's pull budget ran out. */
  datatype Stop = Exhausted | Raised(error: Error) | LimitReached

  /** What a Python generator produced for its caller: the items it yielded,
      in order, and how the pull after the last of them ended. */
  datatype Gen<+T> = Gen(items: seq<T>, stop: Stop)
}

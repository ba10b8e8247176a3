/** Failure-carrying datatypes shared by the decoder model. */
module Wrappers {

  /** An optional field value: `None` is the absent value of an optional field. */
  datatype Option<+T> = None | Some(value: T) {

    /** Rust's `Option::unwrap_or`. */
    function UnwrapOr(default: T): T {
      match this
      case Some(v) => v
      case None => default
    }
  }

  /** The outcome of one parser step, in the shape of nom's `IResult`: on success the
      unconsumed input and the decoded value. Every error kind of the parser collapses
      into the single `Failure`, because the packet decoders report only `Err(())`. */
  datatype Result<+T> = Failure | Success(rest: seq<char>, value: T)
}

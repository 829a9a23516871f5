/** Result shapes shared by the model.
    - `Option` stands for a C# reference that may be null.
    - `Result` is a deterministic computation that either returns or throws a .NET exception.
    - `Outcome` is a randomized retry loop: it returns, throws, or (only in the model) exhausts the
      injected random stream before the source's unbounded loop would have stopped. */
module Wrappers {

  datatype Option<+T> = None | Some(value: T)

  /** The .NET exceptions the modelled code can raise. */
  datatype Fault =
    | ArgumentOutOfRange   // ArgumentOutOfRangeException
    | IndexOutOfRange      // IndexOutOfRangeException
    | Overflow             // OverflowException (negative array length)
    | Format               // FormatException (malformed Base64)

  datatype Result<+T> = Ok(value: T) | Err(fault: Fault)

  datatype Outcome<+T> = Done(value: T) | Threw(fault: Fault) | Exhausted
}

/** Option, Result and Outcome types shared by the modules of the catalogue
    builder, and the two ways a step of the builder can fail. */
module Wrappers {

  datatype Option<+T> = None | Some(value: T) {
    function GetOr(default: T): T {
      match this
      case Some(v) => v
      case None => default
    }
  }

  /** How a step aborts: an `Err` returned through `?` (`Failure`), or a
      `panic!` raised by `unwrap`, `expect` or an out-of-range index (`Panic`). */
  datatype Error = Failure(message: string) | Panic(message: string)

  datatype Result<+T> = Ok(value: T) | Err(error: Error)

  /** The outcome of a step that returns `anyhow::Result<()>`. */
  datatype Outcome = Pass | Fail(error: Error)
}

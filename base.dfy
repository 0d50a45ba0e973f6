/** Option and panic-carrying results shared by every module of the model. */
module Base {

  /** Rust's `Option`. */
  datatype Option<+T> = None | Some(value: T)

  /** The value of a computation that may end in a Rust `panic!` with the given message. */
  datatype Result<+T> = Ok(value: T) | Panic(message: string)

  function Min(a: real, b: real): real { if a <= b then a else b }
  function Max(a: real, b: real): real { if a >= b then a else b }
}

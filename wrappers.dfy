/** Option and Result, the two failure-carrying values the model uses.
    `None` stands for a Rust `panic!` in a lookup table (`Reg::new`, `decode`);
    `Panic` for a panic in the middle of a state change of the emulator. */
module Wrappers {

  datatype Option<+T> = None | Some(value: T)

  datatype Result<+T> = Ok(value: T) | Panic(reason: string)
}

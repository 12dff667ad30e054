/** How a call across the foreign boundary ends, and the pointers it passes. */
module Runtime {

  /** `Aborted` stands for a failed Rust `assert!` or a panic; both end the
      host process, so no state survives them. */
  datatype Outcome<+T> = Returned(value: T) | Aborted

  /** A grid pointer across the boundary: `None` is the null pointer,
      `Some` the cells it points to. It is used for grid handles only. */
  datatype Option<+T> = None | Some(value: T)
}

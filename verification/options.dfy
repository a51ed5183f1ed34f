/** A reference that may be `null`. */
module Options {

  /** `None` stands for `null`. */
  datatype Option<+T> = None | Some(value: T)
}

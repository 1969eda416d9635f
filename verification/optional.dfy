/** The "nil or a value" result the validators of the store return. */
module Optional {

  /** `None` plays the part of Ruby's `nil`; `Some(v)` of any non-nil value. */
  datatype Option<+T> = None | Some(value: T)
}

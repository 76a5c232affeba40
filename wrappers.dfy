/** The optional-value wrapper used where a JavaScript expression can throw. */
module Wrappers {

  /** `None` stands for a thrown TypeError, `Some(v)` for a normal result. */
  datatype Option<+T> = None | Some(value: T)
}

/** The optional-value datatype the model uses for PHP's `false`-or-value returns. */
module Wrappers {

  datatype Option<+T> = None | Some(value: T)
}

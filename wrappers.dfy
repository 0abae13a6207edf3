/** An optional value; stands for the nullable `res` pointer. */
module Wrappers {

  datatype Option<+T> = None | Some(value: T)
}

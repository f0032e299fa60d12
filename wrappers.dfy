/** Small helper datatypes shared by the model. */
module Wrappers {

  /** An optional value; stands for a Kotlin nullable such as the result of `toIntOrNull`. */
  datatype Option<+T> = None | Some(value: T)
}

/** The optional-value datatype shared by every module of the model. A `None`
    stands for a C `NULL` pointer, an absent file or a failed parse. */
module Wrappers {
  datatype Option<+T> = None | Some(value: T)
}

/** The optional value used throughout the model: a pending timer, a shown
    notification, a matching section index. */
module Wrappers {

  datatype Option<+T> = None | Some(value: T)

}

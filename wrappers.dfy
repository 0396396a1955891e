/** The optional value used for "no match" and "no such entry" results. */
module Wrappers {

  datatype Option<T> = None | Some(value: T)

}

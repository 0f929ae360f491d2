/** An optional value: the difference image that the inner-diameter check
    returns only when it found a deviation. */
module Wrappers {

  datatype Option<T> = None | Some(value: T)
}

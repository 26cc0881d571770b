/** The optional value the heap's extraction returns, and the model's way of
    saying that an operation stops on an out-of-range index. */
module Wrappers {

  datatype Option<T> = None | Some(value: T)
}

/** The optional value that stands for TypeScript's `T | undefined` and `param?: T`. */
module Wrappers {

  datatype Option<+T> = None | Some(value: T)
}

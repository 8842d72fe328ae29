/** Option, the absent-value signal of the resolvers (JavaScript's undefined and null). */
module Wrappers {

  datatype Option<+T> = None | Some(value: T)
}

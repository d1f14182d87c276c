// A NULL-able C pointer or an absent lookup result.
module Opt {
  datatype Option<T> = None | Some(value: T)
}

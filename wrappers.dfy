/** An optional value, shared by the codec and the plugin */
module Wrappers {
  datatype Option<T> = None | Some(value: T)
}

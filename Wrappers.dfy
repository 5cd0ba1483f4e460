/** An optional value: `None` stands for "not found" or "no value supplied". */
module Wrappers {
  datatype Option<+T> = None | Some(value: T)
}

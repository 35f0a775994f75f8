/** Values that may be absent: the null pointers and failed lookups of the programs modelled here. */
module Wrappers {
  datatype Option<+T> = None | Some(value: T)
}

/** Options, as the source's std::optional and null results. */
module Wrappers {
  datatype Option<+T> = None | Some(value: T)
}

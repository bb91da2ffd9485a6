/** The optional value used for std::optional in the meshlet helpers. */
module Wrappers {

  /** Some/None, standing for std::optional<T> (nullopt is None). */
  datatype Option<+T> = None | Some(value: T)
}

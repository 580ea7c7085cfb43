/** The optional value the conversion engine's scans produce. */
module Wrappers {

  datatype Option<T> = None | Some(value: T)
}

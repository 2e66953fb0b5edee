/** The optional-value datatype used for stat outcomes and dictionary lookups. */
module Wrappers {

  datatype Option<+T> = None | Some(value: T)
}

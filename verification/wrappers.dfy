/** A value that may be missing: a query that found no document, a JSON field that is absent. */
module Wrappers {

  datatype Option<+T> = None | Some(value: T)
}

/** Optional values: a SQL NULL, an absent request field, a query that found no row. */
module Wrappers {
  datatype Option<+T> = None | Some(value: T)
}

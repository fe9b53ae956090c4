/** The optional-value type used wherever the page script reads something that may be absent:
    a form value that `FormData.get` reports as `null`, a DOM lookup that finds nothing. */
module Wrappers {
  datatype Option<+T> = None | Some(value: T)
}

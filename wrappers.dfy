/** The optional-value datatype used for the DOM's nullable results
    (`getAttribute`, `querySelector`, `previousElementSibling`) and for the
    outcome of the abstract XML parser. */
module Wrappers {

  datatype Option<+T> = None | Some(value: T)
}

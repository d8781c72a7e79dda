/** The optional value of a spreadsheet cell: None is an empty cell. */
module Wrappers {

  datatype Option<+T> = None | Some(value: T)
}

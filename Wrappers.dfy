/** The optional value that `std::optional` stands for in the spreadsheet engine. */
module Wrappers {
  datatype Option<+T> = None | Some(value: T)
}

/** The optional value used for conversions that can fail (`Path::to_str`) and for the optional ignore matcher. */
module Wrappers {

  datatype Option<+T> = None | Some(value: T)

}

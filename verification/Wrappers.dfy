/** The optional value used wherever the status script sees "something or nothing":
    the decoded helper output (`null` or a record) and the results of the readers. */
module Wrappers {

  datatype Option<+T> = None | Some(value: T)

}

/** The optional value used where the Python code may have nothing to return
    (a failed `int(..., 16)`, an unbound `cat_name`, an image never produced). */
module Wrappers {

  datatype Option<+T> = None | Some(value: T)
}

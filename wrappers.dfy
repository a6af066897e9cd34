/** The usual optional value, used wherever the source may get `None` back
    (a lookup that finds nothing, an element without text). */
module Wrappers {

  datatype Option<+T> = None | Some(value: T)
}

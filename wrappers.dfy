/** The JavaScript `undefined` fall-through, made explicit. */
module Wrappers {

  datatype Option<+T> = None | Some(value: T)

}

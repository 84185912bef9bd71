/** An optional value, standing for a TypeScript property that may be `undefined`. */
module Wrappers {

  datatype Option<+T> = None | Some(value: T)
}

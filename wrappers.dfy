/** The optional value the annotator returns where the TypeScript code returns `undefined`. */
module Wrappers {
  datatype Option<+T> = None | Some(value: T)
}

/** The conventional optional value, standing for a TypeScript optional (`config?`). */
module Wrappers {
  datatype Option<+T> = None | Some(value: T)
}

/** The optional value the services return where TypeScript returns
    `null` or `undefined`. */
module Wrappers {

  datatype Option<+T> = None | Some(value: T)
}

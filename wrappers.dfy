/** A value that may be absent: a JavaScript `undefined`/`null`, or an
    external call that threw instead of returning. */
module Wrappers {
  datatype Option<+T> = None | Some(value: T)
}

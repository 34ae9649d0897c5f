/** The optional value returned across the queue's interface: `None` is the
    empty-queue signal, `Some(v)` carries a released value. */
module Wrappers {

  datatype Option<+T> = None | Some(value: T)
}

/** The optional value returned by a transition lookup: `None` is the
    "no transition" answer, distinct from every state id (including 0). */
module Wrappers {
  datatype Option<+T> = None | Some(value: T)
}

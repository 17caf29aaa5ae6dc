/** The optional value used wherever the hook holds a nullable reference
    (`useRef<P | null>(null)`, a timeout handle or `null`) or the caller may
    leave an option out. */
module Wrappers {

  datatype Option<+T> = None | Some(value: T)
}

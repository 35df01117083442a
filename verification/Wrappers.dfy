/** The optional value that stands for nullable fields and for what a `TryGet` may find. */
module Wrappers {
  datatype Option<T> = None | Some(value: T) {
    /** This value when there is one, otherwise the other, as `??` does. */
    function Or(other: Option<T>): Option<T> {
      if Some? then this else other
    }
  }
}

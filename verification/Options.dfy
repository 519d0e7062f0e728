/** The optional value used throughout. */
module Options {
  datatype Option<+T> = None | Some(value: T) {
    function Or(other: T): T {
      if Some? then value else other
    }

    function OrElse(other: Option<T>): Option<T> {
      if Some? then this else other
    }
  }
}

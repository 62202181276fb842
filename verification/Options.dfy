/** A value that may be absent. */
module Options {

  datatype Option<+T> = None | Some(value: T) {
    function OrElse(other: T): T {
      if Some? then value else other
    }
  }
}

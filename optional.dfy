/** The absent-or-present value that stands for Python's `None` and for an
    attribute lookup that would raise inside a `try`/`except`. */
module Optional {

  datatype Option<+T> = None | Some(value: T) {

    /** The wrapped value, or `default` when there is none. */
    function GetOr(default: T): T {
      match this
      case Some(v) => v
      case None => default
    }
  }
}

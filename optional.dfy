/** A value that may be missing: a failed call, an absent HTML node, an
    exception that the source turns into a fallback. */
module Optional {

  datatype Option<+T> = None | Some(value: T) {

    /** The value, or `default` when there is none. */
    function GetOr(default: T): T {
      match this
      case Some(v) => v
      case None => default
    }
  }
}

/** Small shared vocabulary: Python's `None`-or-value fields. */
module Base {

  /** A nullable value: `None` stands for Python's `None`. */
  datatype Option<+T> = None | Some(value: T) {

    /** The value, or `default` when there is none (Python's `x or default`
        for fields that are either `None` or a string). */
    function GetOr(default: T): T {
      match this
      case Some(v) => v
      case None => default
    }
  }
}

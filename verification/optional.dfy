/** The absent-or-present value used for form fields, parsed dates and
    nullable columns (JavaScript `null`, `undefined` and SQL NULL). */
module Optional {

  datatype Option<+T> = None | Some(value: T) {

    /** The value, or `default` when there is none. */
    function GetOr(default: T): T {
      match this
      case Some(v) => v
      case None => default
    }
  }
}

/** The nullable value used for `published_date` and for page lookups. */
module Wrappers {

  /** A value that may be absent (a SQL NULL, a page that does not exist). */
  datatype Option<+T> = None | Some(value: T) {

    /** The value held, or `default` when there is none. */
    function GetOr(default: T): T {
      match this
      case Some(v) => v
      case None => default
    }
  }
}

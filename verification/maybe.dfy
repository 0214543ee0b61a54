/** The optional value used wherever the scraper reads something that may be absent
    (a missing dictionary key, an element without an href, a fetch with no page). */
module Maybe {

  datatype Option<+T> = None | Some(value: T) {

    /** Returns the value, or `default` when there is none. */
    function GetOr(default: T): T {
      match this
      case Some(v) => v
      case None => default
    }
  }
}

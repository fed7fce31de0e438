/** The optional value the handlers use for SQL NULL, an absent request field
    and a lookup that finds no row. */
module Wrappers {

  datatype Option<+T> = None | Some(value: T) {

    /** The value, or `default` when there is none (JavaScript's `x || default`
        for a NULL column). */
    function GetOr(default: T): T
    {
      match this
      case Some(v) => v
      case None => default
    }
  }

  /** A request-body text field JavaScript treats as false: absent or empty. */
  predicate Falsy(s: Option<string>) { s.None? || s.value == "" }
}

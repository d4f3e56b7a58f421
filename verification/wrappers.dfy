/** The optional value every pattern lookup of the extractor returns: a JavaScript
    `String.prototype.match` either yields a match array or `null`. */
module Wrappers {

  datatype Option<+T> = None | Some(value: T) {

    /** The value, or `default` when there is none (the extractor's `m ? m[1] : default`). */
    function GetOr(default: T): T {
      match this
      case Some(v) => v
      case None => default
    }
  }
}

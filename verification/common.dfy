/** Shared optional value. `None` plays the part of a JavaScript field that is
    `undefined` (absent from the object). */
module Common {

  datatype Option<+T> = None | Some(value: T) {

    /** The wrapped value, or `default` when absent. */
    function GetOr(default: T): T
    {
      match this
      case Some(v) => v
      case None => default
    }
  }
}

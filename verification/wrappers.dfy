/** The optional value used wherever the source returns `null`/`undefined`
    or reads a field that may be missing. */
module Wrappers {

  datatype Option<+T> = None | Some(value: T) {

    function GetOr(default: T): T
    {
      match this
      case Some(v) => v
      case None => default
    }
  }

  /** Some element of a non-empty set: a ghost name for the element that a
      following `:|` in compiled code picks. */
  lemma ElementOf<T>(s: set<T>) returns (x: T)
    requires s != {}
    ensures x in s
  {
    x :| x in s;
  }
}

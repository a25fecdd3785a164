/** An optional value: a parse that may fail, an event that may have no
    target, a gauge setting that may never have happened. */
module Wrappers {

  datatype Option<T> = None | Some(value: T)
  {
    function GetOr(default: T): T
    {
      match this
      case Some(v) => v
      case None => default
    }
  }
}

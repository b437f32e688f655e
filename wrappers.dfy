// Optional values, standing in for Unreal's TOptional<T>.
module Wrappers {

  datatype Option<T> = None | Some(value: T) {

    /** TOptional::Get(Default): the stored value when set, otherwise the default. */
    function GetOr(default: T): (r: T)
      ensures Some? ==> r == value
      ensures None? ==> r == default
    {
      match this
      case None => default
      case Some(v) => v
    }
  }
}

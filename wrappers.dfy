/** Optional values: the model's stand-in for Python's `None` and for calls
    that raise instead of returning. */
module Wrappers {

  datatype Option<+T> = None | Some(value: T)

  /** The zero- or one-element sequence held by an option. */
  function ToSeq<T>(o: Option<T>): seq<T>
  {
    match o
    case None => []
    case Some(v) => [v]
  }
}

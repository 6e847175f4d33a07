/** Optional values: a reading that a frame tick may or may not produce, and
    the display link that a label may or may not hold. */
module Wrappers {

  datatype Option<+T> = None | Some(value: T)

  /** The values an optional result contributes to a stream of results. */
  function Emitted<T>(o: Option<T>): (s: seq<T>)
    ensures |s| <= 1
  {
    match o
    case None => []
    case Some(v) => [v]
  }
}

/** The Some/None datatype used for values that JavaScript represents as
    `undefined` or as a missing attribute. */
module Wrappers {

  datatype Option<+T> = None | Some(value: T)

  /** The values carried in an Option, as a sequence of length zero or one. */
  function ToSeq<T>(o: Option<T>): (r: seq<T>)
    ensures |r| <= 1
    ensures o.Some? <==> |r| == 1
    ensures o.Some? ==> r[0] == o.value
  {
    match o
    case None => []
    case Some(v) => [v]
  }
}

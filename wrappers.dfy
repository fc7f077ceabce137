/** The optional value returned wherever the allocator may hand back nullptr. */
module Wrappers {

  datatype Option<+T> = None | Some(value: T)

  /** The set holding the value of `o`, or the empty set for None. */
  function Elems<T>(o: Option<T>): (s: set<T>)
    ensures o.None? <==> s == {}
    ensures o.Some? ==> o.value in s && |s| == 1
  {
    match o
    case None => {}
    case Some(v) => {v}
  }
}

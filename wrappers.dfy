/** Optional values: the model's stand-in for Kotlin's nullable types. */
module Wrappers {

  datatype Option<+T> = None | Some(value: T)

  /** The elements of an optional value, as a set (null contributes nothing). */
  function OptionSet<T>(o: Option<T>): (r: set<T>)
    ensures o.None? <==> r == {}
    ensures o.Some? ==> r == {o.value}
  {
    match o
    case None => {}
    case Some(v) => {v}
  }
}

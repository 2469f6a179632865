/** General-purpose values the rewriter's modules share: an optional value
    and the concatenating map of an iterator's `flat_map`. */
module Collections {

  datatype Option<T> = None | Some(value: T)

  /** Concatenation of `f` applied to every element, in order. */
  function FlatMap<T, U>(f: T -> seq<U>, xs: seq<T>): seq<U>
  {
    if xs == [] then [] else f(xs[0]) + FlatMap(f, xs[1..])
  }
}

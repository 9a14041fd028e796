/** A value that may be absent: a Java reference that may be null. */
module Common {

  datatype Option<T> = None | Some(value: T)

  /** True when no element of `xs` is absent (no null element in a Java list). */
  ghost predicate AllPresent<T>(xs: seq<Option<T>>)
  {
    forall i :: 0 <= i < |xs| ==> xs[i].Some?
  }
}

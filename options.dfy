/** A nullable column value: `None` is SQL null. */
module Options {

  datatype Option<+T> = None | Some(value: T)

  /** `a == b` between two nullable columns inside a filter or join
      condition: a comparison with null is null, and a condition that is
      null keeps no row, so the result holds only when both sides are
      non-null and equal. */
  predicate SqlEquals<T(==)>(a: Option<T>, b: Option<T>)
    ensures SqlEquals(a, b) <==> a != None && a == b
    ensures a == None || b == None ==> !SqlEquals(a, b)
  {
    a.Some? && b.Some? && a.value == b.value
  }
}

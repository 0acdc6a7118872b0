/** Value types shared by the grouping function and both diff algorithms. */
module Results {

  /** A possibly absent value; `None` stands for a Java `null` reference where the source accepts one. */
  datatype Option<+T> = None | Some(value: T)

  /** How a Java call ends: it returns normally, or it throws a ConcurrentModificationException. */
  datatype Completion<+R> = Normal(value: R) | ConcurrentModification

  /** The result holder `DiffAndIntersect`: records only in A, records only in B, and records in both. */
  datatype DiffAndIntersect<T> = DiffAndIntersect(diffA: seq<T>, diffB: seq<T>, intersect: seq<T>)
}

// Shared vocabulary of the model: failures the engine raises, Kotlin's null,
// and the ordering contract that `Comparable` stands for.
module Base {

  /** The exceptions the modelled code throws, one constructor per cause. */
  datatype Error =
    | EmptyCollection      // `reduce` on an empty collection
    | TriangleInequality   // gradient-cast's `check` on an accumulated distance
    | EmptyRange           // `coerceIn` with a lower bound above the upper bound
    | AlignmentClash       // a second default for a path already in the envelope
    | NoResult             // `runUntil` returned without having run a round

  datatype Result<T> = Success(value: T) | Failure(error: Error)

  datatype Outcome = Pass | Fail(error: Error)

  datatype Option<T> = None | Some(value: T)

  /** A Kotlin value of nullable type: `Null` is `null`. */
  datatype Nullable<T> = Null | NonNull(value: T)

  /** What `Comparable.compareTo` promises, with `le(a, b)` read as `a <= b`. */
  ghost predicate TotalPreorder<T(!new)>(le: (T, T) -> bool)
  {
    && (forall x :: le(x, x))
    && (forall x, y :: le(x, y) || le(y, x))
    && (forall x, y, z :: le(x, y) && le(y, z) ==> le(x, z))
  }
}

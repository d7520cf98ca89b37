/**
 * The three-variant These value: only a failure, only a success, or both.
 * Only the two operations the transformer needs are given here: the exhaustive
 * `fold` and the success-side `map`.
 */
module TheseData {

  datatype These<+E, +A> = Left(left: E) | Right(right: A) | Both(left: E, right: A)

  function Fold<E, A, R>(t: These<E, A>, onLeft: E -> R, onRight: A -> R, onBoth: (E, A) -> R): R
  {
    match t
    case Left(e) => onLeft(e)
    case Right(a) => onRight(a)
    case Both(e, a) => onBoth(e, a)
  }

  function Map<E, A, B>(t: These<E, A>, f: A -> B): These<E, B>
  {
    match t
    case Left(e) => Left(e)
    case Right(a) => Right(f(a))
    case Both(e, a) => Both(e, f(a))
  }
}

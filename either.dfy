/**
 * The Either effect with its fail-fast Apply/Monad instance: the first `left`
 * reached wins.
 */
module EitherM {

  datatype Either<+E, +A> = Left(left: E) | Right(right: A)

  function Map<E, A, B>(fa: Either<E, A>, f: A -> B): Either<E, B>
  {
    match fa
    case Left(e) => Left(e)
    case Right(a) => Right(f(a))
  }

  /** `ap`: a `left` function wins, then a `left` argument, otherwise the application. */
  function Ap<E, A, B>(fab: Either<E, A -> B>, fa: Either<E, A>): Either<E, B>
  {
    match fab
    case Left(e) => Left(e)
    case Right(f) =>
      match fa
      case Left(e) => Left(e)
      case Right(a) => Right(f(a))
  }

  function Of<E, A>(a: A): Either<E, A>
  {
    Right(a)
  }

  function Chain<E, A, B>(ma: Either<E, A>, f: A -> Either<E, B>): Either<E, B>
  {
    match ma
    case Left(e) => Left(e)
    case Right(a) => f(a)
  }
}

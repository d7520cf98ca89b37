/**
 * The accumulating ("validation") Apply instance over Either: when both sides
 * of `ap` are `left`, their errors are joined with the supplied Semigroup.
 */
module ValidationM {
  import opened EitherM
  import opened Algebra

  function Map<E, A, B>(fa: Either<E, A>, f: A -> B): Either<E, B>
  {
    EitherM.Map(fa, f)
  }

  /** `ap`: two `left`s concatenate (function side first); one `left` wins; otherwise the application. */
  function Ap<E, A, B>(S: Semigroup<E>, fab: Either<E, A -> B>, fa: Either<E, A>): Either<E, B>
  {
    match fab
    case Left(e1) =>
      (match fa
       case Left(e2) => Left(S.concat(e1, e2))
       case Right(_) => Left(e1))
    case Right(f) =>
      match fa
      case Left(e2) => Left(e2)
      case Right(a) => Right(f(a))
  }
}

/**
 * The Option effect, used as a fixture Apply/Monad instance: `none` absorbs,
 * `some` carries a value.
 */
module OptionM {

  datatype Option<+A> = None | Some(value: A)

  function Map<A, B>(fa: Option<A>, f: A -> B): Option<B>
  {
    match fa
    case None => None
    case Some(a) => Some(f(a))
  }

  /** `ap`: `none` if either side is `none`, otherwise the held function applied to the held value. */
  function Ap<A, B>(fab: Option<A -> B>, fa: Option<A>): Option<B>
  {
    match fab
    case None => None
    case Some(f) => Map(fa, f)
  }

  function Of<A>(a: A): Option<A>
  {
    Some(a)
  }

  function Chain<A, B>(ma: Option<A>, f: A -> Option<B>): Option<B>
  {
    match ma
    case None => None
    case Some(a) => f(a)
  }
}

/**
 * The closed-form combinators of src/Apply.ts: `liftA2`/`liftA3`/`liftA4`,
 * `applyFirst`/`applySecond` and `getSemigroup`. Each is a composition of the
 * effect's `map` and `ap`. They are instantiated at Option and at the
 * accumulating validation, where the order of the `ap`s decides how errors
 * are joined.
 */
module Apply {
  import opened Algebra
  import opened OptionM
  import EitherM
  import ValidationM

  // ---------------------------------------------------------------------------
  // Option
  // ---------------------------------------------------------------------------

  /** `liftA2(option)(f)(fa)(fb) = ap(map(fa, f), fb)`. */
  function LiftA2Option<A, B, C>(f: A -> B -> C, fa: Option<A>, fb: Option<B>): Option<C>
  {
    Ap(Map(fa, f), fb)
  }

  /** `liftA3`: one more `ap`, nested to the left. */
  function LiftA3Option<A, B, C, D>(f: A -> B -> C -> D, fa: Option<A>, fb: Option<B>, fc: Option<C>): Option<D>
  {
    Ap(Ap(Map(fa, f), fb), fc)
  }

  /** `liftA4`: one more `ap` again. */
  function LiftA4Option<A, B, C, D, E>(f: A -> B -> C -> D -> E, fa: Option<A>, fb: Option<B>, fc: Option<C>, fd: Option<D>): Option<E>
  {
    Ap(Ap(Ap(Map(fa, f), fb), fc), fd)
  }

  /** `applyFirst(option)(fa, fb) = ap(map(fa, constant), fb)`. */
  function ApplyFirstOption<A, B>(fa: Option<A>, fb: Option<B>): Option<A>
  {
    Ap(Map(fa, (a: A) => (_: B) => a), fb)
  }

  /** `applySecond(option)(fa, fb) = ap(map(fa, () => b => b), fb)`. */
  function ApplySecondOption<A, B>(fa: Option<A>, fb: Option<B>): Option<B>
  {
    Ap(Map(fa, (_: A) => (b: B) => b), fb)
  }

  /** `getSemigroup(option, S)()`, whose `concat` is `LiftedConcat`. */
  function GetSemigroupOption<A>(S: Semigroup<A>): Semigroup<Option<A>>
  {
    Semigroup((x: Option<A>, y: Option<A>) => LiftedConcat(S, x, y))
  }

  /** `concat(x, y) = ap(map(x, a => b => S.concat(a, b)), y)`. */
  function LiftedConcat<A>(S: Semigroup<A>, x: Option<A>, y: Option<A>): Option<A>
  {
    Ap(Map(x, (a: A) => (b: A) => S.concat(a, b)), y)
  }

  /** `liftA2` applies `f` exactly when both arguments are present. */
  lemma LiftA2OptionSemantics<A, B, C>(f: A -> B -> C, fa: Option<A>, fb: Option<B>)
    ensures LiftA2Option(f, fa, fb).Some? <==> fa.Some? && fb.Some?
    ensures fa.Some? && fb.Some? ==> LiftA2Option(f, fa, fb) == Some(f(fa.value)(fb.value))
  {
  }

  /** `liftA3` and `liftA4` extend the `liftA2` chain by one left-nested `ap` each, and apply `f` exactly when all arguments are present. */
  lemma LiftChainsExtend<A, B, C, D, E>(f: A -> B -> C -> D -> E, fa: Option<A>, fb: Option<B>, fc: Option<C>, fd: Option<D>)
    ensures LiftA3Option(f, fa, fb, fc) == Ap(LiftA2Option(f, fa, fb), fc)
    ensures LiftA4Option(f, fa, fb, fc, fd) == Ap(LiftA3Option(f, fa, fb, fc), fd)
    ensures LiftA4Option(f, fa, fb, fc, fd).Some? <==> fa.Some? && fb.Some? && fc.Some? && fd.Some?
    ensures LiftA4Option(f, fa, fb, fc, fd).Some? ==>
      LiftA4Option(f, fa, fb, fc, fd).value == f(fa.value)(fb.value)(fc.value)(fd.value)
  {
  }

  /** `applyFirst` keeps the first value, `applySecond` the second; both need both present. */
  lemma ApplyFirstSecondOption<A, B>(fa: Option<A>, fb: Option<B>)
    ensures ApplyFirstOption(fa, fb) == (if fa.Some? && fb.Some? then fa else None)
    ensures ApplySecondOption(fa, fb) == (if fa.Some? && fb.Some? then fb else None)
  {
  }

  /** `none` absorbs on either side, and two values are joined by `S`. */
  lemma OptionSemigroupAbsorbs<A>(S: Semigroup<A>, x: Option<A>)
    ensures GetSemigroupOption(S).concat(None, x) == None
    ensures GetSemigroupOption(S).concat(x, None) == None
    ensures forall a: A, b: A :: GetSemigroupOption(S).concat(Some(a), Some(b)) == Some(S.concat(a, b))
  {
  }

  /** The example: with integer sum, `some(1) <> some(2) = some(3)` and any `none` gives `none`. */
  lemma OptionSemigroupSumExample()
    ensures GetSemigroupOption(SemigroupOf(SumMonoid())).concat(Some(1), Some(2)) == Some(3)
    ensures GetSemigroupOption(SemigroupOf(SumMonoid())).concat(Some(1), None) == None
    ensures GetSemigroupOption(SemigroupOf(SumMonoid())).concat(None, Some(2)) == None
  {
  }

  /** The lifted semigroup is associative whenever `S` is. */
  lemma OptionSemigroupAssociative<A(!new)>(S: Semigroup<A>)
    requires Associative(S)
    ensures Associative(GetSemigroupOption(S))
  {
    var T := GetSemigroupOption(S);
    forall x: Option<A>, y: Option<A>, z: Option<A>
      ensures T.concat(T.concat(x, y), z) == T.concat(x, T.concat(y, z))
    {
      assert T.concat(x, y) == LiftedConcat(S, x, y);
      assert T.concat(y, z) == LiftedConcat(S, y, z);
      if x.Some? && y.Some? && z.Some? {
        assert S.concat(S.concat(x.value, y.value), z.value) == S.concat(x.value, S.concat(y.value, z.value));
      }
    }
  }

  // ---------------------------------------------------------------------------
  // Validation: `ap` joins the errors of both sides
  // ---------------------------------------------------------------------------

  function LiftA2Validation<E, A, B, C>(S: Semigroup<E>, f: A -> B -> C, fa: EitherM.Either<E, A>, fb: EitherM.Either<E, B>): EitherM.Either<E, C>
  {
    ValidationM.Ap(S, ValidationM.Map(fa, f), fb)
  }

  function ApplyFirstValidation<E, A, B>(S: Semigroup<E>, fa: EitherM.Either<E, A>, fb: EitherM.Either<E, B>): EitherM.Either<E, A>
  {
    ValidationM.Ap(S, ValidationM.Map(fa, (a: A) => (_: B) => a), fb)
  }

  function ApplySecondValidation<E, A, B>(S: Semigroup<E>, fa: EitherM.Either<E, A>, fb: EitherM.Either<E, B>): EitherM.Either<E, B>
  {
    ValidationM.Ap(S, ValidationM.Map(fa, (_: A) => (b: B) => b), fb)
  }

  /** With an accumulating `ap` the first argument's errors come first, then the second's. */
  lemma LiftA2ValidationSemantics<E, A, B, C>(S: Semigroup<E>, f: A -> B -> C, fa: EitherM.Either<E, A>, fb: EitherM.Either<E, B>)
    ensures LiftA2Validation(S, f, fa, fb) ==
      match (fa, fb)
      case (Left(e1), Left(e2)) => EitherM.Left(S.concat(e1, e2))
      case (Left(e1), Right(_)) => EitherM.Left(e1)
      case (Right(_), Left(e2)) => EitherM.Left(e2)
      case (Right(a), Right(b)) => EitherM.Right(f(a)(b))
  {
  }

  /** `applyFirst`/`applySecond` keep one value but keep the errors of both sides, first side first. */
  lemma ApplyFirstSecondValidation<E, A, B>(S: Semigroup<E>, fa: EitherM.Either<E, A>, fb: EitherM.Either<E, B>)
    ensures fa.Right? && fb.Right? ==> ApplyFirstValidation(S, fa, fb) == fa && ApplySecondValidation(S, fa, fb) == fb
    ensures fa.Left? && fb.Left? ==>
      ApplyFirstValidation(S, fa, fb) == EitherM.Left(S.concat(fa.left, fb.left)) &&
      ApplySecondValidation(S, fa, fb) == EitherM.Left(S.concat(fa.left, fb.left))
    ensures fa.Left? != fb.Left? ==>
      var e := if fa.Left? then fa.left else fb.left;
      ApplyFirstValidation(S, fa, fb) == EitherM.Left(e) && ApplySecondValidation(S, fa, fb) == EitherM.Left(e)
  {
  }
}

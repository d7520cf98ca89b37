/**
 * The These monad transformer of src/TheseT.ts: `TheseT<M, E, A> = M<These<E, A>>`.
 * Errors are accumulated through `chain` with a `Semigroup<E>`. `M` is
 * instantiated at Identity (plain names) and at Option (names ending in
 * `Option`).
 */
module TheseT {
  import opened Algebra
  import opened TheseData
  import Identity
  import OptionM

  /** The inner fold of `chain_` on `both(e1, a)`: joins `e1` into whatever `f(a)` produced. */
  function Absorb<E, B>(S: Semigroup<E>, e1: E, t: These<E, B>): These<E, B>
  {
    Fold(t, (e2: E) => Left(S.concat(e1, e2)), (b: B) => Both(e1, b), (e2: E, b: B) => Both(S.concat(e1, e2), b))
  }

  lemma AbsorbCases<E, B>(S: Semigroup<E>, e1: E, t: These<E, B>)
    ensures t.Left? ==> Absorb(S, e1, t) == Left(S.concat(e1, t.left))
    ensures t.Right? ==> Absorb(S, e1, t) == Both(e1, t.right)
    ensures t.Both? ==> Absorb(S, e1, t) == Both(S.concat(e1, t.left), t.right)
  {
  }

  // ---------------------------------------------------------------------------
  // M = Identity
  // ---------------------------------------------------------------------------

  /** `right_(M) = flow(T.right, M.of)`. */
  function Right_<E, A>(a: A): Identity.Identity<These<E, A>>
  {
    Identity.Of(Right(a))
  }

  /** `left_(M) = flow(T.left, M.of)`. */
  function Left_<E, A>(e: E): Identity.Identity<These<E, A>>
  {
    Identity.Of(Left(e))
  }

  /** `both_(M) = flow(T.both, M.of)`. */
  function Both_<E, A>(e: E, a: A): Identity.Identity<These<E, A>>
  {
    Identity.Of(Both(e, a))
  }

  /** `rightF_(F)(fa) = F.map(fa, T.right)`. */
  function RightF_<E, A>(fa: Identity.Identity<A>): Identity.Identity<These<E, A>>
  {
    Identity.Map(fa, (a: A) => Right(a))
  }

  /** `leftF_(F)(fe) = F.map(fe, T.left)`. */
  function LeftF_<E, A>(fe: Identity.Identity<E>): Identity.Identity<These<E, A>>
  {
    Identity.Map(fe, (e: E) => Left(e))
  }

  /** `chain_(M, S)(f)(ma)`: the 3 by 3 case analysis on the These held by `ma` and by `f(a)`. */
  function Chain_<E, A, B>(S: Semigroup<E>, f: A -> Identity.Identity<These<E, B>>, ma: Identity.Identity<These<E, A>>): Identity.Identity<These<E, B>>
  {
    Identity.Chain(ma, (t: These<E, A>) =>
      Fold(t, (e: E) => Left_(e), f, (e1: E, a: A) => Identity.Map(f(a), (t2: These<E, B>) => Absorb(S, e1, t2))))
  }

  /** `fold_(M)(onLeft, onRight, onBoth)(ma) = M.chain(ma, T.fold(onLeft, onRight, onBoth))`. */
  function Fold_<E, A, R>(onLeft: E -> Identity.Identity<R>, onRight: A -> Identity.Identity<R>, onBoth: (E, A) -> Identity.Identity<R>, ma: Identity.Identity<These<E, A>>): Identity.Identity<R>
  {
    Identity.Chain(ma, (t: These<E, A>) => Fold(t, onLeft, onRight, onBoth))
  }

  /** `getTheseM(M).map`. */
  function MapT<E, A, B>(fa: Identity.Identity<These<E, A>>, f: A -> B): Identity.Identity<These<E, B>>
  {
    Identity.Map(fa, (t: These<E, A>) => TheseData.Map(t, f))
  }

  /** `getTheseM(M).of` (also its `right`). */
  function OfT<E, A>(a: A): Identity.Identity<These<E, A>>
  {
    Identity.Of(Right(a))
  }

  /** `getTheseM(M).left`. */
  function LeftT<E, A>(e: E): Identity.Identity<These<E, A>>
  {
    Identity.Of(Left(e))
  }

  /** `getTheseM(M).getMonad(S).chain`, written out again in the source with `leftT` for `left_`. */
  function GetMonadChain<E, A, B>(S: Semigroup<E>, fa: Identity.Identity<These<E, A>>, f: A -> Identity.Identity<These<E, B>>): Identity.Identity<These<E, B>>
  {
    Identity.Chain(fa, (t: These<E, A>) =>
      Fold(t, (e: E) => LeftT(e), f, (e1: E, a: A) => Identity.Map(f(a), (t2: These<E, B>) => Absorb(S, e1, t2))))
  }

  /** `getTheseM(M).getMonad(S).ap(mab, ma) = chain(mab, f => mapT(ma, f))`. */
  function GetMonadAp<E, A, B>(S: Semigroup<E>, mab: Identity.Identity<These<E, A -> B>>, ma: Identity.Identity<These<E, A>>): Identity.Identity<These<E, B>>
  {
    GetMonadChain(S, mab, (f: A -> B) => MapT(ma, f))
  }

  /** `chain_` by cases on the These held by `ma`. */
  lemma ChainUnfold<E, A, B>(S: Semigroup<E>, f: A -> These<E, B>, ma: These<E, A>)
    ensures Chain_(S, f, ma) ==
      match ma
      case Left(e) => Left(e)
      case Right(a) => f(a)
      case Both(e1, a) => Absorb(S, e1, f(a))
  {
  }

  /** The constructors are what `fold_` takes apart again. */
  lemma FoldOfConstructors<E, A, R>(onLeft: E -> R, onRight: A -> R, onBoth: (E, A) -> R, e: E, a: A)
    ensures Fold_(onLeft, onRight, onBoth, Right_(a)) == onRight(a)
    ensures Fold_(onLeft, onRight, onBoth, Left_(e)) == onLeft(e)
    ensures Fold_(onLeft, onRight, onBoth, Both_(e, a)) == onBoth(e, a)
    ensures Fold_(onLeft, onRight, onBoth, RightF_(a)) == onRight(a)
    ensures Fold_(onLeft, onRight, onBoth, LeftF_(e)) == onLeft(e)
  {
  }

  /** `chain_` on `left(e)` is `left(e)` whatever `f` is, so `f` is never needed. */
  lemma ChainLeft<E, A, B>(S: Semigroup<E>, f: A -> These<E, B>, e: E)
    ensures Chain_(S, f, Left_(e)) == Left(e)
  {
  }

  /** `chain_` on `right(a)` is exactly `f(a)`: the left-identity law. */
  lemma ChainRight<E, A, B>(S: Semigroup<E>, f: A -> These<E, B>, a: A)
    ensures Chain_(S, f, Right_(a)) == f(a)
  {
  }

  /** `chain_` on `both(e1, a)` joins `e1` in front of whatever error `f(a)` adds. */
  lemma ChainBoth<E, A, B>(S: Semigroup<E>, f: A -> These<E, B>, e1: E, a: A)
    ensures f(a).Left? ==> Chain_(S, f, Both_(e1, a)) == Left(S.concat(e1, f(a).left))
    ensures f(a).Right? ==> Chain_(S, f, Both_(e1, a)) == Both(e1, f(a).right)
    ensures f(a).Both? ==> Chain_(S, f, Both_(e1, a)) == Both(S.concat(e1, f(a).left), f(a).right)
  {
    AbsorbCases(S, e1, f(a));
  }

  /** `getMonad(S).chain` agrees with `chain_(M, S)` everywhere, and `of` is `M.of(right(a))`. */
  lemma GetMonadAgrees<E, A, B>(S: Semigroup<E>, fa: These<E, A>, f: A -> These<E, B>)
    ensures GetMonadChain(S, fa, f) == Chain_(S, f, fa)
    ensures forall a: A :: OfT<E, A>(a) == Right_(a)
  {
  }

  /** `of` is a right identity of `chain`. */
  lemma ChainRightIdentity<E, A>(S: Semigroup<E>, ma: These<E, A>)
    ensures Chain_(S, (a: A) => OfT(a), ma) == ma
  {
    ChainUnfold(S, (a: A) => OfT(a), ma);
    if ma.Both? {
      AbsorbCases(S, ma.left, OfT<E, A>(ma.right));
    }
  }

  /** `getMonad.ap`: a `left` function gives that `left` whatever `ma` holds; otherwise errors accumulate function side first. */
  lemma GetMonadApCases<E, A, B>(S: Semigroup<E>, mab: These<E, A -> B>, ma: These<E, A>)
    ensures mab.Left? ==> GetMonadAp(S, mab, ma) == Left(mab.left)
    ensures mab.Right? ==> GetMonadAp(S, mab, ma) == TheseData.Map(ma, mab.right)
    ensures mab.Both? && ma.Left? ==> GetMonadAp(S, mab, ma) == Left(S.concat(mab.left, ma.left))
    ensures mab.Both? && ma.Right? ==> GetMonadAp(S, mab, ma) == Both(mab.left, mab.right(ma.right))
    ensures mab.Both? && ma.Both? ==> GetMonadAp(S, mab, ma) == Both(S.concat(mab.left, ma.left), mab.right(ma.right))
  {
    var k := (f: A -> B) => MapT(ma, f);
    GetMonadAgrees(S, mab, k);
    ChainUnfold(S, k, mab);
    if mab.Both? {
      assert k(mab.right) == TheseData.Map(ma, mab.right);
      AbsorbCases(S, mab.left, TheseData.Map(ma, mab.right));
    }
  }

  /** With an associative `S`, `chain_` is associative. */
  lemma ChainAssociative<E(!new), A, B, C>(S: Semigroup<E>, ma: These<E, A>, f: A -> These<E, B>, g: B -> These<E, C>)
    requires Associative(S)
    ensures Chain_(S, g, Chain_(S, f, ma)) == Chain_(S, (a: A) => Chain_(S, g, f(a)), ma)
  {
    var h := (a: A) => Chain_(S, g, f(a));
    ChainUnfold(S, f, ma);
    ChainUnfold(S, h, ma);
    match ma
    case Left(e) =>
    case Right(a) =>
    case Both(e1, a) =>
      var fb := f(a);
      ChainUnfold(S, g, fb);
      ChainUnfold(S, g, Absorb(S, e1, fb));
      AbsorbCases(S, e1, fb);
      match fb
      case Left(e2) =>
      case Right(b) =>
        AbsorbCases(S, e1, g(b));
      case Both(e2, b) =>
        AbsorbCases(S, S.concat(e1, e2), g(b));
        AbsorbCases(S, e2, g(b));
        AbsorbCases(S, e1, Absorb(S, e2, g(b)));
        if g(b).Left? || g(b).Both? {
          assert S.concat(S.concat(e1, e2), g(b).left) == S.concat(e1, S.concat(e2, g(b).left));
        }
  }

  // ---------------------------------------------------------------------------
  // M = Option
  // ---------------------------------------------------------------------------

  function RightOption<E, A>(a: A): OptionM.Option<These<E, A>>
  {
    OptionM.Of(Right(a))
  }

  function LeftOption<E, A>(e: E): OptionM.Option<These<E, A>>
  {
    OptionM.Of(Left(e))
  }

  function BothOption<E, A>(e: E, a: A): OptionM.Option<These<E, A>>
  {
    OptionM.Of(Both(e, a))
  }

  function RightFOption<E, A>(fa: OptionM.Option<A>): OptionM.Option<These<E, A>>
  {
    OptionM.Map(fa, (a: A) => Right(a))
  }

  function LeftFOption<E, A>(fe: OptionM.Option<E>): OptionM.Option<These<E, A>>
  {
    OptionM.Map(fe, (e: E) => Left(e))
  }

  function ChainOption<E, A, B>(S: Semigroup<E>, f: A -> OptionM.Option<These<E, B>>, ma: OptionM.Option<These<E, A>>): OptionM.Option<These<E, B>>
  {
    OptionM.Chain(ma, (t: These<E, A>) =>
      Fold(t, (e: E) => LeftOption(e), f, (e1: E, a: A) => OptionM.Map(f(a), (t2: These<E, B>) => Absorb(S, e1, t2))))
  }

  function FoldOption<E, A, R>(onLeft: E -> OptionM.Option<R>, onRight: A -> OptionM.Option<R>, onBoth: (E, A) -> OptionM.Option<R>, ma: OptionM.Option<These<E, A>>): OptionM.Option<R>
  {
    OptionM.Chain(ma, (t: These<E, A>) => Fold(t, onLeft, onRight, onBoth))
  }

  function MapTOption<E, A, B>(fa: OptionM.Option<These<E, A>>, f: A -> B): OptionM.Option<These<E, B>>
  {
    OptionM.Map(fa, (t: These<E, A>) => TheseData.Map(t, f))
  }

  function OfTOption<E, A>(a: A): OptionM.Option<These<E, A>>
  {
    OptionM.Of(Right(a))
  }

  function LeftTOption<E, A>(e: E): OptionM.Option<These<E, A>>
  {
    OptionM.Of(Left(e))
  }

  function GetMonadChainOption<E, A, B>(S: Semigroup<E>, fa: OptionM.Option<These<E, A>>, f: A -> OptionM.Option<These<E, B>>): OptionM.Option<These<E, B>>
  {
    OptionM.Chain(fa, (t: These<E, A>) =>
      Fold(t, (e: E) => LeftTOption(e), f, (e1: E, a: A) => OptionM.Map(f(a), (t2: These<E, B>) => Absorb(S, e1, t2))))
  }

  function GetMonadApOption<E, A, B>(S: Semigroup<E>, mab: OptionM.Option<These<E, A -> B>>, ma: OptionM.Option<These<E, A>>): OptionM.Option<These<E, B>>
  {
    GetMonadChainOption(S, mab, (f: A -> B) => MapTOption(ma, f))
  }

  /** Over Option the constructors are `some` of the These, and `rightF_`/`leftF_` keep `none`. */
  lemma FoldOfConstructorsOption<E, A, R>(onLeft: E -> OptionM.Option<R>, onRight: A -> OptionM.Option<R>, onBoth: (E, A) -> OptionM.Option<R>, e: E, a: A)
    ensures FoldOption(onLeft, onRight, onBoth, RightOption(a)) == onRight(a)
    ensures FoldOption(onLeft, onRight, onBoth, LeftOption(e)) == onLeft(e)
    ensures FoldOption(onLeft, onRight, onBoth, BothOption(e, a)) == onBoth(e, a)
    ensures FoldOption(onLeft, onRight, onBoth, RightFOption(OptionM.Some(a))) == onRight(a)
    ensures FoldOption(onLeft, onRight, onBoth, LeftFOption(OptionM.Some(e))) == onLeft(e)
    ensures RightFOption<E, A>(OptionM.None) == OptionM.None && LeftFOption<E, A>(OptionM.None) == OptionM.None
    ensures FoldOption(onLeft, onRight, onBoth, OptionM.None) == OptionM.None
  {
  }

  /** `chain_` over Option by cases. */
  lemma ChainOptionUnfold<E, A, B>(S: Semigroup<E>, f: A -> OptionM.Option<These<E, B>>, ma: OptionM.Option<These<E, A>>)
    ensures ChainOption(S, f, ma) ==
      match ma
      case None => OptionM.None
      case Some(Left(e)) => OptionM.Some(Left(e))
      case Some(Right(a)) => f(a)
      case Some(Both(e1, a)) => OptionM.Map(f(a), (t2: These<E, B>) => Absorb(S, e1, t2))
  {
  }

  /** The nine cases of `chain_` over Option, plus `none` on either level. */
  lemma ChainOptionCases<E, A, B>(S: Semigroup<E>, f: A -> OptionM.Option<These<E, B>>, e1: E, a: A)
    ensures ChainOption(S, f, OptionM.None) == OptionM.None
    ensures ChainOption(S, f, LeftOption(e1)) == OptionM.Some(Left(e1))
    ensures ChainOption(S, f, RightOption(a)) == f(a)
    ensures f(a).None? ==> ChainOption(S, f, BothOption(e1, a)) == OptionM.None
    ensures f(a).Some? ==> ChainOption(S, f, BothOption(e1, a)) == OptionM.Some(Absorb(S, e1, f(a).value))
  {
  }

  /** `getMonad(S).chain` agrees with `chain_` over Option too, and `of` is `some(right(a))`. */
  lemma GetMonadAgreesOption<E, A, B>(S: Semigroup<E>, fa: OptionM.Option<These<E, A>>, f: A -> OptionM.Option<These<E, B>>)
    ensures GetMonadChainOption(S, fa, f) == ChainOption(S, f, fa)
    ensures forall a: A :: OfTOption<E, A>(a) == OptionM.Some(Right(a))
  {
  }

  /** `getMonad.ap` over Option: a `left` function short-circuits, `none` anywhere gives `none`. */
  lemma GetMonadApOptionCases<E, A, B>(S: Semigroup<E>, mab: OptionM.Option<These<E, A -> B>>, ma: OptionM.Option<These<E, A>>)
    ensures mab.None? ==> GetMonadApOption(S, mab, ma) == OptionM.None
    ensures mab.Some? && mab.value.Left? ==> GetMonadApOption(S, mab, ma) == OptionM.Some(Left(mab.value.left))
    ensures mab.Some? && !mab.value.Left? && ma.None? ==> GetMonadApOption(S, mab, ma) == OptionM.None
    ensures mab.Some? && mab.value.Right? && ma.Some? ==>
      GetMonadApOption(S, mab, ma) == OptionM.Some(TheseData.Map(ma.value, mab.value.right))
    ensures mab.Some? && mab.value.Both? && ma.Some? ==>
      GetMonadApOption(S, mab, ma) == OptionM.Some(Absorb(S, mab.value.left, TheseData.Map(ma.value, mab.value.right)))
  {
    var k := (f: A -> B) => MapTOption(ma, f);
    GetMonadAgreesOption(S, mab, k);
    ChainOptionUnfold(S, k, mab);
    if mab.Some? && !mab.value.Left? {
      assert k(mab.value.right) == OptionM.Map(ma, (t: These<E, A>) => TheseData.Map(t, mab.value.right));
    }
  }
}

/**
 * The Reader monad transformer of src/ReaderT.ts: `ReaderT<M, R, A> = R -> M<A>`,
 * a computation that reads an environment `r`. Every operation builds the
 * closure `r => ...` and hands the work to `M`. `M` is instantiated at Identity
 * (plain names) and at Option (names ending in `Option`). Properties are stated
 * pointwise, for every environment.
 */
module ReaderT {
  import Identity
  import opened OptionM

  // ---------------------------------------------------------------------------
  // M = Identity
  // ---------------------------------------------------------------------------

  type ReaderT<!R, A> = R -> Identity.Identity<A>

  /** `of_(M)(a) = () => M.of(a)`. */
  function Of_<R, A>(a: A): ReaderT<R, A>
  {
    (_: R) => Identity.Of(a)
  }

  /** `map_(F)(f)(fa) = r => F.map(fa(r), f)`. */
  function Map_<R, A, B>(fa: ReaderT<R, A>, f: A -> B): ReaderT<R, B>
  {
    (r: R) => Identity.Map(fa(r), f)
  }

  /** `ap_(F)(fa)(fab) = r => F.ap(fab(r), fa(r))`. */
  function Ap_<R, A, B>(fab: ReaderT<R, A -> B>, fa: ReaderT<R, A>): ReaderT<R, B>
  {
    (r: R) => Identity.Ap(fab(r), fa(r))
  }

  /** `chain_(M)(f)(ma) = r => M.chain(ma(r), a => f(a)(r))`. */
  function Chain_<R, A, B>(ma: ReaderT<R, A>, f: A -> ReaderT<R, B>): ReaderT<R, B>
  {
    (r: R) => Identity.Chain(ma(r), (a: A) => f(a)(r))
  }

  /** `ask_(M)() = M.of`. */
  function Ask_<R>(): ReaderT<R, R>
  {
    (r: R) => Identity.Of(r)
  }

  /** `asks_(M)(f) = flow(f, M.of)`. */
  function Asks_<R, A>(f: R -> A): ReaderT<R, A>
  {
    (r: R) => Identity.Of(f(r))
  }

  /** `fromReader_(M)(ma) = flow(ma, M.of)`. */
  function FromReader_<R, A>(ma: R -> A): ReaderT<R, A>
  {
    (r: R) => Identity.Of(ma(r))
  }

  /** `getReaderM(M).local(ma, f) = q => ma(f(q))`: run `ma` in a modified environment. */
  function Local<Q, R, A>(ma: ReaderT<R, A>, f: Q -> R): ReaderT<Q, A>
  {
    (q: Q) => ma(f(q))
  }

  /** `getReaderM(M).fromM(ma) = () => ma`. */
  function FromM<R, A>(ma: Identity.Identity<A>): ReaderT<R, A>
  {
    (_: R) => ma
  }

  /** `getReaderM(M).asks(f) = r => M.map(M.of(r), f)`. */
  function AsksM<R, A>(f: R -> A): ReaderT<R, A>
  {
    (r: R) => Identity.Map(Identity.Of(r), f)
  }

  /** What each constructor yields in environment `r`. */
  lemma ConstructorsRead<R, A, B>(a: A, g: R -> A, ma: Identity.Identity<A>)
    ensures forall r: R :: Of_<R, A>(a)(r) == a
    ensures forall r: R :: Ask_<R>()(r) == r
    ensures forall r: R :: Asks_(g)(r) == g(r) && FromReader_(g)(r) == g(r)
    ensures forall r: R :: FromM<R, A>(ma)(r) == ma
  {
  }

  /** `ap_` and `chain_` hand the same, unmodified environment to both sides. */
  lemma SameEnvironment<R, A, B>(fab: ReaderT<R, A -> B>, fa: ReaderT<R, A>, ma: ReaderT<R, A>, f: A -> ReaderT<R, B>, h: A -> B)
    ensures forall r: R :: Ap_(fab, fa)(r) == fab(r)(fa(r))
    ensures forall r: R :: Chain_(ma, f)(r) == f(ma(r))(r)
    ensures forall r: R :: Map_(ma, h)(r) == h(ma(r))
  {
  }

  /** The monad laws, pointwise. */
  lemma MonadLaws<R, A, B, C>(a: A, ma: ReaderT<R, A>, f: A -> ReaderT<R, B>, g: B -> ReaderT<R, C>)
    ensures forall r: R :: Chain_(Of_(a), f)(r) == f(a)(r)
    ensures forall r: R :: Chain_(ma, (x: A) => Of_(x))(r) == ma(r)
    ensures forall r: R :: Chain_(Chain_(ma, f), g)(r) == Chain_(ma, (x: A) => Chain_(f(x), g))(r)
  {
  }

  /** `asks` is `map` over `ask`, `fromReader` is `asks`, and `getReaderM(M).asks` agrees with `asks_`. */
  lemma AsksConsistency<R, A>(f: R -> A)
    ensures forall r: R :: Asks_(f)(r) == Map_(Ask_<R>(), f)(r)
    ensures forall r: R :: FromReader_(f)(r) == Asks_(f)(r)
    ensures forall r: R :: AsksM(f)(r) == Asks_(f)(r)
  {
  }

  /** `local` with the identity changes nothing, two `local`s compose, and `local` distributes over `chain_`. */
  lemma LocalLaws<P, Q, R, A, B>(ma: ReaderT<R, A>, f: Q -> R, g: P -> Q, k: A -> ReaderT<R, B>)
    ensures forall r: R :: Local(ma, (x: R) => x)(r) == ma(r)
    ensures forall p: P :: Local(Local(ma, f), g)(p) == ma(f(g(p)))
    ensures forall q: Q :: Local(Chain_(ma, k), f)(q) == Chain_(Local(ma, f), (a: A) => Local(k(a), f))(q)
    ensures forall q: Q :: Local(Ask_<R>(), f)(q) == f(q)
  {
  }

  /** `fromM` ignores the environment. */
  lemma FromMIgnoresEnvironment<R, A>(ma: Identity.Identity<A>, r1: R, r2: R)
    ensures FromM<R, A>(ma)(r1) == FromM<R, A>(ma)(r2)
  {
  }

  // ---------------------------------------------------------------------------
  // M = Option
  // ---------------------------------------------------------------------------

  type ReaderTOption<!R, A> = R -> Option<A>

  function OfOption<R, A>(a: A): ReaderTOption<R, A>
  {
    (_: R) => OptionM.Of(a)
  }

  function MapOption<R, A, B>(fa: ReaderTOption<R, A>, f: A -> B): ReaderTOption<R, B>
  {
    (r: R) => OptionM.Map(fa(r), f)
  }

  function ApOption<R, A, B>(fab: ReaderTOption<R, A -> B>, fa: ReaderTOption<R, A>): ReaderTOption<R, B>
  {
    (r: R) => OptionM.Ap(fab(r), fa(r))
  }

  function ChainOption<R, A, B>(ma: ReaderTOption<R, A>, f: A -> ReaderTOption<R, B>): ReaderTOption<R, B>
  {
    (r: R) => OptionM.Chain(ma(r), (a: A) => f(a)(r))
  }

  function AskOption<R>(): ReaderTOption<R, R>
  {
    (r: R) => OptionM.Of(r)
  }

  function AsksOption<R, A>(f: R -> A): ReaderTOption<R, A>
  {
    (r: R) => OptionM.Of(f(r))
  }

  function FromReaderOption<R, A>(ma: R -> A): ReaderTOption<R, A>
  {
    (r: R) => OptionM.Of(ma(r))
  }

  function LocalOption<Q, R, A>(ma: ReaderTOption<R, A>, f: Q -> R): ReaderTOption<Q, A>
  {
    (q: Q) => ma(f(q))
  }

  function FromMOption<R, A>(ma: Option<A>): ReaderTOption<R, A>
  {
    (_: R) => ma
  }

  function AsksMOption<R, A>(f: R -> A): ReaderTOption<R, A>
  {
    (r: R) => OptionM.Map(OptionM.Of(r), f)
  }

  /** Over Option: a `none` in either side of `ap_`, or in `ma` of `chain_`, is `none` in that environment; otherwise values flow as with Identity. */
  lemma OptionPointwise<R, A, B>(fab: ReaderTOption<R, A -> B>, fa: ReaderTOption<R, A>, ma: ReaderTOption<R, A>, f: A -> ReaderTOption<R, B>)
    ensures forall r: R :: ApOption(fab, fa)(r).Some? <==> fab(r).Some? && fa(r).Some?
    ensures forall r: R :: fab(r).Some? && fa(r).Some? ==> ApOption(fab, fa)(r) == Some(fab(r).value(fa(r).value))
    ensures forall r: R :: ma(r).None? ==> ChainOption(ma, f)(r) == None
    ensures forall r: R :: ma(r).Some? ==> ChainOption(ma, f)(r) == f(ma(r).value)(r)
  {
  }

  /** The constructors over Option always succeed, and `getReaderM(M).asks` agrees with `asks_`. */
  lemma OptionConstructors<R, A>(a: A, g: R -> A, ma: Option<A>)
    ensures forall r: R :: OfOption<R, A>(a)(r) == Some(a)
    ensures forall r: R :: AskOption<R>()(r) == Some(r)
    ensures forall r: R :: AsksOption(g)(r) == Some(g(r)) && FromReaderOption(g)(r) == Some(g(r))
    ensures forall r: R :: AsksMOption(g)(r) == AsksOption(g)(r)
    ensures forall r: R :: FromMOption<R, A>(ma)(r) == ma
  {
  }

  /** The monad laws over Option, pointwise, and `local` distributing over `chain_`. */
  lemma OptionMonadLaws<Q, R, A, B, C>(a: A, ma: ReaderTOption<R, A>, f: A -> ReaderTOption<R, B>, g: B -> ReaderTOption<R, C>, h: Q -> R)
    ensures forall r: R :: ChainOption(OfOption(a), f)(r) == f(a)(r)
    ensures forall r: R :: ChainOption(ma, (x: A) => OfOption(x))(r) == ma(r)
    ensures forall r: R :: ChainOption(ChainOption(ma, f), g)(r) == ChainOption(ma, (x: A) => ChainOption(f(x), g))(r)
    ensures forall q: Q :: LocalOption(ChainOption(ma, f), h)(q) == ChainOption(LocalOption(ma, h), (x: A) => LocalOption(f(x), h))(q)
  {
  }
}

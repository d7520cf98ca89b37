/**
 * The Identity effect: `Identity<A>` is `A` itself, and every operation is
 * plain application. It is the fixture effect for the transformers.
 */
module Identity {
  import opened Algebra

  type Identity<A> = A

  function Id<A>(a: A): A { a }

  function Map<A, B>(fa: Identity<A>, f: A -> B): Identity<B>
  {
    f(fa)
  }

  function Ap<A, B>(fab: Identity<A -> B>, fa: Identity<A>): Identity<B>
  {
    fab(fa)
  }

  function Of<A>(a: A): Identity<A>
  {
    Id(a)
  }

  function Chain<A, B>(ma: Identity<A>, f: A -> Identity<B>): Identity<B>
  {
    f(ma)
  }

  /** `apFirst(fb)(fa)`: `map` a constant function over `fa`, then `ap` it to `fb`; the first value is kept. */
  function ApFirst<A, B>(fa: Identity<A>, fb: Identity<B>): (r: Identity<A>)
    ensures r == fa
  {
    Ap(Map(fa, (a: A) => (_: B) => a), fb)
  }

  /** `apSecond(fb)(fa)`: `map` a function returning its argument, then `ap` it to `fb`; the second value is kept. */
  function ApSecond<A, B>(fa: Identity<A>, fb: Identity<B>): (r: Identity<B>)
    ensures r == fb
  {
    Ap(Map(fa, (_: A) => (b: B) => b), fb)
  }

  /** `chainFirst(f)(ma)`: run `f` on the value, then map its result back to the original value. */
  function ChainFirst<A, B>(ma: Identity<A>, f: A -> Identity<B>): (r: Identity<A>)
    ensures r == ma
  {
    Chain(ma, (a: A) => Map(f(a), (_: B) => a))
  }

  function Extend<A, B>(wa: Identity<A>, f: Identity<A> -> B): Identity<B>
  {
    f(wa)
  }

  function Extract<A>(wa: Identity<A>): A
  {
    Id(wa)
  }

  /** `duplicate = extend(id)`. */
  function Duplicate<A>(ma: Identity<A>): (r: Identity<Identity<A>>)
    ensures r == ma
  {
    Extend(ma, Id)
  }

  /** `flatten = chain(id)`. */
  function Flatten<A>(mma: Identity<Identity<A>>): (r: Identity<A>)
    ensures r == mma
  {
    Chain(mma, Id)
  }

  function Reduce<A, B>(fa: Identity<A>, b: B, f: (B, A) -> B): B
  {
    f(b, fa)
  }

  function ReduceRight<A, B>(fa: Identity<A>, b: B, f: (A, B) -> B): B
  {
    f(fa, b)
  }

  function FoldMap<M, A>(Mo: Monoid<M>, fa: Identity<A>, f: A -> M): M
  {
    f(fa)
  }

  /** `altW = () => id`: the alternative is never called. */
  function AltW<A>(fa: Identity<A>, that: () -> Identity<A>): Identity<A>
  {
    Id(fa)
  }

  /** `alt = altW`. */
  function Alt<A>(fa: Identity<A>, that: () -> Identity<A>): (r: Identity<A>)
    ensures r == fa
  {
    AltW(fa, that)
  }

  // Laws tying the operations together.

  lemma MonadLaws<A, B, C>(a: A, ma: Identity<A>, f: A -> Identity<B>, g: B -> Identity<C>)
    ensures Chain(Of(a), f) == f(a)
    ensures Chain(ma, Of) == ma
    ensures Chain(Chain(ma, f), g) == Chain(ma, (x: A) => Chain(f(x), g))
  {
  }

  /** `map` and `ap` agree with their definitions through `chain` and `of`. */
  lemma DerivedFromChain<A, B>(fa: Identity<A>, f: A -> B, fab: Identity<A -> B>)
    ensures Map(fa, f) == Chain(fa, (a: A) => Of(f(a)))
    ensures Ap(fab, fa) == Chain(fab, (g: A -> B) => Map(fa, g))
  {
  }

  lemma ComonadLaws<A, B>(wa: Identity<A>, f: Identity<A> -> B)
    ensures Extract(Extend(wa, f)) == f(wa)
    ensures Extend(wa, Extract) == wa
    ensures Extract(Duplicate(wa)) == wa
  {
  }

  /** `foldMap` is `reduce` with the monoid's concat, for a lawful monoid; `reduceRight` is `reduce` with flipped arguments. */
  lemma FoldableConsistency<M(!new), A, B>(Mo: Monoid<M>, fa: Identity<A>, f: A -> M, b: B, g: (A, B) -> B)
    requires MonoidLaws(Mo)
    ensures FoldMap(Mo, fa, f) == Reduce(fa, Mo.empty, (acc: M, a: A) => Mo.concat(acc, f(a)))
    ensures ReduceRight(fa, b, g) == Reduce(fa, b, (acc: B, a: A) => g(a, acc))
  {
  }

  /** `alt` does not depend on the alternative it is given. */
  lemma AltIgnoresAlternative<A>(fa: Identity<A>, that1: () -> Identity<A>, that2: () -> Identity<A>)
    ensures Alt(fa, that1) == Alt(fa, that2) == fa
  {
  }
}

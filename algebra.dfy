/**
 * Capability dictionaries for values: Semigroup, Monoid and Setoid records passed
 * explicitly as parameters. Their laws are the caller's responsibility; the
 * predicates below name them so that lemmas can assume them where needed.
 */
module Algebra {

  /** A Semigroup dictionary: `{ concat }`. */
  datatype Semigroup<!A> = Semigroup(concat: (A, A) -> A)

  /** A Monoid dictionary: `{ concat, empty }`. */
  datatype Monoid<!A> = Monoid(concat: (A, A) -> A, empty: A)

  /** A Setoid dictionary: `{ equals }`. */
  datatype Setoid<-A> = Setoid(equals: (A, A) -> bool)

  ghost predicate Associative<A(!new)>(S: Semigroup<A>)
  {
    forall x, y, z :: S.concat(S.concat(x, y), z) == S.concat(x, S.concat(y, z))
  }

  /** The monoid laws: associativity and `empty` as left and right identity. */
  ghost predicate MonoidLaws<A(!new)>(M: Monoid<A>)
  {
    && (forall x, y, z :: M.concat(M.concat(x, y), z) == M.concat(x, M.concat(y, z)))
    && (forall x :: M.concat(M.empty, x) == x && M.concat(x, M.empty) == x)
  }

  /** The string semigroup: concatenation. */
  function StringSemigroup(): Semigroup<string>
  {
    Semigroup((a: string, b: string) => a + b)
  }

  /** The monoid of integers under addition (`monoidSum`). */
  function SumMonoid(): Monoid<int>
  {
    Monoid((a: int, b: int) => a + b, 0)
  }

  /** The semigroup part of a monoid. */
  function SemigroupOf<A>(M: Monoid<A>): Semigroup<A>
  {
    Semigroup(M.concat)
  }
}

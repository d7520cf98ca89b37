/**
 * `sequenceT` from src/Apply.ts: a left-to-right fold over a non-empty tuple of
 * effectful values. It `map`s a curried tuple builder of arity `len` over the
 * first argument and then `ap`s each remaining argument in turn. Builders are
 * cached by arity in a module-level table.
 *
 * The tuple is homogeneous here (every component has type `T`), and `sequenceT`
 * is instantiated at Identity, Option, Either, Validation and a tracing effect
 * that records which `map`/`ap` calls were made.
 */
module SequenceT {
  import opened OptionM
  import opened Algebra
  import EitherM
  import ValidationM
  import Identity

  /**
   * The curried tuple builder `curried(tuple, n, acc)`: a function that adds its
   * argument to `acc` and returns the tuple on the call made when `n` is 0, so it
   * takes `n + 1` more arguments. `Tuple(values)` is what the builder returns
   * after its last argument.
   */
  datatype Builder<T> = Curried(acc: seq<T>, n: nat) | Tuple(values: seq<T>)

  /**
   * Calling a builder. Applying a finished tuple is a run-time type error in the
   * source; `sequenceT` never does it, and the model leaves the tuple as it is.
   */
  function Feed<T>(b: Builder<T>, x: T): Builder<T>
  {
    match b
    case Curried(acc, n) => if n == 0 then Tuple(acc + [x]) else Curried(acc + [x], n - 1)
    case Tuple(values) => Tuple(values)
  }

  /** A builder seen as the function it is. */
  function AsFunction<T>(b: Builder<T>): T -> Builder<T>
  {
    (x: T) => Feed(b, x)
  }

  /** The builder cached for a tuple of length `len >= 1`: `curried(tuple, len - 1, [])`. */
  function Fresh<T>(len: nat): Builder<T>
    requires len >= 1
  {
    Curried([], len - 1)
  }

  /** The state of the arity-`len` builder after it has received `vals`. */
  function After<T>(vals: seq<T>, len: nat): (b: Builder<T>)
    requires 1 <= |vals| <= len
    ensures b.Tuple? <==> |vals| == len
  {
    if |vals| == len then Tuple(vals) else Curried(vals, len - 1 - |vals|)
  }

  /** The first argument turns a fresh builder into the one that has seen it. */
  lemma FeedFresh<T>(len: nat, x: T)
    requires len >= 1
    ensures Feed(Fresh<T>(len), x) == After([x], len)
  {
  }

  /** Each further argument is appended, in order, until the tuple is complete. */
  lemma FeedAfter<T>(vals: seq<T>, len: nat, x: T)
    requires 1 <= |vals| < len
    ensures Feed(After(vals, len), x) == After(vals + [x], len)
  {
  }

  /** Feeding `xs` one at a time, left to right, to a fresh builder yields the tuple `xs`. */
  function FeedAll<T>(b: Builder<T>, xs: seq<T>): Builder<T>
    decreases |xs|
  {
    if xs == [] then b else Feed(FeedAll(b, xs[..|xs| - 1]), xs[|xs| - 1])
  }

  lemma {:induction false} FeedAllPrefix<T>(xs: seq<T>, len: nat, k: nat)
    requires 1 <= k <= |xs| == len
    ensures FeedAll(Fresh<T>(len), xs[..k]) == After(xs[..k], len)
  {
    if k == 1 {
      assert xs[..1][..0] == [];
      assert FeedAll(Fresh<T>(len), xs[..0]) == Fresh<T>(len);
      assert [xs[0]] == xs[..1];
    } else {
      FeedAllPrefix(xs, len, k - 1);
      assert xs[..k][..k - 1] == xs[..k - 1];
      assert xs[..k - 1] + [xs[k - 1]] == xs[..k];
      FeedAfter(xs[..k - 1], len, xs[k - 1]);
    }
  }

  /** The builder of arity `|xs|` returns exactly the tuple of its arguments, in the order given. */
  lemma BuilderReturnsTuple<T>(xs: seq<T>)
    requires |xs| >= 1
    ensures FeedAll(Fresh<T>(|xs|), xs) == Tuple(xs)
  {
    FeedAllPrefix(xs, |xs|, |xs|);
    assert xs[..|xs|] == xs;
  }

  // ---------------------------------------------------------------------------
  // The cache
  // ---------------------------------------------------------------------------

  /** The module-level `tupleConstructors` table, keyed by arity. */
  class TupleConstructors<T> {
    var entries: map<nat, Builder<T>>

    /** Every cached builder is the fresh builder of its arity. */
    ghost predicate Valid()
      reads this
    {
      forall len | len in entries :: len >= 1 && entries[len] == Fresh<T>(len)
    }

    constructor()
      ensures Valid() && entries == map[]
    {
      entries := map[];
    }

    /** Looks up the builder for `len`, creating and storing it on a miss. */
    method Get(len: nat) returns (f: Builder<T>)
      requires Valid() && len >= 1
      modifies this
      ensures Valid()
      ensures f == Fresh<T>(len)
      ensures len in entries
      ensures entries == old(entries)[len := Fresh<T>(len)]
      ensures forall k | k in old(entries) :: k in entries && entries[k] == old(entries)[k]
      ensures len in old(entries) ==> entries == old(entries)
    {
      if len in entries {
        f := entries[len];
      } else {
        f := Fresh<T>(len);
        entries := entries[len := f];
      }
    }
  }

  // ---------------------------------------------------------------------------
  // Identity
  // ---------------------------------------------------------------------------

  method FoldIdentity<T>(f: Builder<T>, args: seq<Identity.Identity<T>>) returns (r: Identity.Identity<Builder<T>>)
    requires |args| >= 1 && f == Fresh<T>(|args|)
    ensures r == Tuple(args)
  {
    var len := |args|;
    r := Identity.Map(args[0], AsFunction(f));
    assert [args[0]] == args[..1];
    var i := 1;
    while i < len
      invariant 1 <= i <= len
      invariant r == After(args[..i], len)
    {
      FeedAfter(args[..i], len, args[i]);
      assert args[..i] + [args[i]] == args[..i + 1];
      r := Identity.Ap(AsFunction(r), args[i]);
      i := i + 1;
    }
    assert args[..len] == args;
  }

  /** `sequenceT(identity)(...args)`. */
  method SequenceTIdentity<T>(cache: TupleConstructors<T>, args: seq<Identity.Identity<T>>) returns (r: Identity.Identity<Builder<T>>)
    requires cache.Valid() && |args| >= 1
    modifies cache
    ensures cache.Valid() && |args| in cache.entries
    ensures cache.entries == old(cache.entries)[|args| := Fresh<T>(|args|)]
    ensures r == Tuple(args)
  {
    var f := cache.Get(|args|);
    r := FoldIdentity(f, args);
  }

  // ---------------------------------------------------------------------------
  // Option
  // ---------------------------------------------------------------------------

  /** The payloads of an all-`some` sequence. */
  function SomeValues<T>(args: seq<Option<T>>): (r: seq<T>)
    requires forall i | 0 <= i < |args| :: args[i].Some?
    ensures |r| == |args| && forall i | 0 <= i < |args| :: r[i] == args[i].value
  {
    if args == [] then [] else SomeValues(args[..|args| - 1]) + [args[|args| - 1].value]
  }

  /** What `sequenceT(option)` promises: `some` of the values when all are `some`, `none` otherwise. */
  function SequenceTOptionSpec<T>(args: seq<Option<T>>): Option<Builder<T>>
  {
    if forall i | 0 <= i < |args| :: args[i].Some? then Some(Tuple(SomeValues(args))) else None
  }

  function OptionPrefix<T>(args: seq<Option<T>>, k: nat): Option<Builder<T>>
    requires 1 <= k <= |args|
  {
    if forall i | 0 <= i < k :: args[i].Some? then Some(After(SomeValues(args[..k]), |args|)) else None
  }

  method FoldOption<T>(f: Builder<T>, args: seq<Option<T>>) returns (r: Option<Builder<T>>)
    requires |args| >= 1 && f == Fresh<T>(|args|)
    ensures r == SequenceTOptionSpec(args)
  {
    var len := |args|;
    r := OptionM.Map(args[0], AsFunction(f));
    if args[0].Some? {
      assert SomeValues(args[..1]) == [args[0].value];
    }
    var i := 1;
    while i < len
      invariant 1 <= i <= len
      invariant r == OptionPrefix(args, i)
    {
      if r.Some? && args[i].Some? {
        assert args[..i + 1][..i] == args[..i];
        FeedAfter(SomeValues(args[..i]), len, args[i].value);
      }
      r := OptionM.Ap(OptionM.Map(r, AsFunction), args[i]);
      i := i + 1;
    }
    assert args[..len] == args;
  }

  /** `sequenceT(option)(...args)`. */
  method SequenceTOption<T>(cache: TupleConstructors<T>, args: seq<Option<T>>) returns (r: Option<Builder<T>>)
    requires cache.Valid() && |args| >= 1
    modifies cache
    ensures cache.Valid() && |args| in cache.entries
    ensures cache.entries == old(cache.entries)[|args| := Fresh<T>(|args|)]
    ensures r == SequenceTOptionSpec(args)
  {
    var f := cache.Get(|args|);
    r := FoldOption(f, args);
  }

  /** The result is `some` exactly when every argument is, and then holds the values in argument order. */
  lemma OptionSomeIffAllSome<T>(args: seq<Option<T>>)
    ensures SequenceTOptionSpec(args).Some? <==> forall i | 0 <= i < |args| :: args[i].Some?
    ensures SequenceTOptionSpec(args).Some? ==>
      var vs := SequenceTOptionSpec(args).value.values;
      |vs| == |args| && forall i | 0 <= i < |args| :: vs[i] == args[i].value
  {
  }

  /** `sequenceT(option)(some(1))`, `(some(1), some(2))` and `(some(1), some(2), none)`. */
  lemma OptionExamples()
    ensures SequenceTOptionSpec([Some(1)]) == Some(Tuple([1]))
    ensures SequenceTOptionSpec([Some(1), Some(2)]) == Some(Tuple([1, 2]))
    ensures SequenceTOptionSpec([Some(1), Some(2), None]) == None
  {
    assert SomeValues([Some(1)]) == [1];
    assert SomeValues([Some(1), Some(2)]) == [1, 2];
    var three: seq<Option<int>> := [Some(1), Some(2), None];
    assert !three[2].Some?;
  }

  // ---------------------------------------------------------------------------
  // Either (fail fast) and Validation (accumulating)
  // ---------------------------------------------------------------------------

  /** The payloads of an all-`right` sequence. */
  function RightValues<E, T>(args: seq<EitherM.Either<E, T>>): (r: seq<T>)
    requires forall i | 0 <= i < |args| :: args[i].Right?
    ensures |r| == |args| && forall i | 0 <= i < |args| :: r[i] == args[i].right
  {
    if args == [] then [] else RightValues(args[..|args| - 1]) + [args[|args| - 1].right]
  }

  /** The index of the first `left`, if any. */
  function FirstLeft<E, T>(args: seq<EitherM.Either<E, T>>): (r: Option<nat>)
    ensures r.None? <==> forall i | 0 <= i < |args| :: args[i].Right?
    ensures r.Some? ==> r.value < |args| && args[r.value].Left? && forall i | 0 <= i < r.value :: args[i].Right?
  {
    if args == [] then None
    else
      match FirstLeft(args[..|args| - 1])
      case Some(k) => Some(k)
      case None => if args[|args| - 1].Left? then Some(|args| - 1) else None
  }

  /** What `sequenceT(either)` promises: the first `left`, or `right` of all the values. */
  function SequenceTEitherSpec<E, T>(args: seq<EitherM.Either<E, T>>): EitherM.Either<E, Builder<T>>
  {
    match FirstLeft(args)
    case Some(k) => EitherM.Left(args[k].left)
    case None => EitherM.Right(Tuple(RightValues(args)))
  }

  function EitherPrefix<E, T>(args: seq<EitherM.Either<E, T>>, k: nat): EitherM.Either<E, Builder<T>>
    requires 1 <= k <= |args|
  {
    match FirstLeft(args[..k])
    case Some(j) => EitherM.Left(args[j].left)
    case None => EitherM.Right(After(RightValues(args[..k]), |args|))
  }

  method FoldEither<E, T>(f: Builder<T>, args: seq<EitherM.Either<E, T>>) returns (r: EitherM.Either<E, Builder<T>>)
    requires |args| >= 1 && f == Fresh<T>(|args|)
    ensures r == SequenceTEitherSpec(args)
  {
    var len := |args|;
    r := EitherM.Map(args[0], AsFunction(f));
    assert args[..1][..0] == [];
    if args[0].Right? {
      assert RightValues(args[..1]) == [args[0].right];
    }
    var i := 1;
    while i < len
      invariant 1 <= i <= len
      invariant r == EitherPrefix(args, i)
    {
      assert args[..i + 1][..i] == args[..i];
      if r.Right? && args[i].Right? {
        FeedAfter(RightValues(args[..i]), len, args[i].right);
      }
      r := EitherM.Ap(EitherM.Map(r, AsFunction), args[i]);
      i := i + 1;
    }
    assert args[..len] == args;
  }

  /** `sequenceT(either)(...args)`. */
  method SequenceTEither<E, T>(cache: TupleConstructors<T>, args: seq<EitherM.Either<E, T>>) returns (r: EitherM.Either<E, Builder<T>>)
    requires cache.Valid() && |args| >= 1
    modifies cache
    ensures cache.Valid() && |args| in cache.entries
    ensures cache.entries == old(cache.entries)[|args| := Fresh<T>(|args|)]
    ensures r == SequenceTEitherSpec(args)
  {
    var f := cache.Get(|args|);
    r := FoldEither(f, args);
  }

  /** The `left` payloads, in argument order. */
  function Lefts<E, T>(args: seq<EitherM.Either<E, T>>): (r: seq<E>)
    ensures r == [] <==> forall i | 0 <= i < |args| :: args[i].Right?
    ensures |r| <= |args|
  {
    if args == [] then []
    else Lefts(args[..|args| - 1]) + (if args[|args| - 1].Left? then [args[|args| - 1].left] else [])
  }

  /** `S.concat` folded from the left: `((e0 <> e1) <> e2) ...`. */
  function CombineAll<E>(S: Semigroup<E>, es: seq<E>): E
    requires |es| >= 1
  {
    if |es| == 1 then es[0] else S.concat(CombineAll(S, es[..|es| - 1]), es[|es| - 1])
  }

  /** What `sequenceT` over a validation promises: every `left` joined in order, or `right` of all the values. */
  function SequenceTValidationSpec<E, T>(S: Semigroup<E>, args: seq<EitherM.Either<E, T>>): EitherM.Either<E, Builder<T>>
  {
    var es := Lefts(args);
    if es == [] then EitherM.Right(Tuple(RightValues(args))) else EitherM.Left(CombineAll(S, es))
  }

  function ValidationPrefix<E, T>(S: Semigroup<E>, args: seq<EitherM.Either<E, T>>, k: nat): EitherM.Either<E, Builder<T>>
    requires 1 <= k <= |args|
  {
    var es := Lefts(args[..k]);
    if es == [] then EitherM.Right(After(RightValues(args[..k]), |args|)) else EitherM.Left(CombineAll(S, es))
  }

  method FoldValidation<E, T>(S: Semigroup<E>, f: Builder<T>, args: seq<EitherM.Either<E, T>>) returns (r: EitherM.Either<E, Builder<T>>)
    requires |args| >= 1 && f == Fresh<T>(|args|)
    ensures r == SequenceTValidationSpec(S, args)
  {
    var len := |args|;
    r := ValidationM.Map(args[0], AsFunction(f));
    assert args[..1][..0] == [];
    if args[0].Right? {
      assert RightValues(args[..1]) == [args[0].right];
    }
    var i := 1;
    while i < len
      invariant 1 <= i <= len
      invariant r == ValidationPrefix(S, args, i)
    {
      ValidationStep(S, args, i);
      r := ValidationM.Ap(S, ValidationM.Map(r, AsFunction), args[i]);
      i := i + 1;
    }
    assert args[..len] == args;
  }

  /** One `ap` of the validation fold extends the prefix by one argument. */
  lemma ValidationStep<E, T>(S: Semigroup<E>, args: seq<EitherM.Either<E, T>>, i: nat)
    requires 1 <= i < |args|
    ensures ValidationPrefix(S, args, i + 1) == ValidationM.Ap(S, ValidationM.Map(ValidationPrefix(S, args, i), AsFunction), args[i])
  {
    var len := |args|;
    assert args[..i + 1][..i] == args[..i];
    var es := Lefts(args[..i]);
    if args[i].Right? {
      assert Lefts(args[..i + 1]) == es;
      if es == [] {
        FeedAfter(RightValues(args[..i]), len, args[i].right);
        assert RightValues(args[..i + 1]) == RightValues(args[..i]) + [args[i].right];
      }
    } else {
      assert Lefts(args[..i + 1]) == es + [args[i].left];
      if es != [] {
        assert (es + [args[i].left])[..|es|] == es;
      }
    }
  }

  /** `sequenceT(getValidation(S))(...args)`. */
  method SequenceTValidation<E, T>(S: Semigroup<E>, cache: TupleConstructors<T>, args: seq<EitherM.Either<E, T>>) returns (r: EitherM.Either<E, Builder<T>>)
    requires cache.Valid() && |args| >= 1
    modifies cache
    ensures cache.Valid() && |args| in cache.entries
    ensures cache.entries == old(cache.entries)[|args| := Fresh<T>(|args|)]
    ensures r == SequenceTValidationSpec(S, args)
  {
    var f := cache.Get(|args|);
    r := FoldValidation(S, f, args);
  }

  /** Fail fast returns the first `left`; accumulation returns it too when it is the only one. */
  lemma EitherReturnsFirstLeft<E, T>(S: Semigroup<E>, args: seq<EitherM.Either<E, T>>, k: nat)
    requires k < |args| && args[k].Left? && forall i | 0 <= i < k :: args[i].Right?
    ensures SequenceTEitherSpec(args) == EitherM.Left(args[k].left)
    ensures (forall i | k < i < |args| :: args[i].Right?) ==> SequenceTValidationSpec(S, args) == EitherM.Left(args[k].left)
  {
    if forall i | k < i < |args| :: args[i].Right? {
      OnlyLeft(args, k);
    }
  }

  lemma {:induction false} OnlyLeft<E, T>(args: seq<EitherM.Either<E, T>>, k: nat)
    requires k < |args| && args[k].Left?
    requires forall i | 0 <= i < |args| && i != k :: args[i].Right?
    ensures Lefts(args) == [args[k].left]
    decreases |args|
  {
    var n := |args| - 1;
    var p := args[..n];
    if n == k {
      assert forall i | 0 <= i < |p| :: p[i].Right?;
    } else {
      assert forall i | 0 <= i < |p| && i != k :: p[i].Right?;
      OnlyLeft(p, k);
    }
  }

  /** With string concatenation, `sequenceT(left('a'), left('b'))` is `left('ab')` (test/ReaderTaskEither.ts). */
  lemma ValidationAccumulatesExample(args: seq<EitherM.Either<string, int>>)
    requires args == [EitherM.Left("a"), EitherM.Left("b")]
    ensures SequenceTValidationSpec(StringSemigroup(), args) == EitherM.Left("ab")
    ensures SequenceTEitherSpec(args) == EitherM.Left("a")
  {
    assert args[..1] == [EitherM.Left("a")] && args[..1][..0] == [];
    assert Lefts(args[..1]) == ["a"];
    assert Lefts(args) == ["a", "b"];
    assert ["a", "b"][..1] == ["a"];
    assert "a" + "b" == "ab";
    assert FirstLeft(args[..1]) == Some(0);
  }

  // ---------------------------------------------------------------------------
  // A tracing effect: which map/ap calls were made, on which arguments
  // ---------------------------------------------------------------------------

  /** A record of how a value was produced: an argument, a `map` of some value, or an `ap` of two. */
  datatype Call = Arg(index: nat) | MapCall(source: Call) | ApCall(fn: Call, arg: Call)

  datatype Traced<A> = Traced(call: Call, value: A)

  function TraceMap<A, B>(fa: Traced<A>, f: A -> B): Traced<B>
  {
    Traced(MapCall(fa.call), f(fa.value))
  }

  function TraceAp<A, B>(fab: Traced<A -> B>, fa: Traced<A>): Traced<B>
  {
    Traced(ApCall(fab.call, fa.call), fab.value(fa.value))
  }

  /** The call record `sequenceT` promises for `len` arguments: `map` on argument 0, then `ap` on 1, 2, ... */
  function ExpectedCalls(len: nat): Call
    requires len >= 1
  {
    if len == 1 then MapCall(Arg(0)) else ApCall(ExpectedCalls(len - 1), Arg(len - 1))
  }

  function TracedValues<T>(args: seq<Traced<T>>): (r: seq<T>)
    ensures |r| == |args| && forall i | 0 <= i < |args| :: r[i] == args[i].value
  {
    if args == [] then [] else TracedValues(args[..|args| - 1]) + [args[|args| - 1].value]
  }

  method FoldTraced<T>(f: Builder<T>, args: seq<Traced<T>>) returns (r: Traced<Builder<T>>)
    requires |args| >= 1 && f == Fresh<T>(|args|)
    requires forall i | 0 <= i < |args| :: args[i].call == Arg(i)
    ensures r == Traced(ExpectedCalls(|args|), Tuple(TracedValues(args)))
  {
    var len := |args|;
    r := TraceMap(args[0], AsFunction(f));
    assert TracedValues(args[..1]) == [args[0].value];
    var i := 1;
    while i < len
      invariant 1 <= i <= len
      invariant r == Traced(ExpectedCalls(i), After(TracedValues(args[..i]), len))
    {
      assert args[..i + 1][..i] == args[..i];
      FeedAfter(TracedValues(args[..i]), len, args[i].value);
      r := TraceAp(Traced(r.call, AsFunction(r.value)), args[i]);
      i := i + 1;
    }
    assert args[..len] == args;
  }

  /** `sequenceT` over the tracing effect. */
  method SequenceTTraced<T>(cache: TupleConstructors<T>, args: seq<Traced<T>>) returns (r: Traced<Builder<T>>)
    requires cache.Valid() && |args| >= 1
    requires forall i | 0 <= i < |args| :: args[i].call == Arg(i)
    modifies cache
    ensures cache.Valid() && |args| in cache.entries
    ensures cache.entries == old(cache.entries)[|args| := Fresh<T>(|args|)]
    ensures r == Traced(ExpectedCalls(|args|), Tuple(TracedValues(args)))
  {
    var f := cache.Get(|args|);
    r := FoldTraced(f, args);
  }

  function MapCount(c: Call): nat
  {
    match c
    case Arg(_) => 0
    case MapCall(s) => 1 + MapCount(s)
    case ApCall(g, a) => MapCount(g) + MapCount(a)
  }

  function ApCount(c: Call): nat
  {
    match c
    case Arg(_) => 0
    case MapCall(s) => ApCount(s)
    case ApCall(g, a) => 1 + ApCount(g) + ApCount(a)
  }

  /** The arguments in the order the calls consume them. */
  function ArgOrder(c: Call): seq<nat>
  {
    match c
    case Arg(i) => [i]
    case MapCall(s) => ArgOrder(s)
    case ApCall(g, a) => ArgOrder(g) + ArgOrder(a)
  }

  /** The arguments that `map` was applied to, in order. */
  function MapTargets(c: Call): seq<Call>
  {
    match c
    case Arg(_) => []
    case MapCall(s) => MapTargets(s) + [s]
    case ApCall(g, a) => MapTargets(g) + MapTargets(a)
  }

  /** `0, 1, ..., n - 1`. */
  function Indices(n: nat): (r: seq<nat>)
    ensures |r| == n && forall i | 0 <= i < n :: r[i] == i
  {
    if n == 0 then [] else Indices(n - 1) + [n - 1]
  }

  /** `sequenceT` calls `map` once, on `args[0]`, `ap` once per further argument, and consumes the arguments in index order. */
  lemma {:induction false} CallsInOrder(len: nat)
    requires len >= 1
    ensures MapCount(ExpectedCalls(len)) == 1
    ensures MapTargets(ExpectedCalls(len)) == [Arg(0)]
    ensures ApCount(ExpectedCalls(len)) == len - 1
    ensures ArgOrder(ExpectedCalls(len)) == Indices(len)
  {
    if len == 1 {
      assert Indices(1) == [0];
    } else {
      CallsInOrder(len - 1);
      var c := ExpectedCalls(len - 1);
      assert ExpectedCalls(len) == ApCall(c, Arg(len - 1));
      assert MapTargets(ExpectedCalls(len)) == MapTargets(c) + [];
      assert ArgOrder(ExpectedCalls(len)) == Indices(len - 1) + [len - 1];
    }
  }
}

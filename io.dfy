/**
 * The IO effect. A synchronous thunk `() => A` is modelled as a state
 * transformer over an event log: running `io` on log `l` yields its value and
 * the log extended with whatever the thunk did. Effect order is then the order
 * in which events reach the log.
 */
module IO {
  import opened Algebra
  import opened EitherM
  import opened OptionM

  /** An observable side effect; what it denotes is left abstract. */
  type Event = int
  type Log = seq<Event>
  type IO<A> = Log -> (A, Log)

  /** `io` always appends exactly `es` to the log, whatever the log was. */
  ghost predicate Emits<A>(io: IO<A>, es: seq<Event>)
  {
    forall l: Log :: io(l).1 == l + es
  }

  /** `io` always yields `a`, whatever the log was. */
  ghost predicate Yields<A>(io: IO<A>, a: A)
  {
    forall l: Log :: io(l).0 == a
  }

  function Map<A, B>(ma: IO<A>, f: A -> B): IO<B>
  {
    (l: Log) => (f(ma(l).0), ma(l).1)
  }

  /** `ap`: run the function's thunk, then the argument's thunk, then apply. */
  function Ap<A, B>(mab: IO<A -> B>, ma: IO<A>): IO<B>
  {
    (l: Log) => (mab(l).0(ma(mab(l).1).0), ma(mab(l).1).1)
  }

  /** `of = constant`: a thunk returning `a` and doing nothing. */
  function Of<A>(a: A): IO<A>
  {
    (l: Log) => (a, l)
  }

  /** `chain`: run `ma`, then run the IO that `f` builds from its value. */
  function Chain<A, B>(ma: IO<A>, f: A -> IO<B>): IO<B>
  {
    (l: Log) => f(ma(l).0)(ma(l).1)
  }

  /** `apFirst(fb)(fa) = ap(map(fa, a => () => a), fb)`. */
  function ApFirst<A, B>(fa: IO<A>, fb: IO<B>): IO<A>
  {
    Ap(Map(fa, (a: A) => (_: B) => a), fb)
  }

  /** `apSecond(fb)(fa) = ap(map(fa, () => b => b), fb)`. */
  function ApSecond<A, B>(fa: IO<A>, fb: IO<B>): IO<B>
  {
    Ap(Map(fa, (_: A) => (b: B) => b), fb)
  }

  /** `chainFirst(f)(ma) = chain(ma, a => map(f(a), () => a))`. */
  function ChainFirst<A, B>(ma: IO<A>, f: A -> IO<B>): IO<A>
  {
    Chain(ma, (a: A) => Map(f(a), (_: B) => a))
  }

  /** `getSemigroup(S)`: concat runs `x`, then `y`, and joins their values with `S`. */
  function GetSemigroup<A>(S: Semigroup<A>): Semigroup<IO<A>>
  {
    Semigroup((x: IO<A>, y: IO<A>) => (l: Log) => (S.concat(x(l).0, y(x(l).1).0), y(x(l).1).1))
  }

  /** `getMonoid(M)`: the semigroup above with `of(M.empty)` as the empty IO. */
  function GetMonoid<A>(M: Monoid<A>): Monoid<IO<A>>
  {
    Monoid(GetSemigroup(SemigroupOf(M)).concat, Of(M.empty))
  }

  // ---------------------------------------------------------------------------
  // Laws about effects and values
  // ---------------------------------------------------------------------------

  lemma OfIsPure<A>(a: A)
    ensures Emits(Of(a), []) && Yields(Of(a), a)
  {
  }

  /** `map` performs exactly the effects of `ma` and applies `f` to its value. */
  lemma MapKeepsEffects<A, B>(ma: IO<A>, f: A -> B, a: A, es: seq<Event>)
    ensures Yields(ma, a) ==> Yields(Map(ma, f), f(a))
    ensures Emits(ma, es) ==> Emits(Map(ma, f), es)
  {
  }

  /** `ap` runs the function's effects first: the argument runs on the log the function left behind. */
  lemma ApRunsFunctionFirst<A, B>(mab: IO<A -> B>, ma: IO<A>, g: A -> B, a: A, e1: seq<Event>, e2: seq<Event>)
    ensures Yields(mab, g) && Yields(ma, a) ==> Yields(Ap(mab, ma), g(a))
    ensures Emits(mab, e1) && Emits(ma, e2) ==> Emits(Ap(mab, ma), e1 + e2)
  {
    if Yields(mab, g) && Yields(ma, a) {
      forall l: Log ensures Ap(mab, ma)(l).0 == g(a) {
        assert mab(l).0 == g && ma(mab(l).1).0 == a;
      }
    }
    if Emits(mab, e1) && Emits(ma, e2) {
      forall l: Log ensures Ap(mab, ma)(l).1 == l + (e1 + e2) {
        assert (l + e1) + e2 == l + (e1 + e2);
      }
    }
  }

  /** Instantiates a family of IOs that all emit `es` at one argument. */
  lemma EmitsEverywhere<A, B>(f: A -> IO<B>, es: seq<Event>, a: A)
    requires forall x: A :: Emits(f(x), es)
    ensures Emits(f(a), es)
  {
  }

  /** `chain` runs `ma`, then the IO built from its value, on the log `ma` left behind. */
  lemma ChainRunsInSequence<A, B>(ma: IO<A>, f: A -> IO<B>, a: A, b: B, e1: seq<Event>, e2: seq<Event>)
    requires Emits(ma, e1)
    requires forall x: A :: Emits(f(x), e2)
    ensures Yields(ma, a) && Yields(f(a), b) ==> Yields(Chain(ma, f), b)
    ensures Emits(Chain(ma, f), e1 + e2)
  {
    forall l: Log ensures Chain(ma, f)(l).1 == l + (e1 + e2) {
      EmitsEverywhere(f, e2, ma(l).0);
      assert (l + e1) + e2 == l + (e1 + e2);
    }
  }

  /** `apFirst` runs both effects in order and keeps the first value. */
  lemma ApFirstKeepsFirst<A, B>(fa: IO<A>, fb: IO<B>, e1: seq<Event>, e2: seq<Event>)
    ensures forall l: Log :: ApFirst(fa, fb)(l) == (fa(l).0, fb(fa(l).1).1)
    ensures Emits(fa, e1) && Emits(fb, e2) ==> Emits(ApFirst(fa, fb), e1 + e2)
  {
    if Emits(fa, e1) && Emits(fb, e2) {
      forall l: Log ensures ApFirst(fa, fb)(l).1 == l + (e1 + e2) {
        assert (l + e1) + e2 == l + (e1 + e2);
      }
    }
  }

  /** `apSecond` runs both effects in order and keeps the second value. */
  lemma ApSecondKeepsSecond<A, B>(fa: IO<A>, fb: IO<B>, e1: seq<Event>, e2: seq<Event>)
    ensures forall l: Log :: ApSecond(fa, fb)(l) == (fb(fa(l).1).0, fb(fa(l).1).1)
    ensures Emits(fa, e1) && Emits(fb, e2) ==> Emits(ApSecond(fa, fb), e1 + e2)
  {
    if Emits(fa, e1) && Emits(fb, e2) {
      forall l: Log ensures ApSecond(fa, fb)(l).1 == l + (e1 + e2) {
        assert (l + e1) + e2 == l + (e1 + e2);
      }
    }
  }

  /** `chainFirst` runs `ma`, then `f` of its value, and keeps the value of `ma`. */
  lemma ChainFirstKeepsFirst<A, B>(ma: IO<A>, f: A -> IO<B>)
    ensures forall l: Log :: ChainFirst(ma, f)(l) == (ma(l).0, f(ma(l).0)(ma(l).1).1)
  {
  }

  /** The IO semigroup runs `x` before `y` and concatenates their values with `S`. */
  lemma SemigroupRunsInOrder<A>(S: Semigroup<A>, x: IO<A>, y: IO<A>, e1: seq<Event>, e2: seq<Event>)
    ensures forall l: Log :: GetSemigroup(S).concat(x, y)(l).0 == S.concat(x(l).0, y(x(l).1).0)
    ensures Emits(x, e1) && Emits(y, e2) ==> Emits(GetSemigroup(S).concat(x, y), e1 + e2)
  {
    if Emits(x, e1) && Emits(y, e2) {
      forall l: Log ensures GetSemigroup(S).concat(x, y)(l).1 == l + (e1 + e2) {
        assert (l + e1) + e2 == l + (e1 + e2);
      }
    }
  }

  /** With a lawful monoid, `of(M.empty)` is a left and right identity of the IO concat. */
  lemma MonoidIdentity<A(!new)>(M: Monoid<A>, x: IO<A>)
    requires MonoidLaws(M)
    ensures GetMonoid(M).empty == Of(M.empty)
    ensures forall l: Log :: GetMonoid(M).concat(GetMonoid(M).empty, x)(l) == x(l)
    ensures forall l: Log :: GetMonoid(M).concat(x, GetMonoid(M).empty)(l) == x(l)
  {
  }

  // ---------------------------------------------------------------------------
  // Array traversal
  // ---------------------------------------------------------------------------

  /** Runs `f(i, arr[i])` for `i = 0 .. n-1` in turn, threading the log; yields the values in index order. */
  function RunIndexed<A, B>(f: (nat, A) -> IO<B>, arr: seq<A>, n: nat, l: Log): (seq<B>, Log)
    requires n <= |arr|
    decreases n
  {
    if n == 0 then ([], l)
    else
      var prev := RunIndexed(f, arr, n - 1, l);
      var step := f(n - 1, arr[n - 1])(prev.1);
      (prev.0 + [step.0], step.1)
  }

  /** `traverseArrayWithIndex(f)(arr)`: a thunk running `f(i, arr[i])()` for each index in ascending order. */
  function TraverseArrayWithIndex<A, B>(f: (nat, A) -> IO<B>, arr: seq<A>): IO<seq<B>>
  {
    (l: Log) => RunIndexed(f, arr, |arr|, l)
  }

  /** `traverseArray(f) = traverseArrayWithIndex((_, a) => f(a))`. */
  function TraverseArray<A, B>(f: A -> IO<B>, arr: seq<A>): IO<seq<B>>
  {
    TraverseArrayWithIndex(IgnoreIndex(f), arr)
  }

  /** `(_, a) => f(a)`. */
  function IgnoreIndex<A, B>(f: A -> IO<B>): (nat, A) -> IO<B>
  {
    (_: nat, a: A) => f(a)
  }

  /** The identity on IO values. */
  function Self<A>(io: IO<A>): IO<A>
  {
    io
  }

  /** `sequenceArray = traverseArray(identity)`. */
  function SequenceArray<A>(arr: seq<IO<A>>): IO<seq<A>>
  {
    TraverseArray(Self, arr)
  }

  /** Running the thunk of `traverseArrayWithIndex(f)(arr)`: the `arr.map` loop, one index at a time. */
  method RunTraverseArrayWithIndex<A, B>(f: (nat, A) -> IO<B>, arr: seq<A>, log: Log) returns (bs: seq<B>, out: Log)
    ensures (bs, out) == TraverseArrayWithIndex(f, arr)(log)
    ensures |bs| == |arr|
  {
    bs, out := [], log;
    var i := 0;
    while i < |arr|
      invariant 0 <= i <= |arr|
      invariant (bs, out) == RunIndexed(f, arr, i, log)
      invariant |bs| == i
    {
      var step := f(i, arr[i])(out);
      bs, out := bs + [step.0], step.1;
      i := i + 1;
    }
  }

  /** The concatenation of a sequence of event lists, in order. */
  function Flatten(ess: seq<seq<Event>>): seq<Event>
  {
    if ess == [] then [] else Flatten(ess[..|ess| - 1]) + ess[|ess| - 1]
  }

  lemma {:induction false} RunIndexedLength<A, B>(f: (nat, A) -> IO<B>, arr: seq<A>, n: nat, l: Log)
    requires n <= |arr|
    ensures |RunIndexed(f, arr, n, l).0| == n
    decreases n
  {
    if n > 0 {
      RunIndexedLength(f, arr, n - 1, l);
    }
  }

  /** When `f(i, arr[i])` appends `es[i]` and yields `bs[i]`, the first `n` steps append `es[0] + ... + es[n-1]` and yield `bs[..n]`. */
  lemma {:induction false} RunIndexedInOrder<A, B>(f: (nat, A) -> IO<B>, arr: seq<A>, es: seq<seq<Event>>, bs: seq<B>, n: nat, l: Log)
    requires n <= |arr| == |es| == |bs|
    requires forall i | 0 <= i < |arr| :: Emits(f(i, arr[i]), es[i]) && Yields(f(i, arr[i]), bs[i])
    ensures RunIndexed(f, arr, n, l) == (bs[..n], l + Flatten(es[..n]))
    decreases n
  {
    if n > 0 {
      RunIndexedInOrder(f, arr, es, bs, n - 1, l);
      var io := f(n - 1, arr[n - 1]);
      var prev := l + Flatten(es[..n - 1]);
      assert Emits(io, es[n - 1]) && Yields(io, bs[n - 1]);
      assert io(prev) == (bs[n - 1], prev + es[n - 1]);
      assert RunIndexed(f, arr, n - 1, l) == (bs[..n - 1], prev);
      assert RunIndexed(f, arr, n, l) == (bs[..n - 1] + [bs[n - 1]], prev + es[n - 1]);
      assert es[..n][..n - 1] == es[..n - 1] && es[..n][n - 1] == es[n - 1];
      assert Flatten(es[..n]) == Flatten(es[..n - 1]) + es[n - 1];
      assert bs[..n - 1] + [bs[n - 1]] == bs[..n];
      assert prev + es[n - 1] == l + (Flatten(es[..n - 1]) + es[n - 1]);
    } else {
      assert es[..0] == [] && bs[..0] == [] && l + [] == l;
    }
  }

  /** `traverseArrayWithIndex` yields one value per element and runs the effects in index order. */
  lemma TraverseInIndexOrder<A, B>(f: (nat, A) -> IO<B>, arr: seq<A>, es: seq<seq<Event>>, bs: seq<B>)
    requires |arr| == |es| == |bs|
    requires forall i | 0 <= i < |arr| :: Emits(f(i, arr[i]), es[i]) && Yields(f(i, arr[i]), bs[i])
    ensures forall l: Log :: |TraverseArrayWithIndex(f, arr)(l).0| == |arr|
    ensures Emits(TraverseArrayWithIndex(f, arr), Flatten(es))
    ensures Yields(TraverseArrayWithIndex(f, arr), bs)
  {
    forall l: Log ensures TraverseArrayWithIndex(f, arr)(l) == (bs, l + Flatten(es)) {
      RunIndexedInOrder(f, arr, es, bs, |arr|, l);
      assert es[..|arr|] == es && bs[..|arr|] == bs;
    }
  }

  /** `sequenceArray` runs the IOs left to right and collects their values. */
  lemma SequenceArrayInOrder<A>(ios: seq<IO<A>>, es: seq<seq<Event>>, as_: seq<A>)
    requires |ios| == |es| == |as_|
    requires forall i | 0 <= i < |ios| :: Emits(ios[i], es[i]) && Yields(ios[i], as_[i])
    ensures Emits(SequenceArray(ios), Flatten(es))
    ensures Yields(SequenceArray(ios), as_)
  {
    var f := IgnoreIndex(Self);
    assert forall i | 0 <= i < |ios| :: f(i, ios[i]) == ios[i];
    TraverseInIndexOrder(f, ios, es, as_);
  }

  // ---------------------------------------------------------------------------
  // chainRec
  // ---------------------------------------------------------------------------

  /**
   * `chainRec(a, f)` re-runs `f` on each `left` payload until a `right` appears.
   * Termination is not guaranteed in general, so the model allows `fuel` further
   * steps after the first and yields `none` when they run out.
   */
  function ChainRecRun<A, B>(a: A, f: A -> IO<Either<A, B>>, fuel: nat, l: Log): (Option<B>, Log)
    decreases fuel, 1
  {
    var step := f(a)(l);
    Resume(step.0, f, fuel, step.1)
  }

  /** Continues `chainRec` from the result `e` of a step. */
  function Resume<A, B>(e: Either<A, B>, f: A -> IO<Either<A, B>>, fuel: nat, l: Log): (Option<B>, Log)
    decreases fuel, 0
  {
    match e
    case Right(b) => (Some(b), l)
    case Left(a) => if fuel == 0 then (None, l) else ChainRecRun(a, f, fuel - 1, l)
  }

  function ChainRec<A, B>(a: A, f: A -> IO<Either<A, B>>, fuel: nat): IO<Option<B>>
  {
    (l: Log) => ChainRecRun(a, f, fuel, l)
  }

  /** Running the thunk of `chainRec(a, f)`: the `while` loop over `left` results. */
  method RunChainRec<A, B>(a: A, f: A -> IO<Either<A, B>>, fuel: nat, log: Log) returns (r: Option<B>, out: Log)
    ensures (r, out) == ChainRec(a, f, fuel)(log)
  {
    var step := f(a)(log);
    var e := step.0;
    out := step.1;
    var n := fuel;
    while e.Left? && n > 0
      invariant Resume(e, f, n, out) == ChainRecRun(a, f, fuel, log)
    {
      step := f(e.left)(out);
      e, out := step.0, step.1;
      n := n - 1;
    }
    r := if e.Right? then Some(e.right) else None;
  }

  /** The tail-recursion law: a `left` step continues from its payload on the log it left behind, a `right` step stops. */
  lemma ChainRecUnfolds<A, B>(a: A, f: A -> IO<Either<A, B>>, fuel: nat, l: Log)
    ensures f(a)(l).0.Right? ==> ChainRecRun(a, f, fuel, l) == (Some(f(a)(l).0.right), f(a)(l).1)
    ensures f(a)(l).0.Left? ==> ChainRecRun(a, f, fuel + 1, l) == ChainRecRun(f(a)(l).0.left, f, fuel, f(a)(l).1)
  {
  }

  /** More fuel never changes a result that was already reached. */
  lemma {:induction false} ChainRecFuelMonotone<A, B>(a: A, f: A -> IO<Either<A, B>>, fuel: nat, extra: nat, l: Log)
    requires ChainRecRun(a, f, fuel, l).0.Some?
    ensures ChainRecRun(a, f, fuel + extra, l) == ChainRecRun(a, f, fuel, l)
    decreases fuel
  {
    var step := f(a)(l);
    if step.0.Left? {
      ChainRecFuelMonotone(step.0.left, f, fuel - 1, extra, step.1);
    }
  }
}

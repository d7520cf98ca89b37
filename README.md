# fp-ts combinator layer in Dafny

A Dafny model of the combinator layer of fp-ts, the TypeScript library of typed functional programming:

- the `Apply` engine: `sequenceT` with its tuple-constructor cache, `sequenceS`, `liftA2`–`liftA4`, `applyFirst`, `applySecond` and `getSemigroup`;
- the `TheseT` and `ReaderT` monad transformers;
- the string-keyed dictionary `StrMap`;
- the `Identity` and `IO` monads.

Dafny has no higher-kinded types, so each combinator generic over an Apply or Monad `F` is instantiated at concrete effects:

- `Identity` (a value is its own effect);
- `Option` (`OptionM`);
- `Either`, which stops at the first `left` (`EitherM`);
- validation, an `Either` whose `ap` joins two `left`s with a `Semigroup` (`ValidationM`);
- `IO`;
- for `sequenceT`, a tracing effect that records every `map` and `ap` call.

Type-class dictionaries (`Semigroup`, `Monoid`, `Setoid`) are datatypes holding functions (module `Algebra`).

Modules follow the source files:

| module | file | models |
|---|---|---|
| `SequenceT`, `SequenceS`, `Apply` | `sequence_t.dfy`, `sequence_s.dfy`, `apply.dfy` | src/Apply.ts |
| `TheseT` | `these_t.dfy` | src/TheseT.ts |
| `ReaderT` | `reader_t.dfy` | src/ReaderT.ts |
| `StrMap` | `str_map.dfy` | src/StrMap.ts |
| `Identity` | `identity.dfy` | src/Identity.ts |
| `IO` | `io.dfy` | src/IO.ts |

Where the source runs a loop or changes state, the model does too:

- `sequenceT`'s `for` loop and its module-level `tupleConstructors` object become a method with loop invariants and a class `TupleConstructors` whose `entries` map a `Get` method updates.
- The `for…in` loops of `StrMap` become methods, each proved against a specification function.
- `sequenceS`'s loop becomes a method.
- The `while` loop of IO's `chainRec` becomes a method.
- So does the traversal that runs each thunk of an array.

Everything else is functions and lemmas.

Representation choices:

- The curried tuple builder of `sequenceT` is data. `Curried(acc, n)` has collected `acc` and takes `n + 1` more values, as `curried(f, n, acc)` does: it returns the tuple on the call made when `n` is 0. The builder cached for `len` arguments is `Curried([], len - 1)`. `Tuple(values)` is the finished array.
- An `IO<A>` is a function `Log -> (A, Log)` over an abstract log of events, so the order in which effects run is observable.
- A `StrMap` is its keys in enumeration order together with a `map` from key to value. Operations that copy in the source return new values.

## Model

| member | source | states |
|---|---|---|
| SequenceT.FeedFresh | src/Apply.ts:373 | feeding the first value to a fresh arity-`len` builder collects exactly that value |
| SequenceT.FeedAfter | src/Apply.ts:373 | feeding one more value to an unfinished builder appends it to the collected prefix |
| SequenceT.FeedAllPrefix | src/Apply.ts:373 | feeding any prefix of the arguments leaves the builder holding exactly that prefix |
| SequenceT.BuilderReturnsTuple | src/Apply.ts:373 | feeding all `len` values to the arity-`len` builder yields the array of those values in order |
| SequenceT.TupleConstructors.constructor | src/Apply.ts:345 | the cache starts empty and well formed |
| SequenceT.TupleConstructors.Get | src/Apply.ts:370-374 | after the call an entry for `len` exists; no other entry changes; an existing entry is never overwritten; the returned builder is the fresh arity-`len` builder whether or not it was cached |
| SequenceT.FoldIdentity | src/Apply.ts:375-379 | over Identity the map-then-ap fold returns the tuple of the arguments |
| SequenceT.SequenceTIdentity | src/Apply.ts:367-380 | `sequenceT(identity)(...args)` returns the arguments as a tuple; every other cache entry is kept, and the entry for `len` is the fresh arity-`len` builder |
| SequenceT.SomeValues | src/Apply.ts:351-357 | the payloads of all-`some` arguments, one per argument, in order |
| SequenceT.FoldOption | src/Apply.ts:375-379 | over Option the fold equals the specification: `some` of the values exactly when every argument is `some` |
| SequenceT.SequenceTOption | src/Apply.ts:367-380 | `sequenceT(option)` meets the Option specification; every other cache entry is kept, and the entry for `len` is the fresh arity-`len` builder |
| SequenceT.OptionSomeIffAllSome | src/Apply.ts:351-357 | the Option result is `some` if and only if every argument is `some`, and then holds every argument's value at its index |
| SequenceT.OptionExamples | src/Apply.ts:351-357 | the documented examples: `[some(1)]` gives `some([1])`, `[some(1), some(2)]` gives `some([1, 2])`, and `[some(1), some(2), none]` gives `none` |
| SequenceT.RightValues | src/Apply.ts:375-379 | the payloads of all-`right` arguments, one per argument, in order |
| SequenceT.FirstLeft | src/Apply.ts:375-379 | the index of the first `left` argument, if any: none exactly when all are `right`; otherwise a `left` with only `right`s before it |
| SequenceT.FoldEither | src/Apply.ts:375-379 | over fail-fast Either the fold equals the specification: `right` of the values when all are `right`, else the first `left` |
| SequenceT.SequenceTEither | src/Apply.ts:367-380 | `sequenceT(either)` meets the Either specification; every other cache entry is kept, and the entry for `len` is the fresh arity-`len` builder |
| SequenceT.EitherReturnsFirstLeft | src/Apply.ts:375-379 | if `args[k]` is the first `left`, fail-fast Either returns it; validation returns it too when it is the only `left` |
| SequenceT.OnlyLeft | src/Apply.ts:375-379 | when exactly one argument is `left`, it is the only error collected |
| SequenceT.Lefts | src/Apply.ts:375-379 | the collected `left` payloads are empty exactly when every argument is `right`, and number at most the arguments |
| SequenceT.FoldValidation | src/Apply.ts:375-379 | over validation the fold equals the specification: every `left` joined in argument order through `S`, or `right` of all the values |
| SequenceT.ValidationStep | src/Apply.ts:377 | one `ap` on the accumulated validation extends the prefix result by the next argument |
| SequenceT.SequenceTValidation | src/Apply.ts:367-380 | `sequenceT(validation)` meets the validation specification; every other cache entry is kept, and the entry for `len` is the fresh arity-`len` builder |
| SequenceT.ValidationAccumulatesExample | test/ReaderTaskEither.ts:294-300 | with string concatenation, validation over `left('a'), left('b')` gives `left('ab')`; fail-fast Either gives `left('a')` |
| SequenceT.TracedValues | src/Apply.ts:375-379 | the traced arguments' values, one per argument, in order |
| SequenceT.FoldTraced | src/Apply.ts:375-379 | over the tracing effect the fold records `map` on argument 0, then `ap` on arguments 1, 2, … in turn, and returns the tuple of the values |
| SequenceT.SequenceTTraced | src/Apply.ts:367-380 | `sequenceT` over the tracing effect produces that call record and tuple,; every other cache entry is kept, and the entry for `len` is the fresh arity-`len` builder |
| SequenceT.CallsInOrder | src/Apply.ts:375-378 | the call record holds exactly one `map`, and that `map` is applied to `args[0]`; it holds `len - 1` `ap`s; it consumes the arguments in index order |
| SequenceS.FirstKeys | src/Apply.ts:446 | the one-field record `{ [fst]: a }` has exactly the first key |
| SequenceS.StoreNext | src/Apply.ts:449-452 | assigning the next field's key, which is new, appends it to the record's keys and sets its value |
| SequenceS.EitherStep | src/Apply.ts:447-455 | one `ap` over fail-fast Either keeps the fold's state: all `right` so far with their payloads stored in field order, or the first `left` |
| SequenceS.EitherDone | src/Apply.ts:441-458 | the final fold state gives the result's contract |
| SequenceS.OptionStep | src/Apply.ts:447-455 | one `ap` over Option keeps the fold's state: `some` exactly when every field so far is, with their payloads stored in field order |
| SequenceS.KeysOfStep | src/Apply.ts:447-456 | the keys stored after one more field are the previous keys plus that field's key |
| SequenceS.StoreRight | src/Apply.ts:448-453 | storing the next `right` payload at its key keeps every earlier field's payload and adds the new one |
| SequenceS.SequenceSEither | src/Apply.ts:441-458 | with all fields `right`, the result is `right` of a record with exactly the input keys, in the input order, mapped to their payloads; with a `left` field whose predecessors are all `right`, it is that `left` |
| SequenceS.SequenceSOption | src/Apply.ts:441-458 | the result is `some` if and only if every field is `some`, and then holds exactly the input keys, in the input order, mapped to their payloads |
| Apply.LiftA2OptionSemantics | src/Apply.ts:143-145 | `liftA2(f)(fa)(fb)` over Option is `some(f(a)(b))` when both are present, and `none` otherwise |
| Apply.LiftChainsExtend | src/Apply.ts:193-198 | `liftA3` is `liftA2` followed by one more `ap`, and `liftA4` is `liftA3` followed by one more; `liftA4` is `some` if and only if all four arguments are, and then holds `f(a)(b)(c)(d)` |
| Apply.ApplyFirstSecondOption | src/Apply.ts:74-76 | `applyFirst` keeps the first value and `applySecond` the second; both need both present |
| Apply.OptionSemigroupAbsorbs | src/Apply.ts:294-299 | in `getSemigroup(option, S)`, `none` absorbs on either side and two `some`s combine with `S` |
| Apply.OptionSemigroupSumExample | src/Apply.ts:265-269 | the documented examples with integer sum: `some(1) ⊕ some(2) = some(3)`, and a `none` on either side gives `none` |
| Apply.OptionSemigroupAssociative | src/Apply.ts:294-299 | the lifted semigroup over Option is associative whenever `S` is |
| Apply.LiftA2ValidationSemantics | src/Apply.ts:143-145 | over validation `liftA2` joins two errors with `S` and keeps a single error; it applies `f` only when both are `right` |
| Apply.ApplyFirstSecondValidation | src/Apply.ts:103-105 | over validation, `applyFirst` and `applySecond` keep the chosen value when both succeed, join both errors when both fail, and keep the one error otherwise |
| TheseT.AbsorbCases | src/TheseT.ts:131-135 | the inner fold of `chain_` on `both(e1, …)`: `left(e2)` becomes `left(e1 <> e2)`; `right(b)` becomes `both(e1, b)`; `both(e2, b)` becomes `both(e1 <> e2, b)` |
| TheseT.ChainUnfold | src/TheseT.ts:120-139 | with `M` = Identity, `chain_(S)(f)(ma)` is the three-way case analysis on `ma` |
| TheseT.FoldOfConstructors | src/TheseT.ts:201-209 | `fold_` on `right_(a)`, `left_(e)`, `both_(e, a)`, `rightF_(a)` and `leftF_(e)` calls `onRight`, `onLeft` and `onBoth` respectively, on those payloads |
| TheseT.ChainLeft | src/TheseT.ts:124-128 | `chain_` on `left(e)` yields `left(e)` whatever `f` is |
| TheseT.ChainRight | src/TheseT.ts:128 | `chain_` on `right(a)` yields exactly `f(a)` (left identity) |
| TheseT.ChainBoth | src/TheseT.ts:128-136 | `chain_` on `both(e1, a)` yields `left(e1 <> e2)`, `both(e1, b)` or `both(e1 <> e2, b)` as `f(a)` is `left(e2)`, `right(b)` or `both(e2, b)` |
| TheseT.GetMonadAgrees | src/TheseT.ts:371-407 | `getTheseM(identity).getMonad(S).chain` agrees with `chain_` on all inputs, and its `of(a)` is `right_(a)` |
| TheseT.ChainRightIdentity | src/TheseT.ts:120-139 | chaining with `of` returns the input unchanged (right identity) |
| TheseT.GetMonadApCases | src/TheseT.ts:413-414 | `getMonad.ap`: a `left` function gives that `left` whatever `ma` is; a `right` function maps over `ma`; a `both` function joins its error with `ma`'s, in every case of `ma` |
| TheseT.ChainAssociative | src/TheseT.ts:120-139 | `chain_` is associative whenever `S` is |
| TheseT.FoldOfConstructorsOption | src/TheseT.ts:201-209 | with `M` = Option, `fold_` sends each constructor to its handler; `none` stays `none` through `rightF_`, `leftF_` and `fold_` |
| TheseT.ChainOptionUnfold | src/TheseT.ts:120-139 | with `M` = Option, `chain_` is the case analysis under `none`/`some` |
| TheseT.ChainOptionCases | src/TheseT.ts:124-136 | with `M` = Option: `none` stays `none` and `left(e)` stays `left(e)`; `right(a)` gives `f(a)`; `both(e1, a)` absorbs `e1` into `f(a)`, or gives `none` when `f(a)` is `none` |
| TheseT.GetMonadAgreesOption | src/TheseT.ts:371-407 | with `M` = Option, `getMonad.chain` agrees with `chain_` and `of(a)` is `some(right(a))` |
| TheseT.GetMonadApOptionCases | src/TheseT.ts:413-414 | with `M` = Option, `getMonad.ap` on `none` or a `left` function ignores `ma`; a `right` function maps over `some(t)`; a `both` function absorbs its error into the mapped `ma`; `none` for `ma` gives `none` |
| ReaderT.ConstructorsRead | src/ReaderT.ts:18-104 | for every environment `r`: `of_(a)(r) = a`, `ask_()(r) = r`, `asks_(f)(r) = fromReader_(f)(r) = f(r)`, and `fromM(ma)(r) = ma` |
| ReaderT.SameEnvironment | src/ReaderT.ts:32-74 | `ap_` gives both sides the same environment; `chain_` passes the same, unmodified environment to the continuation; `map_` maps the result at that environment |
| ReaderT.MonadLaws | src/ReaderT.ts:18-74 | pointwise in the environment: left identity, right identity and associativity of `chain_` |
| ReaderT.AsksConsistency | src/ReaderT.ts:92-104 | `asks_(f)` is `map_(ask_(), f)`, equal to `fromReader_(f)` and to `getReaderM`'s `asks(f)` |
| ReaderT.LocalLaws | src/ReaderT.ts:255 | `local(ma, f)(q) = ma(f(q))`: the identity is neutral, two `local`s compose, `local` distributes over `chain_`, and `local(ask, f)` reads `f(q)` |
| ReaderT.FromMIgnoresEnvironment | src/ReaderT.ts:257 | `fromM(ma)` gives the same value in every environment |
| ReaderT.OptionPointwise | src/ReaderT.ts:52-74 | with `M` = Option: at every environment `ap_` is `some` exactly when both sides are `some` there, and then applies the function; `chain_` stops at `none` and otherwise runs the continuation at the same environment |
| ReaderT.OptionConstructors | src/ReaderT.ts:18-104 | with `M` = Option, at every environment `r`: `of_(a)` gives `some(a)`; `ask_()` gives `some(r)`; `asks_(g)`, `fromReader_(g)` and `asks(g)` give `some(g(r))`; `fromM(ma)` gives `ma` |
| ReaderT.OptionMonadLaws | src/ReaderT.ts:18-74 | with `M` = Option: the three monad laws hold pointwise, and `local` distributes over `chain_` |
| StrMap.SizeCountsEntries | src/StrMap.ts:123-136 | `size` is the number of entries, and `isEmpty` holds if and only if `size` is 0, that is, exactly when there are no entries |
| StrMap.SingletonHasOneEntry | src/StrMap.ts:150-152 | `size(singleton(k, a)) = 1`; `lookup(k)` finds `a`; every other key is absent |
| StrMap.InsertThenLookup | src/StrMap.ts:205-209 | `lookup(k)(insert(k)(a)(d)) = some(a)` and every other key keeps its value; the size grows exactly when `k` is new; an existing key keeps its place |
| StrMap.RemoveThenLookup | src/StrMap.ts:215-219 | `remove(k)(d)` has no `k`, keeps every other entry, and is one smaller exactly when `k` was present |
| StrMap.PopCases | src/StrMap.ts:225-227 | `pop` is `none` exactly when `k` is absent, otherwise `some([d[k], remove(k)(d)])`; re-inserting the popped value restores the entries |
| StrMap.ConcatLookup | src/StrMap.ts:79-81 | `concat` has the union of the keys, and `y`'s value wins on a shared key |
| StrMap.ConcatLeftIdentity | src/StrMap.ts:77-91 | `concat(empty, x) = x`, key order included |
| StrMap.ConcatRightIdentity | src/StrMap.ts:77-91 | `concat(x, empty) = x`, key order included |
| StrMap.ConcatAssociative | src/StrMap.ts:79-81 | `concat` is associative, key order included |
| StrMap.MonoidIsLawful | src/StrMap.ts:86-91 | `getMonoid()` satisfies the monoid laws |
| StrMap.SetoidEquality | src/StrMap.ts:110-144 | `getSetoid(S).equals(x, y)` holds if and only if both have the same keys and `S`-equal values both ways at each |
| StrMap.InsertNewKeyValues | src/StrMap.ts:205-209 | inserting a new key puts its value last in key order, so `reduce` folds it last |
| StrMap.ConcatSingleton | src/StrMap.ts:79-81 | concatenating a singleton with a new key appends that key and adds its entry |
| StrMap.MapWithKey | src/StrMap.ts:33-39 | the same keys in the same order, each key `k` holding `f(k, v)` |
| StrMap.Map | src/StrMap.ts:40-42 | the same keys in the same order, each holding `f(v)` |
| StrMap.Reduce | src/StrMap.ts:43-49 | the left fold of `f` over the values in key order |
| StrMap.Collect | src/StrMap.ts:178-184 | one element per key, so its length is `size(d)`; element `i` is `f` of the `i`-th key and its value |
| StrMap.ToArray | src/StrMap.ts:187-189 | one `[key, value]` pair per key, in key order |
| StrMap.IsSubdictionary | src/StrMap.ts:110-117 | true exactly when every key of `d1` is in `d2` with an `S`-equal value |
| StrMap.SetoidEquals | src/StrMap.ts:139-144 | the run of `getSetoid(S).equals` agrees with its definition as mutual sub-dictionaries |
| StrMap.FromFoldable | src/StrMap.ts:167-175 | the loop builds the dictionary that folding the pairs in order defines |
| StrMap.FromPairsLookup | src/StrMap.ts:167-175 | a key is present exactly when some pair names it; its value is its first value combined through `f` with each later one, in order |
| StrMap.FromPairsSingleOccurrence | src/StrMap.ts:167-175 | a key named by one pair only keeps that pair's value, and `f` is not applied |
| StrMap.OnlyValue | src/StrMap.ts:167-175 | a key named once has exactly that one value among the pairs |
| StrMap.NoValue | src/StrMap.ts:167-175 | a key named once has no value before its pair |
| StrMap.Accumulate | src/StrMap.ts:63 | one step of `traverseWithKey` over Option is `some` exactly when both the accumulator and `f(k, v)` are, and then appends the singleton |
| StrMap.TraverseWithKeyOption | src/StrMap.ts:58-67 | over Option the result is `some` exactly when every `f(k, v)` is; it then has the same keys in the same order, each holding the payload of `f(k, v)` |
| StrMap.TraverseStep | src/StrMap.ts:62-64 | one loop step keeps the traversal state for the keys seen so far |
| StrMap.TraverseSomeStep | src/StrMap.ts:62-64 | appending the singleton of the next key extends the accumulated keys and values by that key |
| StrMap.TraversedAll | src/StrMap.ts:58-67 | the traversal state after every key gives the result's contract |
| Identity.ApFirst | src/Identity.ts:85-89 | `apFirst(fb)(fa) = fa` |
| Identity.ApSecond | src/Identity.ts:99-103 | `apSecond(fb)(fa) = fb` |
| Identity.ChainFirst | src/Identity.ts:130-136 | `chainFirst(f)(ma) = ma` |
| Identity.Duplicate | src/Identity.ts:156-158 | `duplicate` is the identity |
| Identity.Flatten | src/Identity.ts:166-168 | `flatten` is the identity |
| Identity.Alt | src/Identity.ts:219 | `alt(that)(fa) = fa` |
| Identity.MonadLaws | src/Identity.ts:111-119 | `of` and `chain` obey left identity, right identity and associativity |
| Identity.DerivedFromChain | src/Identity.ts:67-119 | `map` and `ap` agree with their definitions through `chain` and `of` |
| Identity.ComonadLaws | src/Identity.ts:142-158 | `extract(extend(f)(wa)) = f(wa)`, `extend(extract) = id`, `extract(duplicate(wa)) = wa` |
| Identity.FoldableConsistency | src/Identity.ts:174-186 | for a lawful monoid `M`, `foldMap(M)(f)` agrees with `reduce` through `M`'s concat, and `reduceRight` agrees with `reduce` with the arguments swapped |
| Identity.AltIgnoresAlternative | src/Identity.ts:210-219 | `alt` returns `fa` whatever `that` is: `that` is never used |
| IO.OfIsPure | src/IO.ts:106 | `of(a)` performs no effects and returns `a` |
| IO.MapKeepsEffects | src/IO.ts:62 | `map(f)(fa)` performs exactly `fa`'s effects, and yields `f(a)` when `fa` yields `a` |
| IO.ApRunsFunctionFirst | src/IO.ts:70 | `ap` emits `fab`'s effects before `fa`'s, and yields `g(a)` when `fab` yields `g` and `fa` yields `a` |
| IO.ChainRunsInSequence | src/IO.ts:114 | `chain(f)(ma)` emits `ma`'s effects, then those of `f` of its result; it yields what `f(a)` yields when `ma` yields `a` |
| IO.ApFirstKeepsFirst | src/IO.ts:80-84 | `apFirst` runs both in order and returns the first value |
| IO.ApSecondKeepsSecond | src/IO.ts:94-98 | `apSecond` runs both in order and returns the second value |
| IO.ChainFirstKeepsFirst | src/IO.ts:125-131 | `chainFirst` runs `ma` then `f` of its result, and returns `ma`'s value |
| IO.SemigroupRunsInOrder | src/IO.ts:175-179 | `getSemigroup(S).concat(x, y)` runs `x` then `y` and returns `S.concat` of the results |
| IO.MonoidIdentity | src/IO.ts:185-190 | `getMonoid(M).empty = of(M.empty)`, an identity on both sides of `concat` when `M` is a lawful monoid |
| IO.RunTraverseArrayWithIndex | src/IO.ts:317-319 | running each `f(i, arr[i])` in turn gives the specified traversal, one result per element |
| IO.RunIndexedLength | src/IO.ts:317-319 | the first `n` steps yield `n` results |
| IO.RunIndexedInOrder | src/IO.ts:317-319 | the first `n` steps return the first `n` results in index order and emit the first `n` effect lists in that order |
| IO.TraverseInIndexOrder | src/IO.ts:317-340 | `traverseArrayWithIndex(f)(arr)` runs `f(i, arr[i])` for ascending `i`, returning their results in that order with the same length |
| IO.SequenceArrayInOrder | src/IO.ts:360-362 | `sequenceArray` runs the array's IOs in order and returns their results in order |
| IO.RunChainRec | src/IO.ts:43-49 | the `while` loop computes the specified `chainRec` result and log |
| IO.ChainRecUnfolds | src/IO.ts:43-49 | a `right` from `f(a)` is returned at once; a `left` re-runs `f` on its payload after `f`'s effects |
| IO.ChainRecFuelMonotone | src/IO.ts:43-49 | once a run finishes within some fuel, more fuel gives the same result and log |

## Left out

- The `HKT`/`Kind`/`URIS` encoding and the per-arity overload signatures: each combinator is instantiated per concrete effect instead.
- `sequenceT` and `sequenceS` take heterogeneous tuples and records; the model uses one element type per call.
- `src/function.ts`, where `curried` is defined, is not part of this model. The builder datatype follows its behaviour: collect `n + 1` more arguments, then call the tuple function.
- SequenceT.Feed: feeding a finished `Tuple` returns it unchanged. In the source, calling an array as a function raises a `TypeError`. No call reaches this case: the fold feeds exactly `len - 1` values after the first.
- The zero-argument `sequenceT` call is excluded by a `len >= 1` precondition. The source rejects it at the type level.
- SequenceS.SequenceSEither and SequenceS.SequenceSOption require a non-empty record (`|fields| >= 1`) with distinct keys. The source's `EnforceNonEmptyRecord` rejects an empty record at the type level, and an object's keys are distinct.
- SequenceT.FoldOption, SequenceT.FoldEither and SequenceT.FoldValidation: the accumulated builder is data, so each step turns it into a function with one extra `map(r, AsFunction)` before the `ap`. The source's `F.ap(r, args[i])` has no such `map`. For these effects a `map` with that coercion changes no result, and SequenceT.FoldTraced leaves it out of its call record.
- SequenceT.TupleConstructors: the cache holds builders for one element type `T`, whereas the source's cache is untyped and shared by all calls.
- SequenceS.SequenceSEither: the accumulator record is mutated in place in the source (`r[key] = a`). The model builds a new record value, with the keys in creation order and a map of values, at each step; aliasing is therefore not modelled. In the source the mapped function always returns the same object. The same holds for SequenceS.SequenceSOption.
- `ap_`, `swap_`, `bimap_`, `mapLeft_` and `toReadonlyTuple2_` of src/TheseT.ts, and the `getTheseM` members other than `map`, `of`, `left` and `getMonad`: they delegate to src/These.ts, which is not part of this model.
- `getReaderM`'s `map`, `of`, `ap`, `chain`, `ask` and `fromReader` repeat `map_`, `of_`, `ap_`, `chain_`, `ask_` and `fromReader_`; they are modelled by those.
- StrMap.toUnfoldable: it needs an `Unfoldable` instance that is not part of this model.
- The `traverse` methods and the `strmap` instance of src/StrMap.ts: only `traverseWithKey` over Option is modelled.
- JavaScript key enumeration: integer-like keys first, prototype keys, and `hasOwnProperty` edge cases. Key order is insertion order.
- StrMap.IsEmpty: the source returns `k === null` for the first key, which is always false; the model returns whether there are no keys.
- StrMap.FromFoldable: the source mutates the fold's own accumulator in place (`b.value[k] = …`); the model builds a new value at each step. Nothing else can observe that accumulator.
- StrMap.Insert and StrMap.Remove: the source copies the object before changing it, so the input is never changed. Value semantics in the model gives this for free, and it is not stated as a separate property.
- IO: effects are abstract `int` events appended to a log; thunks, exceptions, and real side effects are not modelled.
- IO.ChainRec: termination is not guaranteed in the source. The model runs with a `fuel` bound and returns `None` when the fuel runs out; totality is not proved.
- src/IxIO.ts and src/Profunctor.ts, the `examples/` and `dtslint/` directories, Task and ReaderTaskEither, and the test files other than the cited validation example: outside the modelled core.

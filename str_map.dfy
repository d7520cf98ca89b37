/**
 * The string-keyed dictionary of src/StrMap.ts. A `StrMap` wraps a plain object;
 * here that object is its keys in enumeration order together with a map from
 * key to value. Insertion order stands for the object's property order.
 * Operations that copy (`insert`, `remove`, `concat`) return new dictionaries,
 * so an argument is never changed. The `for..in` loops of the source are
 * methods with loops, each proved against a specification.
 */
module StrMap {
  import opened Algebra
  import opened OptionM
  import Apply

  datatype Dict<A> = Dict(keys: seq<string>, value: map<string, A>)

  /** No key is listed twice. */
  predicate Distinct(s: seq<string>)
  {
    s == [] || (s[0] !in s[1..] && Distinct(s[1..]))
  }

  /** The keys are listed once each, and exactly the keys of the map are listed. */
  ghost predicate Wf<A>(d: Dict<A>)
  {
    Distinct(d.keys) && d.value.Keys == KeySet(d.keys)
  }

  ghost function KeySet(s: seq<string>): set<string>
  {
    set x | x in s
  }

  type StrMap<A> = d: Dict<A> | Wf(d) witness Dict([], map[])

  // ---------------------------------------------------------------------------
  // Key sequences
  // ---------------------------------------------------------------------------

  /** The keys of `s` not in `m`, in their order in `s`. */
  function Except(s: seq<string>, m: set<string>): (r: seq<string>)
    ensures |r| <= |s|
  {
    if s == [] then [] else (if s[0] in m then [] else [s[0]]) + Except(s[1..], m)
  }

  lemma {:induction false} ExceptMembers(s: seq<string>, m: set<string>)
    ensures forall x :: x in Except(s, m) <==> x in s && x !in m
    decreases |s|
  {
    if s != [] {
      ExceptMembers(s[1..], m);
      assert s == [s[0]] + s[1..];
    }
  }

  lemma {:induction false} ExceptDistinct(s: seq<string>, m: set<string>)
    requires Distinct(s)
    ensures Distinct(Except(s, m))
    decreases |s|
  {
    if s != [] {
      ExceptDistinct(s[1..], m);
      ExceptMembers(s[1..], m);
      assert Distinct([s[0]]) by {
        assert [s[0]][1..] == [];
      }
      DistinctAppend(if s[0] in m then [] else [s[0]], Except(s[1..], m));
    }
  }

  lemma {:induction false} DistinctAppend(a: seq<string>, b: seq<string>)
    requires Distinct(a) && Distinct(b)
    requires forall x | x in a :: x !in b
    ensures Distinct(a + b)
    decreases |a|
  {
    if a == [] {
      assert a + b == b;
    } else {
      assert (a + b)[0] == a[0] && (a + b)[1..] == a[1..] + b;
      assert forall x | x in a[1..] :: x in a;
      DistinctAppend(a[1..], b);
      assert a[0] in a;
    }
  }

  /** Two positions of a list of distinct keys hold different keys. */
  lemma {:induction false} DistinctIndex(s: seq<string>, i: nat, j: nat)
    requires Distinct(s) && i < j < |s|
    ensures s[i] != s[j]
    decreases i
  {
    if i == 0 {
      assert s[j] == s[1..][j - 1];
    } else {
      DistinctIndex(s[1..], i - 1, j - 1);
    }
  }

  /** The key at position `i` does not occur before `i`. */
  lemma DistinctPrefix(s: seq<string>, i: nat)
    requires Distinct(s) && i < |s|
    ensures s[i] !in s[..i]
  {
    forall j | 0 <= j < i ensures s[..i][j] != s[i] {
      DistinctIndex(s, j, i);
    }
  }

  lemma {:induction false} ExceptAppend(a: seq<string>, b: seq<string>, m: set<string>)
    ensures Except(a + b, m) == Except(a, m) + Except(b, m)
    decreases |a|
  {
    if a != [] {
      assert (a + b)[0] == a[0] && (a + b)[1..] == a[1..] + b;
      ExceptAppend(a[1..], b, m);
    } else {
      assert a + b == b;
    }
  }

  lemma {:induction false} ExceptExcept(s: seq<string>, m1: set<string>, m2: set<string>)
    ensures Except(Except(s, m1), m2) == Except(s, m1 + m2)
    decreases |s|
  {
    if s != [] {
      var head := if s[0] in m1 then [] else [s[0]];
      ExceptAppend(head, Except(s[1..], m1), m2);
      ExceptExcept(s[1..], m1, m2);
      if s[0] !in m1 {
        assert head[1..] == [];
        assert Except(head, m2) == (if s[0] in m2 then [] else [s[0]]) + Except([], m2);
      }
    }
  }

  lemma {:induction false} ExceptNothing(s: seq<string>, m: set<string>)
    requires forall x | x in s :: x !in m
    ensures Except(s, m) == s
    decreases |s|
  {
    if s != [] {
      assert s[0] in s;
      forall x | x in s[1..] ensures x !in m {
        assert x in s;
      }
      ExceptNothing(s[1..], m);
      assert Except(s, m) == [s[0]] + s[1..];
      assert [s[0]] + s[1..] == s;
    }
  }

  /** A list of distinct keys has as many entries as its set. */
  lemma {:induction false} DistinctCardinality(s: seq<string>)
    requires Distinct(s)
    ensures |set x | x in s| == |s|
    decreases |s|
  {
    if s != [] {
      DistinctCardinality(s[1..]);
      assert (set x | x in s) == (set x | x in s[1..]) + {s[0]} by {
        assert s == [s[0]] + s[1..];
      }
    }
  }

  // ---------------------------------------------------------------------------
  // Pure operations
  // ---------------------------------------------------------------------------

  /** `empty`: the dictionary with no keys. */
  function Empty<A>(): StrMap<A>
  {
    Dict([], map[])
  }

  /** `lookup(k)(d)`: `some` of the value when `d` has its own key `k`, `none` otherwise. */
  function Lookup<A>(k: string, d: StrMap<A>): (r: Option<A>)
    ensures r.Some? <==> k in d.value
    ensures r.Some? ==> r.value == d.value[k]
  {
    if k in d.value then Some(d.value[k]) else None
  }

  /** `singleton(k, a)`. */
  function Singleton<A>(k: string, a: A): StrMap<A>
  {
    assert [k][1..] == [] && Distinct([k][1..]);
    assert KeySet([k]) == {k};
    Dict([k], map[k := a])
  }

  /** `size(d)`: the number of own keys, `Object.keys(d.value).length`. */
  function Size<A>(d: StrMap<A>): nat
  {
    |d.keys|
  }

  /** `isEmpty(d)`: the `for..in` loop finds no key. */
  function IsEmpty<A>(d: StrMap<A>): bool
  {
    d.keys == []
  }

  /** `insert(k)(a)(d)`: a copy of `d` in which `k` maps to `a`; an existing key keeps its place. */
  function Insert<A>(k: string, a: A, d: StrMap<A>): (r: StrMap<A>)
    ensures r.value == d.value[k := a]
  {
    var keys := if k in d.value then d.keys else d.keys + [k];
    assert Distinct(keys) by {
      if k !in d.value {
        DistinctAppend(d.keys, [k]);
      }
    }
    Dict(keys, d.value[k := a])
  }

  /** `remove(k)(d)`: a copy of `d` without `k`. */
  function Remove<A>(k: string, d: StrMap<A>): (r: StrMap<A>)
    ensures r.value == d.value - {k}
  {
    ExceptDistinct(d.keys, {k});
    ExceptMembers(d.keys, {k});
    Dict(Except(d.keys, {k}), d.value - {k})
  }

  /** `pop(k)(d)`: `none` when `k` is absent, otherwise its value and `remove(k)(d)`. */
  function Pop<A>(k: string, d: StrMap<A>): Option<(A, StrMap<A>)>
  {
    match Lookup(k, d)
    case None => None
    case Some(a) => Some((a, Remove(k, d)))
  }

  /** `concat(x, y) = Object.assign({}, x.value, y.value)`: `x`'s keys, then `y`'s new ones; `y` wins. */
  function Concat<A>(x: StrMap<A>, y: StrMap<A>): (r: StrMap<A>)
    ensures r.value == x.value + y.value
    ensures r.keys == x.keys + Except(y.keys, x.value.Keys)
  {
    ExceptDistinct(y.keys, x.value.Keys);
    ExceptMembers(y.keys, x.value.Keys);
    DistinctAppend(x.keys, Except(y.keys, x.value.Keys));
    Dict(x.keys + Except(y.keys, x.value.Keys), x.value + y.value)
  }

  function ConcatCurried<A>(x: StrMap<A>): StrMap<A> -> StrMap<A>
  {
    (y: StrMap<A>) => Concat(x, y)
  }

  /** `getMonoid()`: `concat` with `empty`. */
  function GetMonoid<A>(): Monoid<StrMap<A>>
  {
    Monoid((x: StrMap<A>, y: StrMap<A>) => Concat(x, y), Empty())
  }

  /** `isSubdictionary(S)(d1, d2)`, as a predicate: every key of `d1` is in `d2` with an `S`-equal value. */
  predicate Subdictionary<A>(S: Setoid<A>, d1: StrMap<A>, d2: StrMap<A>)
  {
    forall k | k in d1.value :: k in d2.value && S.equals(d1.value[k], d2.value[k])
  }

  /** `getSetoid(S)`: two dictionaries are equal when each is a sub-dictionary of the other. */
  function GetSetoid<A>(S: Setoid<A>): Setoid<StrMap<A>>
  {
    Setoid((x: StrMap<A>, y: StrMap<A>) => Subdictionary(S, x, y) && Subdictionary(S, y, x))
  }

  /** The values in key order. */
  function Values<A>(d: StrMap<A>): (r: seq<A>)
    ensures |r| == |d.keys| && forall i | 0 <= i < |d.keys| :: r[i] == d.value[d.keys[i]]
  {
    seq(|d.keys|, i requires 0 <= i < |d.keys| => d.value[d.keys[i]])
  }

  function FoldLeft<A, B>(f: (B, A) -> B, b: B, s: seq<A>): B
  {
    if s == [] then b else f(FoldLeft(f, b, s[..|s| - 1]), s[|s| - 1])
  }

  // ---------------------------------------------------------------------------
  // Properties of the pure operations
  // ---------------------------------------------------------------------------

  /** `size` counts the entries of the map, and `isEmpty` holds exactly when `size` is 0. */
  lemma SizeCountsEntries<A>(d: StrMap<A>)
    ensures Size(d) == |d.value|
    ensures IsEmpty(d) <==> Size(d) == 0
    ensures IsEmpty(d) <==> d.value == map[]
  {
    DistinctCardinality(d.keys);
    assert d.value.Keys == set x | x in d.keys;
  }

  lemma SingletonHasOneEntry<A>(k: string, a: A)
    ensures Size(Singleton(k, a)) == 1
    ensures Lookup(k, Singleton(k, a)) == Some(a)
    ensures forall k' | k' != k :: Lookup(k', Singleton(k, a)) == None
  {
  }

  /** `lookup` after `insert` finds the new value; every other key is unchanged. */
  lemma InsertThenLookup<A>(k: string, a: A, d: StrMap<A>)
    ensures Lookup(k, Insert(k, a, d)) == Some(a)
    ensures forall k' | k' != k :: Lookup(k', Insert(k, a, d)) == Lookup(k', d)
    ensures Size(Insert(k, a, d)) == if k in d.value then Size(d) else Size(d) + 1
    ensures k in d.value ==> Insert(k, a, d).keys == d.keys
  {
  }

  /** `remove` drops `k` and keeps every other entry and the order of the rest. */
  lemma RemoveThenLookup<A>(k: string, d: StrMap<A>)
    ensures Lookup(k, Remove(k, d)) == None
    ensures forall k' | k' != k :: Lookup(k', Remove(k, d)) == Lookup(k', d)
    ensures Size(Remove(k, d)) == if k in d.value then Size(d) - 1 else Size(d)
  {
    SizeCountsEntries(d);
    SizeCountsEntries(Remove(k, d));
  }

  /** `pop` is `none` exactly when the key is absent; otherwise re-inserting the popped value restores the entries. */
  lemma PopCases<A>(k: string, d: StrMap<A>)
    ensures Pop(k, d).None? <==> k !in d.value
    ensures Pop(k, d).Some? ==> Pop(k, d) == Some((d.value[k], Remove(k, d)))
    ensures Pop(k, d).Some? ==> Insert(k, Pop(k, d).value.0, Pop(k, d).value.1).value == d.value
  {
  }

  /** `concat` has the union of the keys, and `y`'s value wins on a shared key. */
  lemma ConcatLookup<A>(x: StrMap<A>, y: StrMap<A>)
    ensures Concat(x, y).value.Keys == x.value.Keys + y.value.Keys
    ensures forall k :: Lookup(k, Concat(x, y)) == if k in y.value then Lookup(k, y) else Lookup(k, x)
  {
  }

  /** `empty` is a left identity of `concat`, keys and order included. */
  lemma ConcatLeftIdentity<A>(x: StrMap<A>)
    ensures Concat(Empty(), x) == x
  {
    var e := Empty<A>();
    var r := Concat(e, x);
    assert e.value.Keys == {};
    ExceptNothing(x.keys, e.value.Keys);
    assert r.keys == [] + x.keys;
    assert [] + x.keys == x.keys;
    MapUnionEmpty(x.value);
    assert r.value == x.value;
  }

  lemma MapUnionEmpty<A>(m: map<string, A>)
    ensures map[] + m == m && m + map[] == m
  {
  }

  /** `empty` is a right identity of `concat`, keys and order included. */
  lemma ConcatRightIdentity<A>(x: StrMap<A>)
    ensures Concat(x, Empty()) == x
  {
    var r := Concat(x, Empty());
    assert r.keys == x.keys + [];
    assert x.keys + [] == x.keys;
    MapUnionEmpty(x.value);
    assert r.value == x.value;
  }

  /** `concat` is associative, keys and order included. */
  lemma ConcatAssociative<A>(x: StrMap<A>, y: StrMap<A>, z: StrMap<A>)
    ensures Concat(Concat(x, y), z) == Concat(x, Concat(y, z))
  {
    ConcatKeysAssociative(x.keys, y.keys, z.keys, x.value.Keys, y.value.Keys);
    MapUnionAssociative(x.value, y.value, z.value);
    var left, right := Concat(Concat(x, y), z), Concat(x, Concat(y, z));
    assert (x.value + y.value).Keys == x.value.Keys + y.value.Keys;
    assert left.keys == right.keys;
    assert left.value == (x.value + y.value) + z.value;
    assert right.value == x.value + (y.value + z.value);
  }

  lemma MapUnionAssociative<A>(x: map<string, A>, y: map<string, A>, z: map<string, A>)
    ensures (x + y) + z == x + (y + z)
  {
  }

  lemma ConcatKeysAssociative(xs: seq<string>, ys: seq<string>, zs: seq<string>, X: set<string>, Y: set<string>)
    ensures (xs + Except(ys, X)) + Except(zs, X + Y) == xs + Except(ys + Except(zs, Y), X)
  {
    ExceptAppend(ys, Except(zs, Y), X);
    ExceptExcept(zs, Y, X);
    assert Y + X == X + Y;
  }

  /** `getMonoid()` satisfies the monoid laws. */
  lemma MonoidIsLawful<A(!new)>()
    ensures MonoidLaws(GetMonoid<A>())
  {
    var M := GetMonoid<A>();
    forall x: StrMap<A>, y: StrMap<A>, z: StrMap<A> ensures M.concat(M.concat(x, y), z) == M.concat(x, M.concat(y, z)) {
      ConcatAssociative(x, y, z);
    }
    forall x: StrMap<A> ensures M.concat(M.empty, x) == x && M.concat(x, M.empty) == x {
      ConcatLeftIdentity(x);
      ConcatRightIdentity(x);
    }
  }

  /** `getSetoid(S).equals(x, y)` holds exactly when both have the same keys and `S`-equal values both ways at each. */
  lemma SetoidEquality<A>(S: Setoid<A>, x: StrMap<A>, y: StrMap<A>)
    ensures GetSetoid(S).equals(x, y) <==>
      && x.value.Keys == y.value.Keys
      && forall k | k in x.value :: k in y.value && S.equals(x.value[k], y.value[k]) && S.equals(y.value[k], x.value[k])
  {
  }

  /** Inserting a new key adds its value at the end of the key order, so `reduce` takes it last. */
  lemma InsertNewKeyValues<A, B>(k: string, a: A, d: StrMap<A>, f: (B, A) -> B, b: B)
    requires k !in d.value
    ensures Values(Insert(k, a, d)) == Values(d) + [a]
    ensures FoldLeft(f, b, Values(Insert(k, a, d))) == f(FoldLeft(f, b, Values(d)), a)
  {
    var vs := Values(Insert(k, a, d));
    assert vs[..|vs| - 1] == Values(d);
  }

  /** Appending a fresh key to `x` is `concat` with a singleton; `traverseWithKey` builds its result this way. */
  lemma ConcatSingleton<A>(x: StrMap<A>, k: string, a: A)
    requires k !in x.value
    ensures Concat(x, Singleton(k, a)).keys == x.keys + [k]
    ensures Concat(x, Singleton(k, a)).value == x.value[k := a]
  {
    assert Except([k], x.value.Keys) == [k] by {
      ExceptNothing([k], x.value.Keys);
    }
  }

  // ---------------------------------------------------------------------------
  // The loops
  // ---------------------------------------------------------------------------

  /** `d.mapWithKey(f)`: a new dictionary with the same keys, in the same order, holding `f(k, v)`. */
  method MapWithKey<A, B>(d: StrMap<A>, f: (string, A) -> B) returns (r: StrMap<B>)
    ensures r.keys == d.keys
    ensures r.value.Keys == d.value.Keys
    ensures forall k | k in d.value :: r.value[k] == f(k, d.value[k])
  {
    var keys: seq<string> := [];
    var fb: map<string, B> := map[];
    var i := 0;
    while i < |d.keys|
      invariant 0 <= i <= |d.keys|
      invariant keys == d.keys[..i]
      invariant fb.Keys == set j | 0 <= j < i :: d.keys[j]
      invariant forall j | 0 <= j < i :: fb[d.keys[j]] == f(d.keys[j], d.value[d.keys[j]])
    {
      var k := d.keys[i];
      fb := fb[k := f(k, d.value[k])];
      keys := keys + [k];
      i := i + 1;
    }
    assert keys == d.keys;
    assert forall k | k in d.value :: k in d.keys;
    r := Dict(keys, fb);
  }

  /** `d.map(f) = d.mapWithKey((_, a) => f(a))`. */
  method Map<A, B>(d: StrMap<A>, f: A -> B) returns (r: StrMap<B>)
    ensures r.keys == d.keys
    ensures r.value.Keys == d.value.Keys
    ensures forall k | k in d.value :: r.value[k] == f(d.value[k])
  {
    r := MapWithKey(d, (_: string, a: A) => f(a));
  }

  /** `d.reduce(b, f)`: folds `f` over the values in key order. */
  method Reduce<A, B>(d: StrMap<A>, b: B, f: (B, A) -> B) returns (out: B)
    ensures out == FoldLeft(f, b, Values(d))
  {
    var vs := Values(d);
    out := b;
    var i := 0;
    while i < |d.keys|
      invariant 0 <= i <= |d.keys|
      invariant out == FoldLeft(f, b, vs[..i])
    {
      assert vs[..i + 1][..i] == vs[..i];
      out := f(out, d.value[d.keys[i]]);
      i := i + 1;
    }
    assert vs[..|d.keys|] == vs;
  }

  /** `collect(f)(d)`: one element per key, in key order. */
  method Collect<A, B>(d: StrMap<A>, f: (string, A) -> B) returns (out: seq<B>)
    ensures |out| == Size(d)
    ensures forall i | 0 <= i < |d.keys| :: out[i] == f(d.keys[i], d.value[d.keys[i]])
  {
    out := [];
    var i := 0;
    while i < |d.keys|
      invariant 0 <= i <= |d.keys|
      invariant |out| == i
      invariant forall j | 0 <= j < i :: out[j] == f(d.keys[j], d.value[d.keys[j]])
    {
      out := out + [f(d.keys[i], d.value[d.keys[i]])];
      i := i + 1;
    }
  }

  /** `toArray(d) = collect(tuple)(d)`: the key/value pairs in key order. */
  method ToArray<A>(d: StrMap<A>) returns (out: seq<(string, A)>)
    ensures |out| == Size(d)
    ensures forall i | 0 <= i < |d.keys| :: out[i] == (d.keys[i], d.value[d.keys[i]])
  {
    out := Collect(d, (k: string, a: A) => (k, a));
  }

  /** `isSubdictionary(S)(d1, d2)`: stops at the first key of `d1` that `d2` lacks or holds a different value for. */
  method IsSubdictionary<A>(S: Setoid<A>, d1: StrMap<A>, d2: StrMap<A>) returns (b: bool)
    ensures b == Subdictionary(S, d1, d2)
  {
    var i := 0;
    while i < |d1.keys|
      invariant 0 <= i <= |d1.keys|
      invariant forall j | 0 <= j < i :: d1.keys[j] in d2.value && S.equals(d1.value[d1.keys[j]], d2.value[d1.keys[j]])
    {
      var k := d1.keys[i];
      if !(k in d2.value) || !S.equals(d1.value[k], d2.value[k]) {
        return false;
      }
      i := i + 1;
    }
    assert forall k | k in d1.value :: k in d1.keys;
    return true;
  }

  /** `getSetoid(S).equals(x, y)` as run: two sub-dictionary checks. */
  method SetoidEquals<A>(S: Setoid<A>, x: StrMap<A>, y: StrMap<A>) returns (b: bool)
    ensures b == GetSetoid(S).equals(x, y)
  {
    b := IsSubdictionary(S, x, y);
    if b {
      b := IsSubdictionary(S, y, x);
    }
  }

  /** The dictionary `fromFoldable` builds from the first `n` pairs. */
  function FromPairs<A>(f: A -> A -> A, pairs: seq<(string, A)>): StrMap<A>
  {
    if pairs == [] then Empty()
    else
      var d := FromPairs(f, pairs[..|pairs| - 1]);
      Step(f, d, pairs[|pairs| - 1].0, pairs[|pairs| - 1].1)
  }

  /** `fromFoldable(array)(f)(pairs)`: the reduce that writes `f(existing)(new)` over a repeated key. */
  method FromFoldable<A>(f: A -> A -> A, pairs: seq<(string, A)>) returns (d: StrMap<A>)
    ensures d == FromPairs(f, pairs)
  {
    d := Empty();
    var i := 0;
    while i < |pairs|
      invariant 0 <= i <= |pairs|
      invariant d == FromPairs(f, pairs[..i])
    {
      assert pairs[..i + 1][..i] == pairs[..i];
      var k := pairs[i].0;
      d := Step(f, d, k, pairs[i].1);
      i := i + 1;
    }
    assert pairs[..|pairs|] == pairs;
  }

  /** The values given for key `k`, in order. */
  function ValuesFor<A>(pairs: seq<(string, A)>, k: string): seq<A>
  {
    if pairs == [] then []
    else ValuesFor(pairs[..|pairs| - 1], k) + (if pairs[|pairs| - 1].0 == k then [pairs[|pairs| - 1].1] else [])
  }

  /** The values for one key combined from the left: `f(f(v0)(v1))(v2) ...`. */
  function Combine<A>(f: A -> A -> A, vs: seq<A>): A
    requires |vs| >= 1
  {
    if |vs| == 1 then vs[0] else f(Combine(f, vs[..|vs| - 1]))(vs[|vs| - 1])
  }

  /** One step of `fromFoldable`: write `a` at `k`, combined with the existing value when there is one. */
  function Step<A>(f: A -> A -> A, d: StrMap<A>, k: string, a: A): (r: StrMap<A>)
    ensures r.value == d.value[k := if k in d.value then f(d.value[k])(a) else a]
  {
    Insert(k, if k in d.value then f(d.value[k])(a) else a, d)
  }

  /** A key is present exactly when some pair names it; its value is the first value for it, combined with each later one in order. */
  lemma {:induction false} FromPairsLookup<A>(f: A -> A -> A, pairs: seq<(string, A)>, k: string)
    ensures k in FromPairs(f, pairs).value <==> ValuesFor(pairs, k) != []
    ensures k in FromPairs(f, pairs).value ==> FromPairs(f, pairs).value[k] == Combine(f, ValuesFor(pairs, k))
    decreases |pairs|
  {
    if pairs != [] {
      var n := |pairs| - 1;
      var init := pairs[..n];
      var d := FromPairs(f, init);
      var k', a := pairs[n].0, pairs[n].1;
      FromPairsLookup(f, init, k);
      var prev := ValuesFor(init, k);
      assert FromPairs(f, pairs) == Step(f, d, k', a);
      assert ValuesFor(pairs, k) == prev + (if k' == k then [a] else []);
      var r := FromPairs(f, pairs);
      if k' != k {
        assert ValuesFor(pairs, k) == prev;
        assert (k in r.value) == (k in d.value);
        assert k in r.value ==> r.value[k] == d.value[k];
      } else if prev == [] {
        assert ValuesFor(pairs, k) == [a];
        assert r.value[k] == a;
      } else {
        var vs := prev + [a];
        assert vs[..|vs| - 1] == prev;
        assert Combine(f, vs) == f(Combine(f, prev))(a);
        assert r.value[k] == f(d.value[k])(a);
      }
    }
  }

  /** A key that occurs once keeps its value; `f` is used only for repeats. */
  lemma FromPairsSingleOccurrence<A>(f: A -> A -> A, pairs: seq<(string, A)>, i: nat)
    requires i < |pairs|
    requires forall j | 0 <= j < |pairs| && j != i :: pairs[j].0 != pairs[i].0
    ensures Lookup(pairs[i].0, FromPairs(f, pairs)) == Some(pairs[i].1)
  {
    OnlyValue(pairs, i, |pairs|);
    assert pairs[..|pairs|] == pairs;
    FromPairsLookup(f, pairs, pairs[i].0);
  }

  lemma {:induction false} OnlyValue<A>(pairs: seq<(string, A)>, i: nat, n: nat)
    requires i < n <= |pairs|
    requires forall j | 0 <= j < |pairs| && j != i :: pairs[j].0 != pairs[i].0
    ensures ValuesFor(pairs[..n], pairs[i].0) == [pairs[i].1]
    decreases n
  {
    var p := pairs[..n];
    assert p[..n - 1] == pairs[..n - 1];
    if n - 1 == i {
      NoValue(pairs, i, i);
    } else {
      OnlyValue(pairs, i, n - 1);
    }
  }

  lemma {:induction false} NoValue<A>(pairs: seq<(string, A)>, i: nat, n: nat)
    requires i < |pairs| && n <= i
    requires forall j | 0 <= j < |pairs| && j != i :: pairs[j].0 != pairs[i].0
    ensures ValuesFor(pairs[..n], pairs[i].0) == []
    decreases n
  {
    if n > 0 {
      assert pairs[..n][..n - 1] == pairs[..n - 1];
      NoValue(pairs, i, n - 1);
    }
  }

  /** `b => singleton(k, b)`, the function `traverseWithKey` maps over each `f(k, v)`. */
  function SingletonAt<B>(k: string): B -> StrMap<B>
  {
    (b: B) => Singleton(k, b)
  }

  /** One iteration of `traverseWithKey` in `Option`: `concatA2(out)(map(fb, b => singleton(k, b)))`. */
  function Accumulate<B>(out: Option<StrMap<B>>, k: string, fb: Option<B>): (r: Option<StrMap<B>>)
    ensures r.Some? <==> out.Some? && fb.Some?
    ensures r.Some? ==> r.value == Concat(out.value, Singleton(k, fb.value))
  {
    Apply.LiftA2OptionSemantics(ConcatCurried, out, OptionM.Map(fb, SingletonAt(k)));
    Apply.LiftA2Option(ConcatCurried, out, OptionM.Map(fb, SingletonAt(k)))
  }

  /** The state of `traverseWithKey` after the first `i` keys. */
  ghost predicate TraversedUpTo<A, B>(d: StrMap<A>, f: (string, A) -> Option<B>, i: nat, out: Option<StrMap<B>>)
    requires i <= |d.keys|
  {
    && (out.Some? <==> forall j | 0 <= j < i :: f(d.keys[j], d.value[d.keys[j]]).Some?)
    && (out.Some? ==> out.value.keys == d.keys[..i])
    && (out.Some? ==> forall j | 0 <= j < i :: d.keys[j] in out.value.value && Some(out.value.value[d.keys[j]]) == f(d.keys[j], d.value[d.keys[j]]))
  }

  /**
   * `d.traverseWithKey(option)(f)`: starts from `of(empty)` and, key by key,
   * `liftA2(concat)` the accumulated dictionary with `map(f(k, v), b => singleton(k, b))`.
   * The result is `some` exactly when every `f(k, v)` is, and then has the same keys in the same order.
   */
  method TraverseWithKeyOption<A, B>(d: StrMap<A>, f: (string, A) -> Option<B>) returns (out: Option<StrMap<B>>)
    ensures out.Some? <==> forall i | 0 <= i < |d.keys| :: f(d.keys[i], d.value[d.keys[i]]).Some?
    ensures out.Some? ==> out.value.keys == d.keys
    ensures out.Some? ==> forall k | k in d.value :: k in out.value.value && Some(out.value.value[k]) == f(k, d.value[k])
  {
    out := Some(Empty());
    var i := 0;
    while i < |d.keys|
      invariant 0 <= i <= |d.keys|
      invariant TraversedUpTo(d, f, i, out)
    {
      var k := d.keys[i];
      TraverseStep(d, f, i, out);
      out := Accumulate(out, k, f(k, d.value[k]));
      i := i + 1;
    }
    TraversedAll(d, f, out);
  }

  lemma TraverseStep<A, B>(d: StrMap<A>, f: (string, A) -> Option<B>, i: nat, out: Option<StrMap<B>>)
    requires i < |d.keys| && TraversedUpTo(d, f, i, out)
    ensures TraversedUpTo(d, f, i + 1, Accumulate(out, d.keys[i], f(d.keys[i], d.value[d.keys[i]])))
  {
    if out.Some? && f(d.keys[i], d.value[d.keys[i]]).Some? {
      TraverseSomeStep(d, f, i, out.value);
    } else if out.Some? {
      assert !f(d.keys[i], d.value[d.keys[i]]).Some?;
    } else {
      var j :| 0 <= j < i && !f(d.keys[j], d.value[d.keys[j]]).Some?;
    }
  }

  lemma TraverseSomeStep<A, B>(d: StrMap<A>, f: (string, A) -> Option<B>, i: nat, acc: StrMap<B>)
    requires i < |d.keys| && TraversedUpTo(d, f, i, Some(acc))
    requires f(d.keys[i], d.value[d.keys[i]]).Some?
    ensures TraversedUpTo(d, f, i + 1, Some(Concat(acc, Singleton(d.keys[i], f(d.keys[i], d.value[d.keys[i]]).value))))
  {
    var k, v := d.keys[i], f(d.keys[i], d.value[d.keys[i]]).value;
    DistinctPrefix(d.keys, i);
    ConcatSingleton(acc, k, v);
    var r := Concat(acc, Singleton(k, v));
    assert d.keys[..i] + [k] == d.keys[..i + 1];
    forall j | 0 <= j < i + 1
      ensures d.keys[j] in r.value && Some(r.value[d.keys[j]]) == f(d.keys[j], d.value[d.keys[j]])
    {
      if j < i {
        DistinctIndex(d.keys, j, i);
      }
    }
  }

  lemma TraversedAll<A, B>(d: StrMap<A>, f: (string, A) -> Option<B>, out: Option<StrMap<B>>)
    requires TraversedUpTo(d, f, |d.keys|, out)
    ensures out.Some? <==> forall i | 0 <= i < |d.keys| :: f(d.keys[i], d.value[d.keys[i]]).Some?
    ensures out.Some? ==> out.value.keys == d.keys
    ensures out.Some? ==> forall k | k in d.value :: k in out.value.value && Some(out.value.value[k]) == f(k, d.value[k])
  {
    assert d.keys[..|d.keys|] == d.keys;
    if out.Some? {
      forall k | k in d.value
        ensures k in out.value.value && Some(out.value.value[k]) == f(k, d.value[k])
      {
        assert k in KeySet(d.keys);
        var j :| 0 <= j < |d.keys| && d.keys[j] == k;
      }
    }
  }
}

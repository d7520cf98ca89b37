/**
 * `sequenceS` from src/Apply.ts: `sequenceT` over a non-empty record. The fields
 * are given as `(key, value)` pairs in the record's key enumeration order. The
 * fold seeds a one-field record from the first field and, for each further key,
 * `ap`s a function that stores the value under that key.
 */
module SequenceS {
  import opened OptionM
  import EitherM

  /** A record: a non-empty sequence of fields with distinct keys. */
  predicate DistinctKeys<X>(fields: seq<(string, X)>)
  {
    forall i, j | 0 <= i < j < |fields| :: fields[i].0 != fields[j].0
  }

  function KeysOf<X>(fields: seq<(string, X)>): set<string>
  {
    set i | 0 <= i < |fields| :: fields[i].0
  }

  /** The fields' keys, in order. */
  function FieldKeys<X>(fields: seq<(string, X)>): (r: seq<string>)
    ensures |r| == |fields| && forall i | 0 <= i < |fields| :: r[i] == fields[i].0
  {
    if fields == [] then [] else FieldKeys(fields[..|fields| - 1]) + [fields[|fields| - 1].0]
  }

  /**
   * The record the fold builds: its own property keys in creation order, which is
   * the order `Object.keys` later enumerates them in, and their values.
   */
  datatype Rec<V> = Rec(keys: seq<string>, values: map<string, V>)

  /** `a => ({ [fst]: a })`: the one-field record. */
  function One<V>(key: string): V -> Rec<V>
  {
    (a: V) => Rec([key], map[key := a])
  }

  /**
   * `r => a => { r[key] = a; return r }`: stores the value in the accumulated
   * record. Assigning a new property appends its key; an existing one keeps its place.
   */
  function StoreAt<V>(key: string): Rec<V> -> V -> Rec<V>
  {
    (r: Rec<V>) => (a: V) => Store(key, r, a)
  }

  function Store<V>(key: string, r: Rec<V>, a: V): Rec<V>
  {
    Rec(if key in r.values then r.keys else r.keys + [key], r.values[key := a])
  }

  lemma KeysOfStep<X>(fields: seq<(string, X)>, i: nat)
    requires i < |fields|
    ensures KeysOf(fields[..i + 1]) == KeysOf(fields[..i]) + {fields[i].0}
  {
    var p, q := fields[..i], fields[..i + 1];
    forall k | k in KeysOf(q) ensures k in KeysOf(p) + {fields[i].0} {
      var j :| 0 <= j < |q| && q[j].0 == k;
      if j < i {
        assert p[j] == q[j];
      }
    }
    forall k | k in KeysOf(p) ensures k in KeysOf(q) {
      var j :| 0 <= j < |p| && p[j].0 == k;
      assert q[j] == p[j];
    }
    assert q[i] == fields[i];
  }

  /** `m` has exactly the first `i` fields' keys, in field order. */
  ghost predicate KeysInOrder<V, X>(m: Rec<V>, fields: seq<(string, X)>, i: nat)
    requires i <= |fields|
  {
    m.keys == FieldKeys(fields[..i]) && m.values.Keys == KeysOf(fields[..i])
  }

  lemma FirstKeys<V, X>(fields: seq<(string, X)>, a: V)
    requires |fields| >= 1
    ensures KeysInOrder(One(fields[0].0)(a), fields, 1)
  {
    var q := fields[..1];
    assert q[0] == fields[0] && q[..0] == [];
    assert KeysOf(q) == {fields[0].0};
  }

  /** Storing the next field of a record with distinct keys appends its key and sets its value. */
  lemma StoreNext<V, X>(m: Rec<V>, fields: seq<(string, X)>, i: nat, a: V)
    requires i < |fields| && DistinctKeys(fields) && KeysInOrder(m, fields, i)
    ensures KeysInOrder(Store(fields[i].0, m, a), fields, i + 1)
    ensures Store(fields[i].0, m, a).values == m.values[fields[i].0 := a]
  {
    KeysOfStep(fields, i);
    forall j | 0 <= j < i ensures fields[..i][j].0 != fields[i].0 {
      assert fields[..i][j] == fields[j];
    }
    assert fields[i].0 !in m.values;
    assert fields[..i + 1][..i] == fields[..i];
  }

  /** The fields before index `i` are all `right`. */
  predicate RightsUpTo<E, V>(fields: seq<(string, EitherM.Either<E, V>)>, i: nat)
  {
    forall j | 0 <= j < i && j < |fields| :: fields[j].1.Right?
  }

  /** `m` holds exactly the first `i` fields' keys, in order, each mapped to its `right` payload. */
  ghost predicate HoldsRights<E, V>(m: Rec<V>, fields: seq<(string, EitherM.Either<E, V>)>, i: nat)
    requires i <= |fields| && RightsUpTo(fields, i)
  {
    KeysInOrder(m, fields, i) && forall j | 0 <= j < i :: m.values[fields[j].0] == fields[j].1.right
  }

  lemma StoreRight<E, V>(m: Rec<V>, fields: seq<(string, EitherM.Either<E, V>)>, i: nat)
    requires i < |fields| && DistinctKeys(fields) && RightsUpTo(fields, i + 1)
    requires HoldsRights(m, fields, i)
    ensures HoldsRights(Store(fields[i].0, m, fields[i].1.right), fields, i + 1)
  {
    StoreNext(m, fields, i, fields[i].1.right);
  }

  /** The state of the Either fold after `i` fields; `first` is the index of the first `left`, if any. */
  ghost predicate EitherUpTo<E, V>(fr: EitherM.Either<E, Rec<V>>, first: Option<nat>, fields: seq<(string, EitherM.Either<E, V>)>, i: nat)
    requires i <= |fields|
  {
    && (first.None? <==> RightsUpTo(fields, i))
    && (first.Some? ==>
          first.value < i && fields[first.value].1.Left? && RightsUpTo(fields, first.value) &&
          fr == EitherM.Left(fields[first.value].1.left))
    && (first.None? ==> fr.Right? && HoldsRights(fr.right, fields, i))
  }

  ghost function NextFirst<E, V>(first: Option<nat>, fields: seq<(string, EitherM.Either<E, V>)>, i: nat): Option<nat>
    requires i < |fields|
  {
    if first.None? && fields[i].1.Left? then Some(i) else first
  }

  lemma EitherStep<E, V>(fr: EitherM.Either<E, Rec<V>>, first: Option<nat>, fields: seq<(string, EitherM.Either<E, V>)>, i: nat)
    requires i < |fields| && DistinctKeys(fields) && EitherUpTo(fr, first, fields, i)
    ensures EitherUpTo(EitherM.Ap(EitherM.Map(fr, StoreAt(fields[i].0)), fields[i].1), NextFirst(first, fields, i), fields, i + 1)
  {
    var next := EitherM.Ap(EitherM.Map(fr, StoreAt(fields[i].0)), fields[i].1);
    if first.None? {
      if fields[i].1.Right? {
        StoreRight(fr.right, fields, i);
        assert next == EitherM.Right(Store(fields[i].0, fr.right, fields[i].1.right));
      } else {
        assert next == EitherM.Left(fields[i].1.left);
      }
    } else {
      assert next == fr;
    }
  }

  lemma EitherDone<E, V>(fr: EitherM.Either<E, Rec<V>>, first: Option<nat>, fields: seq<(string, EitherM.Either<E, V>)>)
    requires EitherUpTo(fr, first, fields, |fields|)
    ensures RightsUpTo(fields, |fields|) ==>
      (fr.Right? && fr.right.keys == FieldKeys(fields) && fr.right.values.Keys == KeysOf(fields) &&
       forall i | 0 <= i < |fields| :: fr.right.values[fields[i].0] == fields[i].1.right)
    ensures forall k | 0 <= k < |fields| && fields[k].1.Left? && RightsUpTo(fields, k) ::
      fr == EitherM.Left(fields[k].1.left)
  {
    assert fields[..|fields|] == fields;
    forall k | 0 <= k < |fields| && fields[k].1.Left? && RightsUpTo(fields, k)
      ensures fr == EitherM.Left(fields[k].1.left)
    {
      assert first.Some?;
    }
  }

  /**
   * `sequenceS(either)(r)`. When every field is `right` the result is `right` of a
   * record with exactly the input keys, in the input order, mapped to the
   * payloads; otherwise it is the first `left`, in key order.
   */
  method SequenceSEither<E, V>(fields: seq<(string, EitherM.Either<E, V>)>) returns (fr: EitherM.Either<E, Rec<V>>)
    requires |fields| >= 1 && DistinctKeys(fields)
    ensures RightsUpTo(fields, |fields|) ==>
      (fr.Right? && fr.right.keys == FieldKeys(fields) && fr.right.values.Keys == KeysOf(fields) &&
       forall i | 0 <= i < |fields| :: fr.right.values[fields[i].0] == fields[i].1.right)
    ensures forall k | 0 <= k < |fields| && fields[k].1.Left? && RightsUpTo(fields, k) ::
      fr == EitherM.Left(fields[k].1.left)
  {
    var fst := fields[0].0;
    fr := EitherM.Map(fields[0].1, One(fst));
    if fr.Right? {
      FirstKeys(fields, fields[0].1.right);
    }
    ghost var first: Option<nat> := if fields[0].1.Left? then Some(0) else None;
    var i := 1;
    while i < |fields|
      invariant 1 <= i <= |fields|
      invariant EitherUpTo(fr, first, fields, i)
    {
      var key := fields[i].0;
      EitherStep(fr, first, fields, i);
      first := NextFirst(first, fields, i);
      fr := EitherM.Ap(EitherM.Map(fr, StoreAt(key)), fields[i].1);
      i := i + 1;
    }
    EitherDone(fr, first, fields);
  }

  /** The state of the Option fold after `i` fields. */
  ghost predicate OptionUpTo<V>(fr: Option<Rec<V>>, fields: seq<(string, Option<V>)>, i: nat)
    requires i <= |fields|
  {
    && (fr.Some? <==> forall j | 0 <= j < i :: fields[j].1.Some?)
    && (fr.Some? ==>
          KeysInOrder(fr.value, fields, i) &&
          forall j | 0 <= j < i :: fr.value.values[fields[j].0] == fields[j].1.value)
  }

  lemma OptionStep<V>(fr: Option<Rec<V>>, fields: seq<(string, Option<V>)>, i: nat)
    requires i < |fields| && DistinctKeys(fields) && OptionUpTo(fr, fields, i)
    ensures OptionUpTo(OptionM.Ap(OptionM.Map(fr, StoreAt(fields[i].0)), fields[i].1), fields, i + 1)
  {
    var next := OptionM.Ap(OptionM.Map(fr, StoreAt(fields[i].0)), fields[i].1);
    if fr.Some? && fields[i].1.Some? {
      StoreNext(fr.value, fields, i, fields[i].1.value);
      assert next == Some(Store(fields[i].0, fr.value, fields[i].1.value));
    } else {
      assert next.None?;
      assert !fields[i].1.Some? ==> !(forall j | 0 <= j < i + 1 :: fields[j].1.Some?);
    }
  }

  /**
   * `sequenceS(option)(r)`: `some` of the record of payloads, keys in the input
   * order, when every field is `some`, otherwise `none`.
   */
  method SequenceSOption<V>(fields: seq<(string, Option<V>)>) returns (fr: Option<Rec<V>>)
    requires |fields| >= 1 && DistinctKeys(fields)
    ensures fr.Some? <==> forall i | 0 <= i < |fields| :: fields[i].1.Some?
    ensures fr.Some? ==>
      (fr.value.keys == FieldKeys(fields) && fr.value.values.Keys == KeysOf(fields) &&
       forall i | 0 <= i < |fields| :: fr.value.values[fields[i].0] == fields[i].1.value)
  {
    var fst := fields[0].0;
    fr := OptionM.Map(fields[0].1, One(fst));
    if fr.Some? {
      FirstKeys(fields, fields[0].1.value);
    }
    var i := 1;
    while i < |fields|
      invariant 1 <= i <= |fields|
      invariant OptionUpTo(fr, fields, i)
    {
      var key := fields[i].0;
      OptionStep(fr, fields, i);
      fr := OptionM.Ap(OptionM.Map(fr, StoreAt(key)), fields[i].1);
      i := i + 1;
    }
    assert fields[..|fields|] == fields;
  }
}

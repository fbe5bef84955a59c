/** Python values as `merge_struct` and `flatten_dict` see them: None, the scalar
    types (bool, int, float, str), lists, str-keyed dicts, and every other
    object (tuple, set, ...) as an opaque value. */
module PyValues {

  datatype Option<+T> = None | Some(value: T)

  /** A JSON-like Python value. A dict keeps its keys in insertion order, as a
      Python dict does; `WF` ties that order to the entries. */
  datatype Value =
    | Null                                                   // None
    | Bool(b: bool)
    | Int(i: int)
    | Float(f: real)                                         // a finite float
    | Str(s: string)
    | List(items: seq<Value>)
    | Dict(keys: seq<string>, entries: map<string, Value>)
    | Other(id: nat)                                         // a tuple, a set, any other object

  /** isinstance(v, (float, int, str)); bool is a subclass of int. */
  predicate IsScalar(v: Value)
    ensures IsNumber(v) ==> IsScalar(v)
  {
    v.Bool? || v.Int? || v.Float? || v.Str?
  }

  predicate IsNumber(v: Value) {
    v.Bool? || v.Int? || v.Float?
  }

  /** The numeric value Python compares: True == 1 == 1.0. */
  function NumberOf(v: Value): (r: real)
    requires IsNumber(v)
  {
    match v
    case Bool(b) => if b then 1.0 else 0.0
    case Int(i) => i as real
    case Float(f) => f
  }

  /** Python's `a == b`: numbers by value across bool/int/float, lists element
      by element, dicts by key set and values regardless of insertion order. */
  predicate Eq(a: Value, b: Value)
    ensures Eq(a, b) ==> (IsNumber(a) <==> IsNumber(b))
    ensures Eq(a, b) && !IsNumber(a) ==>
      a.Null? == b.Null? && a.Str? == b.Str? && a.List? == b.List? && a.Dict? == b.Dict? && a.Other? == b.Other?
    decreases a
  {
    if IsNumber(a) then IsNumber(b) && NumberOf(a) == NumberOf(b)
    else match a
      case Null => b.Null?
      case Str(s) => b.Str? && b.s == s
      case List(xs) =>
        b.List? && |xs| == |b.items| && forall i | 0 <= i < |xs| :: Eq(xs[i], b.items[i])
      case Dict(_, m) =>
        b.Dict? && m.Keys == b.entries.Keys && forall k | k in m :: Eq(m[k], b.entries[k])
      case Other(x) => b.Other? && b.id == x
  }

  /** Python's `x in xs` for a list: some element equals `x`. An element of
      the list itself is always found. */
  predicate Contains(xs: seq<Value>, x: Value)
    ensures x in xs ==> Contains(xs, x)
  {
    EqReflexive(x);
    exists i | 0 <= i < |xs| :: Eq(xs[i], x)
  }

  predicate DistinctKeys(ks: seq<string>) {
    forall i, j | 0 <= i < j < |ks| :: ks[i] != ks[j]
  }

  /** The dict lists each of its keys exactly once. */
  predicate Keyed(d: Value)
    requires d.Dict?
  {
    && DistinctKeys(d.keys)
    && (forall k | k in d.entries :: k in d.keys)
    && (forall k | k in d.keys :: k in d.entries)
  }

  /** Every dict inside `v` lists each of its keys exactly once. */
  predicate WF(v: Value)
    decreases v
  {
    match v
    case List(xs) => forall i | 0 <= i < |xs| :: WF(xs[i])
    case Dict(_, m) => Keyed(v) && forall k | k in m :: WF(m[k])
    case _ => true
  }

  const EmptyDict: Value := Dict([], map[])

  /** `d[k] = v`: a new key goes to the end, an existing key keeps its place. */
  function SetKey(d: Value, k: string, v: Value): (r: Value)
    requires d.Dict?
    ensures r.Dict? && r.entries == d.entries[k := v]
  {
    Dict(if k in d.entries then d.keys else d.keys + [k], d.entries[k := v])
  }

  /** `d[k] = v` keeps a well-formed dict well-formed. */
  lemma SetKeyWF(d: Value, k: string, v: Value)
    requires d.Dict? && WF(d) && WF(v)
    ensures WF(SetKey(d, k, v))
  {
    if k !in d.entries {
      assert forall x | x in d.keys + [k] :: x in d.keys || x == k;
    }
  }

  /** The keys of `ks` that `m` lacks, in the order of `ks`. */
  function MissingFrom(ks: seq<string>, m: map<string, Value>): (r: seq<string>)
  {
    if ks == [] then []
    else if ks[0] in m then MissingFrom(ks[1..], m)
    else [ks[0]] + MissingFrom(ks[1..], m)
  }

  lemma {:induction false} MissingFromMembers(ks: seq<string>, m: map<string, Value>)
    ensures forall k :: k in MissingFrom(ks, m) <==> k in ks && k !in m
    ensures DistinctKeys(ks) ==> DistinctKeys(MissingFrom(ks, m))
  {
    if ks != [] {
      MissingFromMembers(ks[1..], m);
      assert forall k | k in ks[1..] :: k in ks;
      if DistinctKeys(ks) {
        assert ks[0] !in ks[1..];
      }
    }
  }

  lemma {:induction false} MissingFromAppend(xs: seq<string>, ys: seq<string>, m: map<string, Value>)
    ensures MissingFrom(xs + ys, m) == MissingFrom(xs, m) + MissingFrom(ys, m)
  {
    if xs != [] {
      assert (xs + ys)[0] == xs[0] && (xs + ys)[1..] == xs[1..] + ys;
      MissingFromAppend(xs[1..], ys, m);
      if xs[0] !in m {
        assert [xs[0]] + (MissingFrom(xs[1..], m) + MissingFrom(ys, m))
            == ([xs[0]] + MissingFrom(xs[1..], m)) + MissingFrom(ys, m);
      }
    } else {
      assert xs + ys == ys;
    }
  }

  /** The prefix of `ks` one longer. */
  lemma PrefixStep(ks: seq<string>, j: nat)
    requires j < |ks|
    ensures forall x :: x in ks[..j + 1] <==> x in ks[..j] || x == ks[j]
    ensures DistinctKeys(ks) ==> ks[j] !in ks[..j]
  {
    assert ks[..j + 1] == ks[..j] + [ks[j]];
  }

  /** One more key of `ks` considered. */
  lemma MissingFromStep(ks: seq<string>, i: nat, m: map<string, Value>)
    requires i < |ks|
    ensures MissingFrom(ks[..i + 1], m) == MissingFrom(ks[..i], m) + if ks[i] in m then [] else [ks[i]]
  {
    assert ks[..i + 1] == ks[..i] + [ks[i]];
    MissingFromAppend(ks[..i], [ks[i]], m);
  }

  /** Only the keys of `m` matter. */
  lemma {:induction false} MissingFromSameKeys(ks: seq<string>, m: map<string, Value>, m': map<string, Value>)
    requires forall k :: k in m <==> k in m'
    ensures MissingFrom(ks, m) == MissingFrom(ks, m')
  {
    if ks != [] {
      MissingFromSameKeys(ks[1..], m, m');
    }
  }

  /** A measure for recursion that may swap its two arguments. A dict counts
      two, so that a dict entry wrapped in a one-element list is still smaller
      than the dict. */
  function Size(v: Value): (r: nat)
    decreases v, 1
  {
    match v
    case List(xs) => 1 + SizeOfItems(xs, v)
    case Dict(ks, m) => 2 + SizeOfEntries(ks, m, v)
    case _ => 1
  }

  function SizeOfItems(xs: seq<Value>, ghost parent: Value): (r: nat)
    requires forall i | 0 <= i < |xs| :: xs[i] < parent
    decreases parent, 0, |xs|
  {
    if xs == [] then 0 else Size(xs[0]) + SizeOfItems(xs[1..], parent)
  }

  function SizeOfEntries(ks: seq<string>, m: map<string, Value>, ghost parent: Value): (r: nat)
    requires forall k | k in m :: m[k] < parent
    decreases parent, 0, |ks|
  {
    if ks == [] then 0
    else (if ks[0] in m then Size(m[ks[0]]) else 0) + SizeOfEntries(ks[1..], m, parent)
  }

  lemma {:induction false} SizeOfEntriesBound(ks: seq<string>, m: map<string, Value>, parent: Value, k: string)
    requires forall k | k in m :: m[k] < parent
    requires k in ks && k in m
    ensures Size(m[k]) <= SizeOfEntries(ks, m, parent)
    decreases |ks|
  {
    if ks[0] != k {
      SizeOfEntriesBound(ks[1..], m, parent, k);
    }
  }

  /** Each entry of a dict is smaller than the dict by at least two. */
  lemma SizeOfEntry(d: Value)
    requires d.Dict? && WF(d)
    ensures forall k | k in d.entries :: Size(d.entries[k]) + 2 <= Size(d)
  {
    forall k | k in d.entries
      ensures Size(d.entries[k]) + 2 <= Size(d)
    {
      SizeOfEntriesBound(d.keys, d.entries, d, k);
    }
  }

  /** Python's `==` is reflexive on every modelled value (there is no NaN). */
  lemma {:induction false} EqReflexive(a: Value)
    ensures Eq(a, a)
    decreases a
  {
    match a
    case List(xs) =>
      forall i | 0 <= i < |xs| ensures Eq(xs[i], xs[i]) { EqReflexive(xs[i]); }
    case Dict(_, m) =>
      forall k | k in m ensures Eq(m[k], m[k]) { EqReflexive(m[k]); }
    case _ =>
  }

  lemma {:induction false} EqSymmetric(a: Value, b: Value)
    ensures Eq(a, b) ==> Eq(b, a)
    decreases a
  {
    if Eq(a, b) {
      match a
      case List(xs) =>
        forall i | 0 <= i < |xs| ensures Eq(b.items[i], xs[i]) { EqSymmetric(xs[i], b.items[i]); }
      case Dict(_, m) =>
        forall k | k in m ensures Eq(b.entries[k], m[k]) { EqSymmetric(m[k], b.entries[k]); }
      case _ =>
    }
  }

  /** A list contains what was just appended to it. */
  lemma ContainsAppended(xs: seq<Value>, x: Value)
    ensures Contains(xs + [x], x)
  {
    EqReflexive(x);
    assert (xs + [x])[|xs|] == x;
  }
}

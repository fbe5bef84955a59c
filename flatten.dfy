/** `flatten_dict(dictionary, sep)`: a nested dict becomes a one-level dict
    whose keys are the `sep`-joined paths to the values that are not dicts.
    `Flattened` states the result; `Flatten` computes it with the loop of
    the source, one `update` per key of the input. */
module FlattenDict {
  import opened PyValues

  /** No value of the dict is itself a dict. */
  predicate Flat(r: Value)
    requires r.Dict?
  {
    forall c | c in r.entries :: !r.entries[c].Dict?
  }

  /** `c` starts with `p`. */
  predicate HasPrefix(c: string, p: string) {
    |p| <= |c| && c[..|p|] == p
  }

  /** `c` is `p` followed by a key of `m`. */
  predicate Inside(c: string, p: string, m: map<string, Value>) {
    HasPrefix(c, p) && c[|p|..] in m
  }

  /** Every listed key of the dict has an entry. */
  predicate Listed(r: Value)
    requires r.Dict?
  {
    forall j | 0 <= j < |r.keys| :: r.keys[j] in r.entries
  }

  /** The result of `flatten_dict(d, sep)`. */
  function Flattened(d: Value, sep: string): (r: Value)
    requires d.Dict? && WF(d)
    ensures r.Dict? && Listed(r)
    decreases d, 1
  {
    FlattenPrefix(d, sep, |d.keys|)
  }

  /** `ret` after the loop has visited the first `i` keys of `d`: a dict value
      adds its own flattened entries under `key + sep`, any other value is
      stored under its key. Either way, later writes win. */
  function FlattenPrefix(d: Value, sep: string, i: nat): (r: Value)
    requires d.Dict? && WF(d) && i <= |d.keys|
    ensures r.Dict? && Listed(r)
    decreases d, 0, i
  {
    if i == 0 then EmptyDict
    else
      var prev := FlattenPrefix(d, sep, i - 1);
      var k := d.keys[i - 1];
      var v := d.entries[k];
      if v.Dict? then AddNested(prev, k, v, sep) else SetKey(prev, k, v)
  }

  /** `ret.update` with the flattened nested dict `v` under `k + sep`. */
  function AddNested(prev: Value, k: string, v: Value, sep: string): (r: Value)
    requires prev.Dict? && v.Dict? && WF(v)
    ensures r.Dict? && (Listed(prev) ==> Listed(r))
    decreases v, 2
  {
    UpdateUnder(prev, k + sep, Flattened(v, sep), |Flattened(v, sep).keys|)
  }

  /** `acc.update({p + k2: v2 for k2, v2 in inner.items()})` after the first
      `j` keys of `inner`. The composite keys are distinct because the keys of
      `inner` are, so the comprehension loses nothing. */
  function UpdateUnder(acc: Value, p: string, inner: Value, j: nat): (r: Value)
    requires acc.Dict? && inner.Dict? && Listed(inner) && j <= |inner.keys|
    ensures r.Dict? && (Listed(acc) ==> Listed(r))
    decreases j
  {
    if j == 0 then acc
    else
      var k2 := inner.keys[j - 1];
      SetKey(UpdateUnder(acc, p, inner, j - 1), p + k2, inner.entries[k2])
  }

  /** Which keys `UpdateUnder` adds and the values it leaves under them. */
  lemma {:induction false} UpdateUnderEntries(acc: Value, p: string, inner: Value, j: nat)
    requires acc.Dict? && inner.Dict? && WF(inner) && j <= |inner.keys|
    ensures var r := UpdateUnder(acc, p, inner, j);
      forall c :: c in r.entries <==> c in acc.entries || (HasPrefix(c, p) && c[|p|..] in inner.keys[..j])
    ensures var r := UpdateUnder(acc, p, inner, j);
      forall c | c in r.entries ::
        r.entries[c] == if HasPrefix(c, p) && c[|p|..] in inner.keys[..j] then inner.entries[c[|p|..]] else acc.entries[c]
  {
    if j > 0 {
      UpdateUnderEntries(acc, p, inner, j - 1);
      var k2 := inner.keys[j - 1];
      PrefixStep(inner.keys, j - 1);
      assert (p + k2)[..|p|] == p && (p + k2)[|p|..] == k2;
      forall c | HasPrefix(c, p) && c[|p|..] == k2
        ensures c == p + k2
      {
        assert c == c[..|p|] + c[|p|..];
      }
    }
  }

  /** The same, for the whole of `inner`. */
  lemma UpdateUnderAll(acc: Value, p: string, inner: Value)
    requires acc.Dict? && inner.Dict? && WF(inner)
    ensures var r := UpdateUnder(acc, p, inner, |inner.keys|);
      forall c :: c in r.entries <==> c in acc.entries || Inside(c, p, inner.entries)
    ensures var r := UpdateUnder(acc, p, inner, |inner.keys|);
      forall c | c in r.entries ::
        r.entries[c] == if Inside(c, p, inner.entries) then inner.entries[c[|p|..]] else acc.entries[c]
  {
    UpdateUnderEntries(acc, p, inner, |inner.keys|);
    assert inner.keys[..|inner.keys|] == inner.keys;
  }

  /** The entry at position `j` of `d` produces the composite key `c`. */
  predicate Contributes(d: Value, sep: string, j: nat, c: string)
    requires d.Dict? && WF(d) && j < |d.keys|
  {
    var k := d.keys[j];
    var v := d.entries[k];
    if v.Dict? then Inside(c, k + sep, Flattened(v, sep).entries) else c == k
  }

  /** The value the entry at position `j` of `d` puts under `c`. */
  function Contribution(d: Value, sep: string, j: nat, c: string): (r: Value)
    requires d.Dict? && WF(d) && j < |d.keys| && Contributes(d, sep, j, c)
  {
    var k := d.keys[j];
    var v := d.entries[k];
    if v.Dict? then Flattened(v, sep).entries[c[|k + sep|..]] else v
  }

  /** One more key of `d` visited: `c` is added or overwritten exactly when
      that entry contributes it. */
  lemma StepAt(d: Value, sep: string, i: nat, c: string)
    requires d.Dict? && WF(d) && i < |d.keys|
    ensures var prev, r := FlattenPrefix(d, sep, i), FlattenPrefix(d, sep, i + 1);
      && (c in r.entries <==> c in prev.entries || Contributes(d, sep, i, c))
      && (c in r.entries ==>
            r.entries[c] == if Contributes(d, sep, i, c) then Contribution(d, sep, i, c) else prev.entries[c])
  {
    var prev := FlattenPrefix(d, sep, i);
    var k := d.keys[i];
    var v := d.entries[k];
    if v.Dict? {
      FlattenedWF(v, sep);
      UpdateUnderAll(prev, k + sep, Flattened(v, sep));
    }
  }

  /** A key contributed below `i` is in the flattened prefix. */
  lemma {:induction false} PresentAt(d: Value, sep: string, i: nat, j: nat, c: string)
    requires d.Dict? && WF(d) && j < i <= |d.keys| && Contributes(d, sep, j, c)
    ensures c in FlattenPrefix(d, sep, i).entries
  {
    StepAt(d, sep, i - 1, c);
    if j < i - 1 {
      PresentAt(d, sep, i - 1, j, c);
    }
  }

  /** A key no entry below `i` contributes is not in the flattened prefix. */
  lemma {:induction false} AbsentAt(d: Value, sep: string, i: nat, c: string)
    requires d.Dict? && WF(d) && i <= |d.keys|
    requires forall j | 0 <= j < i :: !Contributes(d, sep, j, c)
    ensures c !in FlattenPrefix(d, sep, i).entries
  {
    if i > 0 {
      StepAt(d, sep, i - 1, c);
      AbsentAt(d, sep, i - 1, c);
    }
  }

  /** The key holds what the last entry below `i` contributing it gave. */
  lemma {:induction false} LastAt(d: Value, sep: string, i: nat, j: nat, c: string)
    requires d.Dict? && WF(d) && j < i <= |d.keys| && Contributes(d, sep, j, c)
    requires forall j' | j < j' < i :: !Contributes(d, sep, j', c)
    ensures c in FlattenPrefix(d, sep, i).entries
    ensures FlattenPrefix(d, sep, i).entries[c] == Contribution(d, sep, j, c)
  {
    StepAt(d, sep, i - 1, c);
    if j < i - 1 {
      LastAt(d, sep, i - 1, j, c);
    }
  }

  /** The keys `flatten_dict` produces are exactly those some entry of `d`
      contributes. */
  lemma FlattenedKeys(d: Value, sep: string)
    requires d.Dict? && WF(d)
    ensures forall c :: c in Flattened(d, sep).entries <==> exists j | 0 <= j < |d.keys| :: Contributes(d, sep, j, c)
  {
    forall c
      ensures c in Flattened(d, sep).entries <==> exists j | 0 <= j < |d.keys| :: Contributes(d, sep, j, c)
    {
      if j :| 0 <= j < |d.keys| && Contributes(d, sep, j, c) {
        PresentAt(d, sep, |d.keys|, j, c);
      } else {
        AbsentAt(d, sep, |d.keys|, c);
      }
    }
  }

  /** Later writes win: the key `c` holds what the last entry producing it
      contributes. */
  lemma LastWins(d: Value, sep: string, j: nat, c: string)
    requires d.Dict? && WF(d) && j < |d.keys|
    requires Contributes(d, sep, j, c) && !ProducedLater(d, sep, j, c)
    ensures c in Flattened(d, sep).entries
    ensures Flattened(d, sep).entries[c] == Contribution(d, sep, j, c)
  {
    LastAt(d, sep, |d.keys|, j, c);
  }

  /** A later entry of `d` than the one at `j` also produces `c`. */
  predicate ProducedLater(d: Value, sep: string, j: nat, c: string)
    requires d.Dict? && WF(d) && j < |d.keys|
  {
    exists j' | j < j' < |d.keys| :: Contributes(d, sep, j', c)
  }

  /** A value that is not a dict stays under its own key, unless a later entry
      produces the same key. */
  lemma LeafKept(d: Value, sep: string, j: nat)
    requires d.Dict? && WF(d) && j < |d.keys|
    requires !d.entries[d.keys[j]].Dict? && !ProducedLater(d, sep, j, d.keys[j])
    ensures d.keys[j] in Flattened(d, sep).entries
    ensures Flattened(d, sep).entries[d.keys[j]] == d.entries[d.keys[j]]
  {
    LastWins(d, sep, j, d.keys[j]);
  }

  /** An entry `k2` of the flattened nested dict under `k` appears under
      `k + sep + k2`, unless a later entry produces the same key. */
  lemma NestedKept(d: Value, sep: string, j: nat, k2: string)
    requires d.Dict? && WF(d) && j < |d.keys| && d.entries[d.keys[j]].Dict?
    requires k2 in Flattened(d.entries[d.keys[j]], sep).entries
    requires !ProducedLater(d, sep, j, d.keys[j] + sep + k2)
    ensures d.keys[j] + sep + k2 in Flattened(d, sep).entries
    ensures Flattened(d, sep).entries[d.keys[j] + sep + k2] == Flattened(d.entries[d.keys[j]], sep).entries[k2]
  {
    var k := d.keys[j];
    var c := k + sep + k2;
    assert c == (k + sep) + k2;
    assert c[..|k + sep|] == k + sep && c[|k + sep|..] == k2;
    assert Contributes(d, sep, j, c);
    LastWins(d, sep, j, c);
  }

  /** `{k: {k2: v}}` with `v` not a dict: `v` appears under `k + sep + k2`,
      unless a later entry produces the same key. */
  lemma NestedLeaf(d: Value, sep: string, j: nat, k2: string, v: Value)
    requires d.Dict? && WF(d) && j < |d.keys| && !v.Dict?
    requires d.entries[d.keys[j]] == Dict([k2], map[k2 := v])
    requires !ProducedLater(d, sep, j, d.keys[j] + sep + k2)
    ensures d.keys[j] + sep + k2 in Flattened(d, sep).entries
    ensures Flattened(d, sep).entries[d.keys[j] + sep + k2] == v
  {
    var inner := Dict([k2], map[k2 := v]);
    assert FlattenPrefix(inner, sep, 0) == EmptyDict;
    assert Flattened(inner, sep).entries == map[k2 := v];
    NestedKept(d, sep, j, k2);
  }

  /** An empty nested dict contributes no entry at all. */
  lemma EmptyNested(d: Value, sep: string, j: nat)
    requires d.Dict? && WF(d) && j < |d.keys| && d.entries[d.keys[j]] == EmptyDict
    ensures forall c :: !Contributes(d, sep, j, c)
    ensures FlattenPrefix(d, sep, j + 1) == FlattenPrefix(d, sep, j)
  {
    assert Flattened(EmptyDict, sep) == EmptyDict;
  }

  /** No value of the result is a dict. */
  lemma FlattenedFlat(d: Value, sep: string)
    requires d.Dict? && WF(d)
    ensures Flat(Flattened(d, sep))
    decreases d, 1
  {
    FlatAt(d, sep, |d.keys|);
  }

  lemma {:induction false} FlatAt(d: Value, sep: string, i: nat)
    requires d.Dict? && WF(d) && i <= |d.keys|
    ensures Flat(FlattenPrefix(d, sep, i))
    decreases d, 0, i
  {
    if i > 0 {
      FlatAt(d, sep, i - 1);
      var v := d.entries[d.keys[i - 1]];
      if v.Dict? {
        FlattenedFlat(v, sep);
      }
      var r := FlattenPrefix(d, sep, i);
      forall c | c in r.entries
        ensures !r.entries[c].Dict?
      {
        StepAt(d, sep, i - 1, c);
      }
    }
  }

  /** The result is a well-formed dict: each key listed once, every value
      well-formed. */
  lemma {:induction false} FlattenedWF(d: Value, sep: string)
    requires d.Dict? && WF(d)
    ensures WF(Flattened(d, sep))
    decreases d, 1
  {
    PrefixWF(d, sep, |d.keys|);
  }

  lemma {:induction false} PrefixWF(d: Value, sep: string, i: nat)
    requires d.Dict? && WF(d) && i <= |d.keys|
    ensures WF(FlattenPrefix(d, sep, i))
    decreases d, 0, i
  {
    if i > 0 {
      PrefixWF(d, sep, i - 1);
      var v := d.entries[d.keys[i - 1]];
      if v.Dict? {
        NestedWF(FlattenPrefix(d, sep, i - 1), d.keys[i - 1], v, sep);
      } else {
        SetKeyWF(FlattenPrefix(d, sep, i - 1), d.keys[i - 1], v);
      }
    }
  }

  lemma NestedWF(prev: Value, k: string, v: Value, sep: string)
    requires prev.Dict? && WF(prev) && v.Dict? && WF(v)
    ensures WF(AddNested(prev, k, v, sep))
    decreases v, 2
  {
    FlattenedWF(v, sep);
    UpdateUnderWF(prev, k + sep, Flattened(v, sep), |Flattened(v, sep).keys|);
  }

  lemma {:induction false} UpdateUnderWF(acc: Value, p: string, inner: Value, j: nat)
    requires acc.Dict? && inner.Dict? && WF(acc) && WF(inner) && j <= |inner.keys|
    ensures WF(UpdateUnder(acc, p, inner, j))
  {
    if j > 0 {
      UpdateUnderWF(acc, p, inner, j - 1);
      var k2 := inner.keys[j - 1];
      SetKeyWF(UpdateUnder(acc, p, inner, j - 1), p + k2, inner.entries[k2]);
    }
  }

  /** `flatten_dict(d, sep)` with its loop over the items of `d`, a recursive
      call for each nested dict and the `update` of `ret`. */
  method Flatten(d: Value, sep: string) returns (ret: Value)
    requires d.Dict? && WF(d)
    ensures ret == Flattened(d, sep)
    decreases d, 1
  {
    ret := EmptyDict;
    var i := 0;
    while i < |d.keys|
      invariant i <= |d.keys|
      invariant ret == FlattenPrefix(d, sep, i)
    {
      ret := VisitItem(d, sep, i, ret);
      i := i + 1;
    }
  }

  /** One round of the loop: the item at position `i` goes into `ret`. */
  method VisitItem(d: Value, sep: string, i: nat, ret: Value) returns (ret': Value)
    requires d.Dict? && WF(d) && i < |d.keys| && ret == FlattenPrefix(d, sep, i)
    ensures ret' == FlattenPrefix(d, sep, i + 1)
    decreases d, 0
  {
    var key := d.keys[i];
    var val := d.entries[key];
    if val.Dict? {
      var inner := Flatten(val, sep);
      ret' := Update(ret, key + sep, inner);
    } else {
      ret' := SetKey(ret, key, val);
    }
  }

  /** `ret.update` with every entry of `inner` under the prefix `p`. */
  method Update(acc: Value, p: string, inner: Value) returns (r: Value)
    requires acc.Dict? && inner.Dict? && Listed(inner)
    ensures r == UpdateUnder(acc, p, inner, |inner.keys|)
  {
    r := acc;
    var j := 0;
    while j < |inner.keys|
      invariant j <= |inner.keys|
      invariant r == UpdateUnder(acc, p, inner, j)
    {
      var k2 := inner.keys[j];
      r := SetKey(r, p + k2, inner.entries[k2]);
      j := j + 1;
    }
  }
}

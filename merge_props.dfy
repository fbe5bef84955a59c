/** What `merge_struct` guarantees, stated on `MergeStruct.Merge`. */
module MergeProperties {
  import opened PyValues
  import opened MergeStruct

  /** A list first and a non-list second: the second is appended unless the
      list already holds an equal element; afterwards the list holds it. */
  lemma AppendToList(v1: Value, v2: Value, a: Option<string>)
    requires WF(v1) && WF(v2) && v1.List? && !v2.List?
    ensures var o := Merge(v1, v2, a);
      && o.Done? && o.ret == Null && o.ver2 == v2 && o.ver1.List?
      && (Contains(v1.items, v2) ==> o.ver1 == v1)
      && (!Contains(v1.items, v2) ==> o.ver1.items == v1.items + [v2])
      && Contains(o.ver1.items, v2)
  {
    ContainsAppended(v1.items, v2);
  }

  /** A dict first and a list second: the dict is appended to the list unless
      it is already there; afterwards the list holds it. */
  lemma AppendDictToList(v1: Value, v2: Value, a: Option<string>)
    requires WF(v1) && WF(v2) && v1.Dict? && v2.List?
    ensures var o := Merge(v1, v2, a);
      && o.Done? && o.ret == Null && o.ver1 == v1 && o.ver2.List?
      && (Contains(v2.items, v1) ==> o.ver2 == v2)
      && (!Contains(v2.items, v1) ==> o.ver2.items == v2.items + [v1])
      && Contains(o.ver2.items, v1)
  {
    ContainsAppended(v2.items, v1);
  }

  /** Appending is idempotent: merging the same value into the result again
      changes nothing. */
  lemma AppendIdempotent(v1: Value, v2: Value, a: Option<string>)
    requires WF(v1) && WF(v2)
    requires (v1.List? && !v2.List?) || (v1.Dict? && v2.List?)
    ensures var o := Merge(v1, v2, a);
      o.Done? && Merge(o.ver1, o.ver2, a) == Done(Null, o.ver1, o.ver2)
  {
    if v1.List? {
      AppendToList(v1, v2, a);
    } else {
      AppendDictToList(v1, v2, a);
    }
  }

  /** Two lists, two scalars, or None first: nothing changes, because the
      code only rebinds a local name or does nothing. */
  lemma NoEffect(v1: Value, v2: Value, a: Option<string>)
    requires WF(v1) && WF(v2)
    requires (v1.List? && v2.List?) || (IsScalar(v1) && IsScalar(v2)) || v1.Null?
    ensures Merge(v1, v2, a) == Done(Null, v1, v2)
  {
  }

  /** A scalar first and a non-scalar second is the swapped call: the scalar
      is appended to a list that lacks it, is ignored by None, fails the
      assertion against a dict, and any other object raises TypeError. */
  lemma ScalarFirst(v1: Value, v2: Value, a: Option<string>)
    requires WF(v1) && WF(v2) && IsScalar(v1) && !IsScalar(v2)
    ensures Merge(v1, v2, a) == Swap(Merge(v2, v1, None))
    ensures v2.List? ==>
      && Merge(v1, v2, a).Done? && Merge(v1, v2, a).ver1 == v1
      && Merge(v1, v2, a).ver2 == (if Contains(v2.items, v1) then v2 else List(v2.items + [v1]))
    ensures v2.Null? ==> Merge(v1, v2, a) == Done(Null, v1, v2)
    ensures v2.Dict? ==> Merge(v1, v2, a) == Raised(AssertionError)
    ensures v2.Other? ==> Merge(v1, v2, a) == Raised(TypeError)
  {
  }

  /** None second is not an identity: a list gains None unless it holds one
      already, a dict fails the assertion, a scalar or None first is left as
      it is, and any other object raises TypeError. */
  lemma NoneSecond(v1: Value, a: Option<string>)
    requires WF(v1)
    ensures v1.List? ==>
      Merge(v1, Null, a) == Done(Null, if Contains(v1.items, Null) then v1 else List(v1.items + [Null]), Null)
    ensures v1.Dict? ==> Merge(v1, Null, a) == Raised(AssertionError)
    ensures IsScalar(v1) || v1.Null? ==> Merge(v1, Null, a) == Done(Null, v1, Null)
    ensures v1.Other? ==> Merge(v1, Null, a) == Raised(TypeError)
  {
  }

  /** The two errors raised directly, without a nested call. */
  lemma DirectErrors(v1: Value, v2: Value, a: Option<string>)
    requires WF(v1) && WF(v2)
    ensures v1.Dict? && !v2.Dict? && !v2.List? ==> Merge(v1, v2, a) == Raised(AssertionError)
    ensures v1.Other? ==> Merge(v1, v2, a) == Raised(TypeError)
  {
  }

  /** When a call does not raise: the source's own conditions, read off the
      code. A list first never fails; a dict first needs a dict or a list
      second and, with a dict, every shared key other than the aslistofdict
      key must merge in turn; a scalar first fails against a dict or an object
      of another type; None first never fails; any other first argument does. */
  predicate Mergeable(v1: Value, v2: Value, a: Option<string>)
    requires WF(v1) && WF(v2)
    ensures v1.List? || v1.Null? || (v1.Dict? && v2.List?) ==> Mergeable(v1, v2, a)
    ensures Mergeable(v1, v2, a) ==>
      && !v1.Other?
      && (v1.Dict? ==> v2.Dict? || v2.List?)
      && (IsScalar(v1) ==> !v2.Dict? && !v2.Other?)
    decreases Size(v1) + Size(v2)
  {
    SizeOfEntry2(v1, v2);
    if v1.List? then true
    else if v1.Dict? then
      if v2.List? then true
      else v2.Dict? && forall k | k in v1.entries && k in v2.entries && a != Some(k) ::
        Mergeable(v1.entries[k], v2.entries[k], None)
    else if IsScalar(v1) then !v2.Dict? && !v2.Other?
    else v1.Null?
  }

  lemma SizeOfEntry2(v1: Value, v2: Value)
    requires WF(v1) && WF(v2)
    ensures v1.Dict? && v2.Dict? ==>
      forall k | k in v1.entries && k in v2.entries :: Size(v1.entries[k]) + Size(v2.entries[k]) < Size(v1) + Size(v2)
  {
    if v1.Dict? && v2.Dict? {
      SizeOfEntry(v1);
      SizeOfEntry(v2);
    }
  }

  /** merge_struct raises exactly when the arguments are not `Mergeable`. */
  lemma {:induction false} RaisesIff(v1: Value, v2: Value, a: Option<string>)
    requires WF(v1) && WF(v2)
    ensures Merge(v1, v2, a).Raised? <==> !Mergeable(v1, v2, a)
    decreases Size(v1) + Size(v2), 2, 0
  {
    if v1.Dict? && v2.Dict? {
      FailuresIff(v1, v2, a, 0);
      assert v1.keys[0..] == v1.keys;
    }
  }

  /** No key of ver1 from position `i` on raises iff every such shared key
      other than the aslistofdict key is mergeable. */
  lemma {:induction false} FailuresIff(d1: Value, d2: Value, a: Option<string>, i: nat)
    requires d1.Dict? && d2.Dict? && WF(d1) && WF(d2) && i <= |d1.keys|
    ensures FirstFailure(d1, d2, a, i).None? <==>
      forall k | k in d1.keys[i..] && k in d2.entries && a != Some(k) :: Mergeable(d1.entries[k], d2.entries[k], None)
    decreases Size(d1) + Size(d2), 1, |d1.keys| - i
  {
    if i < |d1.keys| {
      var k := d1.keys[i];
      SizeOfEntry2(d1, d2);
      FailuresIff(d1, d2, a, i + 1);
      assert d1.keys[i..] == [k] + d1.keys[i + 1..];
      KeyFailsIff(d1, d2, a, k);
    }
  }

  /** The nested merge of one shared key raises iff the key is not the
      aslistofdict key and its two values are not mergeable. */
  lemma {:induction false} KeyFailsIff(d1: Value, d2: Value, a: Option<string>, k: string)
    requires d1.Dict? && d2.Dict? && WF(d1) && WF(d2) && k in d1.entries
    ensures k in d2.entries ==>
      (Merged(d1, d2, a, k).Failed? <==> a != Some(k) && !Mergeable(d1.entries[k], d2.entries[k], None))
    decreases Size(d1) + Size(d2), 0, 0
  {
    if k in d2.entries {
      SizeOfEntry2(d1, d2);
      var x1, x2 := d1.entries[k], d2.entries[k];
      assert Merged(d1, d2, a, k) == SharedKey(x1, x2, a == Some(k));
      if a == Some(k) {
        assert Merge(Wrap(x1), Wrap(x2), None).Done?;
      } else {
        RaisesIff(x1, x2, None);
      }
    }
  }

  /** Two dicts merged without an exception: each ends up with the union of
      the keys, its own keys first in their order, then the other's new keys
      in the other's order. */
  lemma DictKeys(d1: Value, d2: Value, a: Option<string>)
    requires d1.Dict? && d2.Dict? && WF(d1) && WF(d2) && Merge(d1, d2, a).Done?
    ensures var o := Merge(d1, d2, a);
      && o.ver1.Dict? && o.ver2.Dict?
      && o.ver1.keys == d1.keys + MissingFrom(d2.keys, d1.entries)
      && o.ver2.keys == d2.keys + MissingFrom(d1.keys, d2.entries)
      && (forall k :: k in o.ver1.entries <==> k in d1.entries || k in d2.entries)
      && (forall k :: k in o.ver2.entries <==> k in d1.entries || k in d2.entries)
  {
  }

  /** A key of one dict only is copied into the other with its value. */
  lemma DictCopiedKeys(d1: Value, d2: Value, a: Option<string>)
    requires d1.Dict? && d2.Dict? && WF(d1) && WF(d2) && Merge(d1, d2, a).Done?
    ensures var o := Merge(d1, d2, a);
      && o.ver1.Dict? && o.ver2.Dict?
      && (forall k | k in d2.entries && k !in d1.entries ::
            && k in o.ver1.entries && k in o.ver2.entries
            && o.ver1.entries[k] == d2.entries[k] && o.ver2.entries[k] == d2.entries[k])
      && (forall k | k in d1.entries && k !in d2.entries ::
            && k in o.ver1.entries && k in o.ver2.entries
            && o.ver1.entries[k] == d1.entries[k] && o.ver2.entries[k] == d1.entries[k])
  {
    DictsDone(d1, d2, a);
    AfterOthers(d1, d2, a);
    forall k | k in d1.entries && k !in d2.entries
      ensures After1(d1, d2, a)[k] == d1.entries[k] && After2(d1, d2, a)[k] == d1.entries[k]
    {
      AfterAt(d1, d2, a, k);
    }
  }

  /** A shared key: ver1 receives what the nested call returns, None, except
      for the aslistofdict key whose wrapped values are equal, which is left
      alone. The nested call gets no aslistofdict, and ver2 keeps what it
      leaves there; for the aslistofdict key ver2 keeps its value. */
  lemma DictSharedKeys(d1: Value, d2: Value, a: Option<string>)
    requires d1.Dict? && d2.Dict? && WF(d1) && WF(d2) && Merge(d1, d2, a).Done?
    ensures var o := Merge(d1, d2, a);
      && o.ver1.Dict? && o.ver2.Dict?
      && forall k | k in d1.entries && k in d2.entries :: SharedAfter(d1, d2, a, k, o)
  {
    var o := Merge(d1, d2, a);
    DictsDone(d1, d2, a);
    forall k | k in d1.entries && k in d2.entries
      ensures SharedAfter(d1, d2, a, k, o)
    {
      SharedKeyAfter(d1, d2, a, k);
    }
  }

  /** What a shared key `k` holds in the outcome `o` of merging two dicts. */
  ghost predicate SharedAfter(d1: Value, d2: Value, a: Option<string>, k: string, o: Outcome)
    requires d1.Dict? && d2.Dict? && WF(d1) && WF(d2)
    requires k in d1.entries && k in d2.entries
  {
    && o.Done? && o.ver1.Dict? && o.ver2.Dict?
    && k in o.ver1.entries && k in o.ver2.entries
    && SharedValues(d1.entries[k], d2.entries[k], a == Some(k), o.ver1.entries[k], o.ver2.entries[k])
  }

  /** The values `y1`, `y2` a shared key holds after the merge, given its values
      `x1`, `x2` before and whether it is the aslistofdict key. */
  ghost predicate SharedValues(x1: Value, x2: Value, listOfDict: bool, y1: Value, y2: Value)
    requires WF(x1) && WF(x2)
  {
    && (listOfDict ==> y2 == x2)
    && (listOfDict && Eq(Wrap(x1), Wrap(x2)) ==> y1 == x1)
    && (listOfDict && !Eq(Wrap(x1), Wrap(x2)) ==> y1 == Null)
    && (!listOfDict ==> y1 == Null && Merge(x1, x2, None).Done? && y2 == Merge(x1, x2, None).ver2)
  }

  lemma SharedKeyAfter(d1: Value, d2: Value, a: Option<string>, k: string)
    requires d1.Dict? && d2.Dict? && WF(d1) && WF(d2) && Merge(d1, d2, a).Done?
    requires k in d1.entries && k in d2.entries
    ensures SharedAfter(d1, d2, a, k, Merge(d1, d2, a))
  {
    DictsDone(d1, d2, a);
    var i :| 0 <= i < |d1.keys| && d1.keys[i] == k;
    NoFailureAt(d1, d2, a, 0, i);
    AfterAt(d1, d2, a, k);
    var s := Merged(d1, d2, a, k);
    assert s == SharedKey(d1.entries[k], d2.entries[k], a == Some(k));
    SharedStepValues(d1.entries[k], d2.entries[k], a == Some(k));
  }

  /** The step the loop body takes for a shared key, when it does not raise. */
  lemma SharedStepValues(x1: Value, x2: Value, listOfDict: bool)
    requires WF(x1) && WF(x2) && SharedKey(x1, x2, listOfDict).Stepped?
    ensures var s := SharedKey(x1, x2, listOfDict); SharedValues(x1, x2, listOfDict, s.new1, s.new2)
  {
  }

  /** Two dicts merged without an exception: what `MergeDicts` builds. */
  lemma DictsDone(d1: Value, d2: Value, a: Option<string>)
    requires d1.Dict? && d2.Dict? && WF(d1) && WF(d2) && Merge(d1, d2, a).Done?
    ensures FirstFailure(d1, d2, a, 0).None?
    ensures Merge(d1, d2, a) == Done(Null, Dict(d1.keys + MissingFrom(d2.keys, d1.entries), After1(d1, d2, a)),
                                           Dict(d2.keys + MissingFrom(d1.keys, d2.entries), After2(d1, d2, a)))
  {
  }

  /** With no failure from position `i` on, the key at `j` does not fail. */
  lemma {:induction false} NoFailureAt(d1: Value, d2: Value, a: Option<string>, i: nat, j: nat)
    requires d1.Dict? && d2.Dict? && WF(d1) && WF(d2) && i <= j < |d1.keys|
    requires FirstFailure(d1, d2, a, i).None?
    ensures d1.keys[j] in d2.entries ==> Merged(d1, d2, a, d1.keys[j]).Stepped?
    decreases j - i
  {
    if i < j {
      NoFailureAt(d1, d2, a, i + 1, j);
    }
  }
}

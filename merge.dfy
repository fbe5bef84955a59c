/** `merge_struct(ver1, ver2, aslistofdict)` as the code is written: it never
    returns anything but None, and its effect is what it leaves in its two
    arguments. `Merge` states that effect declaratively; `MergeStruct` computes
    it step by step, with the key loops of the dict/dict case. */
module MergeStruct {
  import opened PyValues

  /** The two exceptions merge_struct raises: the assertion that a dict meets
      a dict, and the TypeError for an argument of an unknown type. */
  datatype MergeError = AssertionError | TypeError

  /** What a call leaves behind: the value it returns and the two arguments as
      they are afterwards; or the exception it raised. */
  datatype Outcome = Done(ret: Value, ver1: Value, ver2: Value) | Raised(error: MergeError)

  /** The outcome of `merge_struct(ver2, ver1)` seen from the caller, whose
      first argument is the callee's second. */
  function Swap(o: Outcome): (s: Outcome)
    ensures o.Done? ==> s == Done(o.ret, o.ver2, o.ver1)
    ensures o.Raised? ==> s == o
  {
    match o
    case Done(r, x, y) => Done(r, y, x)
    case Raised(_) => o
  }

  /** `[v]` unless `v` is already a list. */
  function Wrap(v: Value): (w: Value)
    ensures w.List? && (v.List? ==> w == v)
    ensures WF(v) ==> WF(w)
    ensures Size(w) <= Size(v) + 1
  {
    if v.List? then v
    else
      var w := List([v]);
      assert [v][1..] == [];
      assert SizeOfItems([v], w) == Size(v) + SizeOfItems([], w);
      w
  }

  /** What the loop body does to a key present in both dicts: the new values
      of ver1[k] and ver2[k], or the exception the nested call raised. */
  datatype Step = Stepped(new1: Value, new2: Value) | Failed(error: MergeError)

  /** The effect of `merge_struct` on two values, ver1 and ver2. */
  function Merge(v1: Value, v2: Value, aslistofdict: Option<string>): (o: Outcome)
    requires WF(v1) && WF(v2)
    ensures o.Done? ==> o.ret == Null
    ensures o.Done? ==> WF(o.ver1) && WF(o.ver2)
    decreases Size(v1) + Size(v2), if IsScalar(v1) then 3 else 2, 0
  {
    if v1.List? then
      if v2.List? then Done(Null, v1, v2)      // only a local name is rebound
      else if Contains(v1.items, v2) then Done(Null, v1, v2)
      else Done(Null, List(v1.items + [v2]), v2)
    else if v2.List? && v1.Dict? then
      if Contains(v2.items, v1) then Done(Null, v1, v2)
      else Done(Null, v1, List(v2.items + [v1]))
    else if v1.Dict? then
      if !v2.Dict? then Raised(AssertionError)
      else MergeDicts(v1, v2, aslistofdict)
    else if IsScalar(v1) then
      if IsScalar(v2) then Done(Null, v1, v2)  // a conflict only rebinds a local name
      else Swap(Merge(v2, v1, None))
    else if v1.Null? then Done(Null, v1, v2)
    else Raised(TypeError)
  }

  /** The dict/dict case. Keys of ver1 are visited in order; the first nested
      call that raises aborts the merge. Otherwise every key ends up in both
      dicts: new keys are added at the end, ver2's after ver1's own keys and
      ver1's after ver2's own keys. */
  function MergeDicts(d1: Value, d2: Value, a: Option<string>): (o: Outcome)
    requires d1.Dict? && d2.Dict? && WF(d1) && WF(d2)
    ensures o.Done? ==> o.ret == Null
    ensures o.Done? ==> WF(o.ver1) && WF(o.ver2)
    decreases Size(d1) + Size(d2), 1, 0
  {
    match FirstFailure(d1, d2, a, 0)
    case Some(e) => Raised(e)
    case None =>
      var keys1 := d1.keys + MissingFrom(d2.keys, d1.entries);
      var keys2 := d2.keys + MissingFrom(d1.keys, d2.entries);
      MissingFromMembers(d2.keys, d1.entries);
      MissingFromMembers(d1.keys, d2.entries);
      DistinctAppend(d1.keys, MissingFrom(d2.keys, d1.entries));
      DistinctAppend(d2.keys, MissingFrom(d1.keys, d2.entries));
      Done(Null, Dict(keys1, After1(d1, d2, a)), Dict(keys2, After2(d1, d2, a)))
  }

  /** The loop body for a key `k` present in both dicts. For the
      `aslistofdict` key both values are wrapped in lists, and when these
      differ ver1[k] receives what the nested (list/list) call returns. Any
      other key is merged recursively, without `aslistofdict`; the nested call
      may change ver2[k] in place, and ver1[k] receives what it returns. */
  function SharedKey(x1: Value, x2: Value, listOfDict: bool): (s: Step)
    requires WF(x1) && WF(x2)
    ensures s.Stepped? ==> WF(s.new1) && WF(s.new2)
    ensures s.Stepped? ==> s.new1 == Null || s.new1 == x1
    decreases Size(x1) + Size(x2) + 3, 0, 0
  {
    if listOfDict then
      var w1, w2 := Wrap(x1), Wrap(x2);
      if Eq(w1, w2) then Stepped(x1, x2)
      else
        match Merge(w1, w2, None)
        case Done(r, _, _) => Stepped(r, x2)
        case Raised(e) => Failed(e)
    else
      match Merge(x1, x2, None)
      case Done(r, _, y2) => Stepped(r, y2)
      case Raised(e) => Failed(e)
  }

  /** The loop body applied to the shared key `k` of the two dicts. */
  function Merged(d1: Value, d2: Value, a: Option<string>, k: string): (s: Step)
    requires d1.Dict? && d2.Dict? && WF(d1) && WF(d2)
    requires k in d1.entries && k in d2.entries
    ensures s.Stepped? ==> WF(s.new1) && WF(s.new2)
    ensures s.Stepped? ==> s.new1 == Null || s.new1 == d1.entries[k]
    decreases Size(d1) + Size(d2), 0, 0
  {
    SizeOfEntry(d1);
    SizeOfEntry(d2);
    SharedKey(d1.entries[k], d2.entries[k], a == Some(k))
  }

  /** The exception raised by the first key of ver1, from position `i` on,
      whose nested merge raises; None if there is no such key. */
  function FirstFailure(d1: Value, d2: Value, a: Option<string>, i: nat): (r: Option<MergeError>)
    requires d1.Dict? && d2.Dict? && WF(d1) && WF(d2) && i <= |d1.keys|
    ensures r.Some? ==> exists j | i <= j < |d1.keys| ::
      && d1.keys[j] in d2.entries && Merged(d1, d2, a, d1.keys[j]) == Failed(r.value)
      && forall j' | i <= j' < j :: d1.keys[j'] in d2.entries ==> Merged(d1, d2, a, d1.keys[j']).Stepped?
    decreases Size(d1) + Size(d2), 0, |d1.keys| - i
  {
    if i == |d1.keys| then None
    else
      var k := d1.keys[i];
      if k in d2.entries && Merged(d1, d2, a, k).Failed? then Some(Merged(d1, d2, a, k).error)
      else FirstFailure(d1, d2, a, i + 1)
  }

  /** ver1's entries afterwards: a shared key holds what the loop body
      assigned, a key of ver2 only holds ver2's value. */
  function After1(d1: Value, d2: Value, a: Option<string>): (m: map<string, Value>)
    requires d1.Dict? && d2.Dict? && WF(d1) && WF(d2)
    ensures m.Keys == d1.entries.Keys + d2.entries.Keys
    decreases Size(d1) + Size(d2), 0, 2
  {
    map k | k in d1.entries.Keys + d2.entries.Keys :: Final1(d1, d2, a, k)
  }

  /** The entry of a key of either dict in ver1 afterwards. */
  function Final1(d1: Value, d2: Value, a: Option<string>, k: string): (v: Value)
    requires d1.Dict? && d2.Dict? && WF(d1) && WF(d2)
    requires k in d1.entries || k in d2.entries
    ensures WF(v)
    ensures k !in d2.entries ==> v == d1.entries[k]
    ensures k !in d1.entries ==> v == d2.entries[k]
    ensures k in d1.entries && k in d2.entries ==> v == Null || v == d1.entries[k]
    decreases Size(d1) + Size(d2), 0, 1
  {
    if k !in d2.entries then d1.entries[k]
    else if k !in d1.entries then d2.entries[k]
    else match Merged(d1, d2, a, k)
      case Stepped(n1, _) => n1
      case Failed(_) => d1.entries[k]  // not reached once FirstFailure found nothing
  }

  /** ver2's entries afterwards: a shared key holds what the nested call left
      in it, a key of ver1 only holds ver1's value. */
  function After2(d1: Value, d2: Value, a: Option<string>): (m: map<string, Value>)
    requires d1.Dict? && d2.Dict? && WF(d1) && WF(d2)
    ensures m.Keys == d1.entries.Keys + d2.entries.Keys
    decreases Size(d1) + Size(d2), 0, 2
  {
    map k | k in d1.entries.Keys + d2.entries.Keys :: Final2(d1, d2, a, k)
  }

  /** The entry of a key of either dict in ver2 afterwards. */
  function Final2(d1: Value, d2: Value, a: Option<string>, k: string): (v: Value)
    requires d1.Dict? && d2.Dict? && WF(d1) && WF(d2)
    requires k in d1.entries || k in d2.entries
    ensures WF(v)
    ensures k !in d2.entries ==> v == d1.entries[k]
    ensures k !in d1.entries ==> v == d2.entries[k]
    decreases Size(d1) + Size(d2), 0, 1
  {
    if k !in d2.entries then d1.entries[k]
    else if k !in d1.entries then d2.entries[k]
    else match Merged(d1, d2, a, k)
      case Stepped(_, n2) => n2
      case Failed(_) => d2.entries[k]  // not reached once FirstFailure found nothing
  }

  /** merge_struct, statement by statement. The arguments are values, so what
      the source changes in place is returned in the outcome. */
  method MergeStruct(ver1: Value, ver2: Value, aslistofdict: Option<string>) returns (out: Outcome)
    requires WF(ver1) && WF(ver2)
    ensures out == Merge(ver1, ver2, aslistofdict)
    decreases Size(ver1) + Size(ver2), if IsScalar(ver1) then 3 else 2, 0
  {
    if ver1.List? {
      if ver2.List? {
        // `ver1 = ver1 + [...]` binds a new list to the local name only
        out := Done(Null, ver1, ver2);
      } else if !Contains(ver1.items, ver2) {
        out := Done(Null, List(ver1.items + [ver2]), ver2);
      } else {
        out := Done(Null, ver1, ver2);
      }
    } else if ver2.List? && ver1.Dict? {
      if !Contains(ver2.items, ver1) {
        out := Done(Null, ver1, List(ver2.items + [ver1]));
      } else {
        out := Done(Null, ver1, ver2);
      }
    } else if ver1.Dict? {
      if !ver2.Dict? {
        return Raised(AssertionError);
      }
      out := MergeDictEntries(ver1, ver2, aslistofdict);
    } else if IsScalar(ver1) {
      if IsScalar(ver2) {
        // `ver1 = [ver1, ver2]` binds a new list to the local name only
        out := Done(Null, ver1, ver2);
      } else {
        var swapped := MergeStruct(ver2, ver1, None);
        out := Swap(swapped);
      }
    } else if ver1.Null? {
      out := Done(Null, ver1, ver2);
    } else {
      out := Raised(TypeError);
    }
  }

  /** The dict/dict branch of merge_struct: the loop over a snapshot of
      ver1's keys, then the loop over ver2's keys. */
  method MergeDictEntries(d1: Value, d2: Value, a: Option<string>) returns (out: Outcome)
    requires d1.Dict? && d2.Dict? && WF(d1) && WF(d2)
    ensures out == MergeDicts(d1, d2, a)
    decreases Size(d1) + Size(d2), 1, 0
  {
    ghost var fs := KeyFailures(d1, d2, a);
    var failure, m1, m2, keys2 := VisitOwnKeys(d1, d2, a, fs);
    FirstFailureIs(d1, d2, a, fs, 0);
    if failure.Some? {
      return Raised(failure.value);
    }
    AfterOthers(d1, d2, a);
    VisitedAll(d1, d2, After1(d1, d2, a), After2(d1, d2, a), m1, m2, keys2);
    var keys1, m1' := CopyMissingKeys(d1.keys, m1, keys2, m2);
    KeysAfterCopy(d1, d2, m1);
    CopiedAll(d1, d2, After1(d1, d2, a), m1, m2, keys2, m1');
    out := Done(Null, Dict(keys1, m1'), Dict(keys2, m2));
  }

  /** `for k in list(ver1.keys())`: each shared key goes through the loop
      body, each key of ver1 only is copied into ver2. */
  method VisitOwnKeys(d1: Value, d2: Value, a: Option<string>, ghost fs: seq<Option<MergeError>>)
    returns (failure: Option<MergeError>, m1: map<string, Value>, m2: map<string, Value>, keys2: seq<string>)
    requires d1.Dict? && d2.Dict? && WF(d1) && WF(d2)
    requires fs == KeyFailures(d1, d2, a)
    ensures failure == FirstSome(fs, 0)
    ensures failure.None? ==> Visited(d1, d2, |d1.keys|, After1(d1, d2, a), After2(d1, d2, a), m1, m2, keys2)
    decreases Size(d1) + Size(d2), 0, 1
  {
    VisitStart(d1, d2, After1(d1, d2, a), After2(d1, d2, a));
    keys2, m1, m2 := d2.keys, d1.entries, d2.entries;
    var i := 0;
    while i < |d1.keys|
      invariant 0 <= i <= |d1.keys|
      invariant Visited(d1, d2, i, After1(d1, d2, a), After2(d1, d2, a), m1, m2, keys2)
      invariant FirstSome(fs, i) == FirstSome(fs, 0)
    {
      failure, m1, m2, keys2 := VisitKey(d1, d2, a, i, m1, m2, keys2);
      FirstSomeStep(fs, i);
      if failure.Some? {
        return;
      }
      i := i + 1;
    }
    failure := None;
  }

  /** The loop body for the `i`-th key of ver1. */
  method VisitKey(d1: Value, d2: Value, a: Option<string>, i: nat,
                  m1: map<string, Value>, m2: map<string, Value>, keys2: seq<string>)
    returns (failure: Option<MergeError>, m1': map<string, Value>, m2': map<string, Value>, keys2': seq<string>)
    requires d1.Dict? && d2.Dict? && WF(d1) && WF(d2)
    requires Visited(d1, d2, i, After1(d1, d2, a), After2(d1, d2, a), m1, m2, keys2)
    requires i < |d1.keys|
    ensures failure == KeyFailure(d1, d2, a, i)
    ensures failure.None? ==> Visited(d1, d2, i + 1, After1(d1, d2, a), After2(d1, d2, a), m1', m2', keys2')
    decreases Size(d1) + Size(d2), 0, 0
  {
    ghost var t1, t2 := After1(d1, d2, a), After2(d1, d2, a);
    var k := d1.keys[i];
    VisitAt(d1, d2, i, t1, t2, m1, m2, keys2);
    KeyStep(d1, d2, a, i);
    AfterAt(d1, d2, a, k);
    if k in m2 {
      var step := MergeSharedKey(m1[k], m2[k], a == Some(k));
      if step.Failed? {
        return Some(step.error), m1, m2, keys2;
      }
      VisitShared(d1, d2, i, t1, t2, m1, m2, keys2, step.new1, step.new2);
      failure, m1', m2', keys2' := None, m1[k := step.new1], m2[k := step.new2], keys2;
    } else {
      VisitOwn(d1, d2, i, t1, t2, m1, m2, keys2);
      failure, m1', m2', keys2' := None, m1, m2[k := m1[k]], keys2 + [k];
    }
  }

  /** The loop body for a key present in both dicts. For the aslistofdict
      key ver2[k] is left as it is, which `new2 == x2` records. */
  method MergeSharedKey(x1: Value, x2: Value, listOfDict: bool) returns (s: Step)
    requires WF(x1) && WF(x2)
    ensures s == SharedKey(x1, x2, listOfDict)
    decreases Size(x1) + Size(x2) + 3, 0, 0
  {
    if listOfDict {
      var v1elem, v2elem := x1, x2;
      if !v1elem.List? {
        v1elem := List([v1elem]);
      }
      if !v2elem.List? {
        v2elem := List([v2elem]);
      }
      assert v1elem == Wrap(x1) && v2elem == Wrap(x2);
      if Eq(v1elem, v2elem) {
        s := Stepped(x1, x2);
      } else {
        // two lists: the nested call never raises
        var o := MergeStruct(v1elem, v2elem, None);
        s := Stepped(o.ret, x2);
      }
    } else {
      var o := MergeStruct(x1, x2, None);
      if o.Raised? {
        return Failed(o.error);
      }
      s := Stepped(o.ret, o.ver2);
    }
  }

  /** The `i`-th key of ver1 as the specification sees it: what the nested
      call is, and how the first failure moves past it. */
  lemma KeyStep(d1: Value, d2: Value, a: Option<string>, i: nat)
    requires d1.Dict? && d2.Dict? && WF(d1) && WF(d2) && i < |d1.keys|
    ensures d1.keys[i] in d1.entries && WF(d1.entries[d1.keys[i]])
    ensures var k := d1.keys[i];
      k in d2.entries ==>
        && WF(d2.entries[k])
        && Size(d1.entries[k]) + Size(d2.entries[k]) + 3 < Size(d1) + Size(d2)
        && Merged(d1, d2, a, k) == SharedKey(d1.entries[k], d2.entries[k], a == Some(k))
  {
    SizeOfEntry(d1);
    SizeOfEntry(d2);
  }

  /** The exception the nested merge of the `j`-th key of ver1 raises, if
      any. */
  ghost function KeyFailure(d1: Value, d2: Value, a: Option<string>, j: nat): (r: Option<MergeError>)
    requires d1.Dict? && d2.Dict? && WF(d1) && WF(d2) && j < |d1.keys|
  {
    var k := d1.keys[j];
    if k in d2.entries && Merged(d1, d2, a, k).Failed? then Some(Merged(d1, d2, a, k).error) else None
  }

  ghost function KeyFailures(d1: Value, d2: Value, a: Option<string>): (fs: seq<Option<MergeError>>)
    requires d1.Dict? && d2.Dict? && WF(d1) && WF(d2)
    ensures |fs| == |d1.keys| && forall j | 0 <= j < |fs| :: fs[j] == KeyFailure(d1, d2, a, j)
  {
    seq(|d1.keys|, j requires 0 <= j < |d1.keys| => KeyFailure(d1, d2, a, j))
  }

  /** The first element of `fs` from `i` on that is not None. */
  function FirstSome<T>(fs: seq<Option<T>>, i: nat): (r: Option<T>)
    requires i <= |fs|
    decreases |fs| - i
  {
    if i == |fs| then None else if fs[i].Some? then fs[i] else FirstSome(fs, i + 1)
  }

  lemma FirstSomeStep<T>(fs: seq<Option<T>>, i: nat)
    requires i < |fs|
    ensures fs[i].Some? ==> FirstSome(fs, i) == fs[i]
    ensures fs[i].None? ==> FirstSome(fs, i) == FirstSome(fs, i + 1)
  {
  }

  /** `FirstFailure` reads the failures key by key. */
  lemma {:induction false} FirstFailureIs(d1: Value, d2: Value, a: Option<string>, fs: seq<Option<MergeError>>, i: nat)
    requires d1.Dict? && d2.Dict? && WF(d1) && WF(d2) && i <= |d1.keys|
    requires fs == KeyFailures(d1, d2, a)
    ensures FirstFailure(d1, d2, a, i) == FirstSome(fs, i)
    decreases |d1.keys| - i
  {
    if i < |d1.keys| {
      FirstFailureIs(d1, d2, a, fs, i + 1);
    }
  }

  /** What `After1` and `After2` hold for one key of ver1. */
  lemma AfterAt(d1: Value, d2: Value, a: Option<string>, k: string)
    requires d1.Dict? && d2.Dict? && WF(d1) && WF(d2) && k in d1.entries
    ensures k !in d2.entries ==> After1(d1, d2, a)[k] == d1.entries[k] && After2(d1, d2, a)[k] == d1.entries[k]
    ensures k in d2.entries && Merged(d1, d2, a, k).Stepped? ==>
      After1(d1, d2, a)[k] == Merged(d1, d2, a, k).new1 && After2(d1, d2, a)[k] == Merged(d1, d2, a, k).new2
  {
  }

  /** What `After1` and `After2` hold for a key of ver2 only. */
  lemma AfterOthers(d1: Value, d2: Value, a: Option<string>)
    requires d1.Dict? && d2.Dict? && WF(d1) && WF(d2)
    ensures forall k | k in d2.entries && k !in d1.entries ::
      After1(d1, d2, a)[k] == d2.entries[k] && After2(d1, d2, a)[k] == d2.entries[k]
  {
  }

  // The first loop, over maps that stand for the final entries.

  /** The state of the first loop after `i` keys of ver1, none of whose nested
      merges raised: ver1's visited keys hold their final values `t1`, and
      ver2 holds its final values `t2` for them and gained those it lacked. */
  ghost predicate Visited(d1: Value, d2: Value, i: nat, t1: map<string, Value>, t2: map<string, Value>,
                          m1: map<string, Value>, m2: map<string, Value>, keys2: seq<string>)
  {
    && d1.Dict? && d2.Dict?
    && i <= |d1.keys|
    && (forall k | k in d1.keys :: k in t1 && k in t2)
    && m1 == Overwritten(d1.entries, d1.keys, i, t1)
    && m2 == Overwritten(d2.entries, d1.keys, i, t2)
    && keys2 == d2.keys + MissingFrom(d1.keys[..i], d2.entries)
  }

  lemma VisitStart(d1: Value, d2: Value, t1: map<string, Value>, t2: map<string, Value>)
    requires d1.Dict? && d2.Dict? && WF(d1) && WF(d2)
    requires t1.Keys == d1.entries.Keys + d2.entries.Keys
    requires t2.Keys == d1.entries.Keys + d2.entries.Keys
    ensures Visited(d1, d2, 0, t1, t2, d1.entries, d2.entries, d2.keys)
  {
    assert d1.keys[..0] == [];
  }

  /** Before the body runs for the `i`-th key, both dicts still hold their
      original values for it. */
  lemma VisitAt(d1: Value, d2: Value, i: nat, t1: map<string, Value>, t2: map<string, Value>,
                m1: map<string, Value>, m2: map<string, Value>, keys2: seq<string>)
    requires WF(d1) && WF(d2) && Visited(d1, d2, i, t1, t2, m1, m2, keys2) && i < |d1.keys|
    ensures d1.keys[i] in m1 && m1[d1.keys[i]] == d1.entries[d1.keys[i]]
    ensures d1.keys[i] in m2 <==> d1.keys[i] in d2.entries
    ensures d1.keys[i] in m2 ==> m2[d1.keys[i]] == d2.entries[d1.keys[i]]
  {
    var k := d1.keys[i];
    assert k !in d1.keys[..i];
    OverwrittenAt(d1.entries, d1.keys, i, t1, k);
    OverwrittenAt(d2.entries, d1.keys, i, t2, k);
  }

  /** The body for a shared key assigns both dicts their final values. */
  lemma VisitShared(d1: Value, d2: Value, i: nat, t1: map<string, Value>, t2: map<string, Value>,
                    m1: map<string, Value>, m2: map<string, Value>, keys2: seq<string>, n1: Value, n2: Value)
    requires WF(d1) && WF(d2) && Visited(d1, d2, i, t1, t2, m1, m2, keys2) && i < |d1.keys|
    requires d1.keys[i] in d2.entries
    requires t1[d1.keys[i]] == n1 && t2[d1.keys[i]] == n2
    ensures Visited(d1, d2, i + 1, t1, t2, m1[d1.keys[i] := n1], m2[d1.keys[i] := n2], keys2)
  {
    MissingFromStep(d1.keys, i, d2.entries);
  }

  /** The body for a key of ver1 only copies it into ver2. */
  lemma VisitOwn(d1: Value, d2: Value, i: nat, t1: map<string, Value>, t2: map<string, Value>,
                 m1: map<string, Value>, m2: map<string, Value>, keys2: seq<string>)
    requires WF(d1) && WF(d2) && Visited(d1, d2, i, t1, t2, m1, m2, keys2) && i < |d1.keys|
    requires d1.keys[i] !in d2.entries
    requires t1[d1.keys[i]] == d1.entries[d1.keys[i]] && t2[d1.keys[i]] == d1.entries[d1.keys[i]]
    ensures Visited(d1, d2, i + 1, t1, t2, m1, m2[d1.keys[i] := d1.entries[d1.keys[i]]], keys2 + [d1.keys[i]])
  {
    OverwriteSame(d1.entries, d1.keys, i, t1, m1);
    MissingFromStep(d1.keys, i, d2.entries);
  }

  /** After the first loop: ver1 holds its own keys with their final values,
      and ver2 is complete when `t2` leaves ver2's other keys alone. */
  lemma VisitedAll(d1: Value, d2: Value, t1: map<string, Value>, t2: map<string, Value>,
                   m1: map<string, Value>, m2: map<string, Value>, keys2: seq<string>)
    requires WF(d1) && WF(d2) && d1.Dict? && Visited(d1, d2, |d1.keys|, t1, t2, m1, m2, keys2)
    requires t2.Keys == d1.entries.Keys + d2.entries.Keys
    requires forall k | k in d2.entries && k !in d1.entries :: t2[k] == d2.entries[k]
    ensures m2 == t2
    ensures keys2 == d2.keys + MissingFrom(d1.keys, d2.entries)
    ensures DistinctKeys(keys2) && forall k | k in keys2 :: k in m2
    ensures forall k :: k in m1 <==> k in d1.entries
    ensures forall k | k in m1 :: m1[k] == t1[k]
  {
    assert d1.keys[..|d1.keys|] == d1.keys;
    VisitedOwnAll(d1, t1, m1);
    VisitedOtherAll(d1, d2, t2, m2);
    MissingFromMembers(d1.keys, d2.entries);
    DistinctAppend(d2.keys, MissingFrom(d1.keys, d2.entries));
  }

  /** Once every key of ver1 is visited, ver1 holds `t1` on its own keys. */
  lemma VisitedOwnAll(d1: Value, t1: map<string, Value>, m1: map<string, Value>)
    requires d1.Dict? && WF(d1) && forall k | k in d1.keys :: k in t1
    requires m1 == Overwritten(d1.entries, d1.keys, |d1.keys|, t1)
    ensures forall k :: k in m1 <==> k in d1.entries
    ensures forall k | k in m1 :: m1[k] == t1[k]
  {
    assert d1.keys[..|d1.keys|] == d1.keys;
    forall k
      ensures k in m1 <==> k in d1.entries
      ensures k in m1 ==> m1[k] == t1[k]
    {
      OverwrittenAt(d1.entries, d1.keys, |d1.keys|, t1, k);
    }
  }

  /** Once every key of ver1 is visited, ver2 is `t2`. */
  lemma VisitedOtherAll(d1: Value, d2: Value, t2: map<string, Value>, m2: map<string, Value>)
    requires d1.Dict? && d2.Dict? && WF(d1) && forall k | k in d1.keys :: k in t2
    requires t2.Keys == d1.entries.Keys + d2.entries.Keys
    requires forall k | k in d2.entries && k !in d1.entries :: t2[k] == d2.entries[k]
    requires m2 == Overwritten(d2.entries, d1.keys, |d1.keys|, t2)
    ensures m2 == t2
  {
    assert d1.keys[..|d1.keys|] == d1.keys;
    forall k
      ensures k in m2 <==> k in t2
      ensures k in m2 ==> m2[k] == t2[k]
    {
      OverwrittenAt(d2.entries, d1.keys, |d1.keys|, t2, k);
    }
  }

  /** `m` with each of the first `i` keys of `ks` in turn set to its value
      in `target`: a dict after a loop over `ks` has assigned `i` times. */
  ghost function Overwritten(m: map<string, Value>, ks: seq<string>, i: nat, target: map<string, Value>): (r: map<string, Value>)
    requires i <= |ks| && forall k | k in ks :: k in target
  {
    if i == 0 then m
    else Overwritten(m, ks, i - 1, target)[ks[i - 1] := target[ks[i - 1]]]
  }

  /** Assigning a key the value it already holds changes nothing. */
  lemma OverwriteSame(m: map<string, Value>, ks: seq<string>, i: nat, target: map<string, Value>, cur: map<string, Value>)
    requires i < |ks| && DistinctKeys(ks) && (forall k | k in ks :: k in target)
    requires ks[i] in m && target[ks[i]] == m[ks[i]]
    requires cur == Overwritten(m, ks, i, target)
    ensures cur == Overwritten(m, ks, i + 1, target)
  {
    assert ks[i] !in ks[..i];
    OverwrittenAt(m, ks, i, target, ks[i]);
    assert cur == cur[ks[i] := target[ks[i]]];
  }

  /** A key is in the overwritten map iff it was there or was assigned, and
      it holds the target's value iff it was assigned. */
  lemma {:induction false} OverwrittenAt(m: map<string, Value>, ks: seq<string>, i: nat, target: map<string, Value>, k: string)
    requires i <= |ks| && forall k | k in ks :: k in target
    ensures k in Overwritten(m, ks, i, target) <==> k in m || k in ks[..i]
    ensures k in ks[..i] ==> Overwritten(m, ks, i, target)[k] == target[k]
    ensures k in m && k !in ks[..i] ==> Overwritten(m, ks, i, target)[k] == m[k]
  {
    if i > 0 {
      OverwrittenAt(m, ks, i - 1, target, k);
      assert ks[..i] == ks[..i - 1] + [ks[i - 1]];
    }
  }

  /** After the second loop ver1's keys are its own followed by ver2's new ones. */
  lemma KeysAfterCopy(d1: Value, d2: Value, m1: map<string, Value>)
    requires d1.Dict? && d2.Dict? && WF(d1) && WF(d2)
    requires forall k :: k in m1 <==> k in d1.entries
    ensures d1.keys + MissingFrom(d2.keys + MissingFrom(d1.keys, d2.entries), m1)
         == d1.keys + MissingFrom(d2.keys, d1.entries)
  {
    MissingFromSameKeys(d2.keys + MissingFrom(d1.keys, d2.entries), m1, d1.entries);
    MissingFromAppend(d2.keys, MissingFrom(d1.keys, d2.entries), d1.entries);
    MissingFromMembers(d1.keys, d2.entries);
    NothingMissing(MissingFrom(d1.keys, d2.entries), d1.entries);
  }

  /** After the second loop ver1 holds `t1`, when `t1` gives ver1's own keys
      the values they hold and ver2's other keys their values in ver2. */
  lemma CopiedAll(d1: Value, d2: Value, t1: map<string, Value>, m1: map<string, Value>,
                  m2: map<string, Value>, keys2: seq<string>, m1': map<string, Value>)
    requires d1.Dict? && d2.Dict? && WF(d1) && WF(d2)
    requires t1.Keys == d1.entries.Keys + d2.entries.Keys
    requires forall k :: k in m1 <==> k in d1.entries
    requires forall k | k in m1 :: m1[k] == t1[k]
    requires keys2 == d2.keys + MissingFrom(d1.keys, d2.entries)
    requires forall k | k in d2.entries && k !in d1.entries :: k in m2 && m2[k] == t1[k]
    requires forall k :: k in m1' <==> k in m1 || k in keys2
    requires forall k | k in keys2 :: k in m2
    requires forall k | k in m1' :: m1'[k] == if k in m1 then m1[k] else m2[k]
    ensures m1' == t1
  {
    MissingFromMembers(d1.keys, d2.entries);
    assert forall k :: k in m1' <==> k in t1;
  }

  /** `for k in ver2: if k not in ver1: ver1[k] = ver2[k]`. */
  method CopyMissingKeys(keys1: seq<string>, m1: map<string, Value>, keys2: seq<string>, m2: map<string, Value>)
    returns (keys1': seq<string>, m1': map<string, Value>)
    requires DistinctKeys(keys2)
    requires forall k | k in keys2 :: k in m2
    ensures keys1' == keys1 + MissingFrom(keys2, m1)
    ensures forall k :: k in m1' <==> k in m1 || k in keys2
    ensures forall k | k in m1' :: m1'[k] == if k in m1 then m1[k] else m2[k]
  {
    keys1', m1' := keys1, m1;
    var j := 0;
    while j < |keys2|
      invariant 0 <= j <= |keys2|
      invariant keys1' == keys1 + MissingFrom(keys2[..j], m1)
      invariant forall k :: k in m1' <==> k in m1 || k in keys2[..j]
      invariant forall k | k in m1' :: m1'[k] == if k in m1 then m1[k] else m2[k]
    {
      var k := keys2[j];
      PrefixStep(keys2, j);
      MissingFromStep(keys2, j, m1);
      if k !in m1' {
        m1' := m1'[k := m2[k]];
        keys1' := keys1' + [k];
      }
      j := j + 1;
    }
    assert keys2[..j] == keys2;
  }

  lemma NothingMissing(ks: seq<string>, m: map<string, Value>)
    requires forall k | k in ks :: k in m
    ensures MissingFrom(ks, m) == []
  {
    MissingFromMembers(ks, m);
    if MissingFrom(ks, m) != [] {
      assert MissingFrom(ks, m)[0] in MissingFrom(ks, m);
    }
  }

  lemma DistinctAppend(xs: seq<string>, ys: seq<string>)
    requires DistinctKeys(xs) && DistinctKeys(ys)
    requires forall k | k in ys :: k !in xs
    ensures DistinctKeys(xs + ys)
  {
    forall i, j | 0 <= i < j < |xs + ys| ensures (xs + ys)[i] != (xs + ys)[j] {
      if j >= |xs| && i < |xs| {
        assert (xs + ys)[j] in ys;
      }
    }
  }
}

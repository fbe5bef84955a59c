# ArtifactDB structure utilities in Dafny

This project models three helpers from `src/artifactdb/utils/misc.py` of
ArtifactDB and proves properties of them:

- `merge_struct(ver1, ver2, aslistofdict=None)` merges two JSON-like Python
  values (None, bool/int/float/str scalars, lists, str-keyed dicts) in place.
- `flatten_dict(dictionary, sep=".")` turns a nested dict into a one-level
  dict whose keys are the `sep`-joined paths to the leaves.
- `iter_batch(iterable, batch_size)` yields the items of an iterable as
  tuples of at most `batch_size` items.

Files:

- `values.dfy` (module `PyValues`) holds the Python values:
  - `Value` is the value type. A dict is a key order plus a map, so that
    insertion order is kept.
  - `Eq` is Python's `==`, under which `True == 1 == 1.0`.
  - `SetKey` is `d[k] = v`.
  - `WF` says that every dict lists each of its keys exactly once.
- `merge.dfy` (module `MergeStruct`) models `merge_struct` as written:
  - `Merge` is a declarative function. It gives the value returned (always
    None) and both arguments as they are afterwards, or the exception raised.
  - `MergeStruct` is a method that follows the code statement by statement,
    including the two key loops of the dict/dict case. It is proved equal to
    `Merge`.
- `merge_props.dfy` (module `MergeProperties`) holds the properties of
  `Merge`:
  - the append rules;
  - which calls have no effect;
  - the swapped call for a scalar first argument;
  - when the call raises, as an if-and-only-if;
  - key coverage of the dict/dict case;
  - what a shared key holds afterwards.
- `flatten.dfy` (module `FlattenDict`) holds `flatten_dict`:
  - `Flattened` is the result, defined as a fold over the keys.
  - The method `Flatten` has the loop and the recursive call of the source and
    is proved to compute `Flattened`.
  - Lemmas give the keys of the result, last-write-wins on colliding keys,
    leaves kept under their own key, and that no value of the result is a
    dict.
- `batch.dfy` (module `IterBatch`) holds `iter_batch`:
  - `Batches` is what the generator yields, or the ValueError `islice`
    raises for a size that is negative or above `sys.maxsize` (taken as
    2^63 - 1, its value on a 64-bit build).
  - The method `Run` drains the input with the `while True` loop.
  - Lemmas show the yielded chunks partition the input.

Some behaviour of the code as written differs from what a reader of the
docstring might expect. The model follows the code:

- `merge_struct` has a single `return`, which forwards a recursive call, so it
  always returns None.
- For list/list and scalar/scalar, `ver1 = ...` only rebinds a local name, so
  neither argument changes.
- In the dict/dict case, every shared key other than an `aslistofdict` key
  whose wrapped values are equal ends up holding None in `ver1`. It is
  assigned the result of the nested call.
- None as the second argument is not an identity (`NoneSecond`):
  - a list first gains None unless it already holds one;
  - a dict first fails the assertion.
- A scalar first with a non-scalar second recurses with the arguments swapped
  and without `aslistofdict`.

## Model

| member | source | states |
|---|---|---|
| PyValues.IsScalar | src/artifactdb/utils/misc.py:151-152 | `isinstance(v, (float, int, str))`: bool, int, float or str; bool is an int subclass, so every number is a scalar |
| PyValues.Eq | src/artifactdb/utils/misc.py:121 | Python `==` as used by `in` and `!=`: numbers compare by value across bool, int and float; two values that compare equal are both numbers or of the same kind |
| PyValues.EqReflexive | src/artifactdb/utils/misc.py:121 | every modelled value equals itself (there is no NaN) |
| PyValues.EqSymmetric | src/artifactdb/utils/misc.py:140 | `==` is symmetric, so `v1elem != v2elem` does not depend on the order |
| PyValues.Contains | src/artifactdb/utils/misc.py:121 | `x in xs` holds when some element equals `x`; an element of the list itself is always found |
| PyValues.ContainsAppended | src/artifactdb/utils/misc.py:122 | after `append(x)` the list contains `x` |
| PyValues.SetKey | src/artifactdb/utils/misc.py:145 | `d[k] = v` maps `k` to `v` and leaves every other entry unchanged |
| PyValues.SetKeyWF | src/artifactdb/utils/misc.py:145 | assigning a key keeps a dict's key order listing each key exactly once |
| MergeStruct.Wrap | src/artifactdb/utils/misc.py:133-136 | the wrapped value is always a list, and a list is left as it is |
| MergeStruct.Swap | src/artifactdb/utils/misc.py:158 | the outcome of the swapped call seen from the caller: the two arguments trade places, an exception passes through |
| MergeStruct.Merge | src/artifactdb/utils/misc.py:111-162 | every call that does not raise returns None and leaves well-formed values in both arguments |
| MergeStruct.MergeDicts | src/artifactdb/utils/misc.py:126-150 | the dict/dict case returns None and leaves both dicts well-formed: each key listed once |
| MergeStruct.SharedKey | src/artifactdb/utils/misc.py:129-143 | for a shared key, `ver1[k]` afterwards is either None or its old value |
| MergeStruct.FirstFailure | src/artifactdb/utils/misc.py:128-143 | a reported exception is the one raised by a shared key of ver1 from position `i` on, and every shared key before it merged without raising, so it is the exception that ends the loop |
| MergeStruct.After1 | src/artifactdb/utils/misc.py:128-150 | ver1's entries after both loops cover exactly the keys of either dict |
| MergeStruct.After2 | src/artifactdb/utils/misc.py:128-150 | ver2's entries after both loops cover exactly the keys of either dict |
| MergeStruct.Final1 | src/artifactdb/utils/misc.py:141-150 | ver1's final entry for a key: its own value for a key of ver1 only, ver2's value for a key of ver2 only, and None or its old value for a shared key |
| MergeStruct.Final2 | src/artifactdb/utils/misc.py:143-145 | ver2's final entry for a key: ver1's value for a key of ver1 only, its own value for a key of ver2 only |
| MergeStruct.Merged | src/artifactdb/utils/misc.py:129-143 | for the shared key `k` of two dicts, `ver1[k]` afterwards is either None or its old value |
| MergeStruct.MergeStruct | src/artifactdb/utils/misc.py:111-162 | the statement-by-statement method has exactly the outcome `Merge` specifies |
| MergeStruct.MergeDictEntries | src/artifactdb/utils/misc.py:126-150 | the two key loops produce exactly the outcome `MergeDicts` specifies: the first exception of a nested call, or both dicts after the loops |
| MergeStruct.VisitOwnKeys | src/artifactdb/utils/misc.py:128-145 | the loop over a snapshot of ver1's keys stops at the first key whose nested call raises; otherwise every key of ver1 has been merged or copied into ver2 |
| MergeStruct.VisitKey | src/artifactdb/utils/misc.py:129-145 | one round of that loop raises exactly what the key's nested call raises, and otherwise extends the visited state by one key |
| MergeStruct.MergeSharedKey | src/artifactdb/utils/misc.py:129-143 | the loop body for a shared key, with its wrapping, equality test and nested call, takes exactly the step `SharedKey` specifies |
| MergeStruct.CopyMissingKeys | src/artifactdb/utils/misc.py:146-150 | the loop over ver2's keys appends to ver1, in ver2's order, exactly the keys ver1 lacks, with ver2's values; existing entries are untouched |
| MergeProperties.AppendToList | src/artifactdb/utils/misc.py:117-122 | list first, non-list second: ver2 is appended iff no element equals it; ver2 is unchanged and the list holds ver2 afterwards |
| MergeProperties.AppendDictToList | src/artifactdb/utils/misc.py:123-125 | dict first, list second: the dict is appended iff no element equals it; the dict is unchanged and the list holds it afterwards |
| MergeProperties.AppendIdempotent | src/artifactdb/utils/misc.py:117-125 | repeating an appending merge on its own result changes nothing |
| MergeProperties.NoEffect | src/artifactdb/utils/misc.py:117-160 | list/list, scalar/scalar and None first return None and change neither argument |
| MergeProperties.ScalarFirst | src/artifactdb/utils/misc.py:151-158 | a scalar with a non-scalar is the swapped call without `aslistofdict`: appended to a list that lacks it, no effect with None, AssertionError against a dict, TypeError against another object |
| MergeProperties.NoneSecond | src/artifactdb/utils/misc.py:117-162 | None second: a list gains None unless it has one, a dict fails the assertion, a scalar or None is unchanged, another object raises TypeError |
| MergeProperties.DirectErrors | src/artifactdb/utils/misc.py:126-162 | a dict with a value that is neither dict nor list fails the assertion; a first argument of an unknown type raises TypeError |
| MergeProperties.Mergeable | src/artifactdb/utils/misc.py:111-162 | the condition under which no exception is raised: a list or None first, or a dict first with a list second, always merges; when it holds, the first argument is of a known type, a dict first meets a dict or a list, and a scalar first meets neither a dict nor an unknown object |
| MergeProperties.RaisesIff | src/artifactdb/utils/misc.py:111-162 | the call raises iff the arguments are not `Mergeable`; for dicts, this recurses into every shared key except the `aslistofdict` key |
| MergeProperties.FailuresIff | src/artifactdb/utils/misc.py:128-143 | no key of ver1 from position `i` on raises iff each such shared key other than the `aslistofdict` key is mergeable |
| MergeProperties.KeyFailsIff | src/artifactdb/utils/misc.py:129-143 | a shared key raises iff it is not the `aslistofdict` key and its values are not mergeable |
| MergeProperties.DictKeys | src/artifactdb/utils/misc.py:128-150 | after a dict/dict merge both dicts hold the union of the keys; own keys come first, then the other's new keys in the other's order |
| MergeProperties.DictCopiedKeys | src/artifactdb/utils/misc.py:144-150 | a key of only one dict ends up in both dicts with its original value |
| MergeProperties.DictSharedKeys | src/artifactdb/utils/misc.py:129-143 | a shared key: ver1 gets None, except an `aslistofdict` key whose wrapped values are equal keeps its value; ver2 keeps what the nested call without `aslistofdict` leaves, or its value for the `aslistofdict` key |
| MergeProperties.SharedKeyAfter | src/artifactdb/utils/misc.py:129-143 | the same for one shared key `k` |
| MergeProperties.DictsDone | src/artifactdb/utils/misc.py:126-150 | a dict/dict merge that does not raise has no failing key and yields the two key orders with the final entries |
| FlattenDict.Flattened | src/artifactdb/utils/misc.py:165-176 | the result is a dict each of whose listed keys has an entry |
| FlattenDict.FlattenPrefix | src/artifactdb/utils/misc.py:170-175 | the accumulator after any number of rounds is such a dict |
| FlattenDict.AddNested | src/artifactdb/utils/misc.py:172-173 | updating with a flattened nested dict keeps every listed key backed by an entry |
| FlattenDict.UpdateUnder | src/artifactdb/utils/misc.py:173 | the same for a partial update |
| FlattenDict.UpdateUnderAll | src/artifactdb/utils/misc.py:173 | `ret.update` with the prefixed comprehension adds exactly the keys `key + sep + k2`, with `k2`'s value, and keeps every other entry |
| FlattenDict.StepAt | src/artifactdb/utils/misc.py:171-175 | one round of the loop adds or overwrites exactly the keys the current item contributes, with its values |
| FlattenDict.FlattenedKeys | src/artifactdb/utils/misc.py:165-176 | a key is in the result iff some item contributes it: a leaf under its own key, or a nested dict's flattened key behind `key + sep` |
| FlattenDict.LastWins | src/artifactdb/utils/misc.py:170-176 | a key holds the value of the last item in iteration order that contributes it |
| FlattenDict.LeafKept | src/artifactdb/utils/misc.py:174-175 | a value that is not a dict, a list included, stays under its own key unless a later item produces the same key |
| FlattenDict.NestedKept | src/artifactdb/utils/misc.py:172-173 | the entry `k2` of the flattened nested dict under `k` appears under `k + sep + k2` with its value, unless overwritten later |
| FlattenDict.NestedLeaf | src/artifactdb/utils/misc.py:172-173 | `k -> {k2: v}` with `v` not a dict gives `k + sep + k2 -> v`, unless overwritten later |
| FlattenDict.EmptyNested | src/artifactdb/utils/misc.py:172-173 | an empty nested dict contributes no key and leaves the accumulator unchanged |
| FlattenDict.FlattenedFlat | src/artifactdb/utils/misc.py:165-176 | no value of the result is a dict |
| FlattenDict.FlattenedWF | src/artifactdb/utils/misc.py:165-176 | the result lists each of its keys exactly once, and all its values are well-formed |
| FlattenDict.Flatten | src/artifactdb/utils/misc.py:165-176 | the loop with its recursive calls computes `Flattened` |
| FlattenDict.VisitItem | src/artifactdb/utils/misc.py:171-175 | one round of the loop takes the accumulator from `i` items to `i + 1` items |
| FlattenDict.Update | src/artifactdb/utils/misc.py:173 | the `update` loop computes `UpdateUnder` over all of `inner` |
| IterBatch.ValidSize | src/artifactdb/utils/misc.py:105 | the sizes `islice` accepts: None or an int from 0 to `sys.maxsize` |
| IterBatch.Batches | src/artifactdb/utils/misc.py:102-108 | the generator raises iff `batch_size` is neither None nor an int from 0 to `sys.maxsize` |
| IterBatch.Drain | src/artifactdb/utils/misc.py:104-108 | the chunks still to come: none once the iterator is exhausted, and at least one while items remain, unless the size is 0 |
| IterBatch.Chunks | src/artifactdb/utils/misc.py:104-108 | repeated `islice` rounds of size `m` yield no chunk iff nothing is left, and exactly one chunk holding everything when at most `m` items are left |
| IterBatch.ChunksPartition | src/artifactdb/utils/misc.py:104-108 | joining the chunks gives back the input; every chunk is non-empty with at most `m` items, and all but the last have exactly `m` |
| IterBatch.BatchesPartition | src/artifactdb/utils/misc.py:102-108 | for a valid size, the chunks join to the input, are sized as `islice` cuts them, None gives one chunk, and 0 yields nothing |
| IterBatch.DrainStep | src/artifactdb/utils/misc.py:105-108 | one `islice` round: an empty chunk ends the generator, a non-empty one is yielded before the rest |
| IterBatch.Advance | src/artifactdb/utils/misc.py:104-108 | one round of the loop keeps what was yielded plus what is still to come equal to the whole output, and an empty chunk means everything has been yielded |
| IterBatch.Run | src/artifactdb/utils/misc.py:102-108 | the `while True` loop yields exactly `Batches` or raises its error |

## Left out

- Object identity and aliasing are not modelled. Values are trees, so the sharing created when `ver2[k] = ver1[k]` and `ver1[k] = ver2[k]` put the same sub-object in both dicts, or when a dict is appended to a list, is lost. So are in-place edits a nested call makes to a shared sub-object through the other tree.
- The nested call's own edits to `ver1[k]` are not modelled, because `ver1[k]` is overwritten with the call's result right after. Only an alias of that value elsewhere would show them.
- MergeStruct.Merge: when an exception is raised, the model gives only the exception. It does not give the partially merged arguments the code leaves behind.
- Running Python with `-O` removes the assertion on a dict meeting a non-dict. The model always raises AssertionError there.
- Floats are reals: NaN, infinities and rounding are not modelled. Equality is numeric equality across bool, int and float.
- Dict keys are strings only. `flatten_dict` calls `str(newkey)` on nested keys; with str keys that is the identity, and other key types are not modelled.
- Values that are neither None, scalars, lists nor dicts (tuples, sets, other objects) are opaque `Other` values that compare by identity number.
- IterBatch.Run: the iterable is a finite sequence and the chunks are sequences rather than tuples. Laziness, infinite iterables and iterators shared with other code are not modelled.
- IterBatch.Batches: `batch_size` is None or an int. Other types are not modelled: `islice` raises ValueError for them unless they implement `__index__`, and then they behave as that int.
- IterBatch.ValidSize: the bound is `sys.maxsize` of a 64-bit build, 2^63 - 1. A 32-bit build, where it is 2^31 - 1, is not modelled.
- Flattening a dict that is already flat returns an equal dict, and `flatten_dict` is idempotent. Both follow from `FlattenedKeys` and `LastWins`, but are not proved as lemmas of their own.
- The rest of `src/artifactdb/utils/misc.py` is not modelled:
  - `get_class_from_classpath`, `get_class_from_classpath_for_obj`, `get_callable_from_path` and `add_sys_path`: dynamic imports and the global `sys.path`.
  - `get_root_url`: HTTP request headers and `urllib`.
  - `process_coroutine`: the asyncio event loop.
  - `dateparse`: the clock and date-parsing libraries.
  - `random_id`: uuid randomness and object `id()`.
  - `compile_python_file`: file I/O and `exec`.
  - `get_callable_info`: runtime introspection.
- `src/artifactdb/utils/context.py`, `enum.py`, `stages.py` and `__init__.py` are not part of this model. They hold context variables, enum sugar, constants and version lookup.

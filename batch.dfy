/** `iter_batch(iterable, batch_size)`: the items of a finite iterable, in
    order, as tuples of at most `batch_size` items. `Batches` states what the
    generator yields; `Run` drains the input with the loop of the
    source, one `islice` per round. */
module IterBatch {
  import opened PyValues

  /** `islice` refuses a stop outside 0 .. sys.maxsize with ValueError. */
  datatype BatchError = ValueError

  datatype Result<T> = Ok(value: T) | Err(error: BatchError)

  /** `sys.maxsize` on a 64-bit build, the largest stop `islice` accepts. */
  const MaxSize: int := 0x7FFF_FFFF_FFFF_FFFF

  /** A valid `batch_size` for `islice`: None or an int from 0 to
      `sys.maxsize`. */
  predicate ValidSize(n: Option<int>) {
    n.None? || 0 <= n.value <= MaxSize
  }

  /** What the generator yields for the whole input, or the error it raises
      on the first round (even for an empty input). None takes everything at
      once; 0 takes nothing, which ends the generator at once. */
  function Batches<T>(xs: seq<T>, n: Option<int>): (r: Result<seq<seq<T>>>)
    ensures r.Err? <==> !ValidSize(n)
  {
    if !ValidSize(n) then Err(ValueError) else Ok(Drain(xs, n))
  }

  /** The chunks still to come when `ys` is what the iterator has left. */
  function Drain<T>(ys: seq<T>, n: Option<int>): (r: seq<seq<T>>)
    requires ValidSize(n)
    ensures ys == [] ==> r == []
    ensures n != Some(0) && |ys| > 0 ==> |r| > 0
  {
    match n
    case None => if ys == [] then [] else [ys]
    case Some(m) => if m == 0 then [] else Chunks(ys, m)
  }

  /** Repeated `tuple(islice(itr, m))` until a chunk comes back empty. */
  function Chunks<T>(ys: seq<T>, m: nat): (r: seq<seq<T>>)
    requires m > 0
    ensures r == [] <==> ys == []
    ensures 0 < |ys| <= m ==> r == [ys]
    decreases |ys|
  {
    if ys == [] then []
    else
      var t := if |ys| < m then |ys| else m;
      assert t == |ys| ==> ys[..t] == ys && ys[t..] == [];
      [ys[..t]] + Chunks(ys[t..], m)
  }

  /** The chunks joined back together. */
  function Concat<T>(cs: seq<seq<T>>): (r: seq<T>) {
    if cs == [] then [] else cs[0] + Concat(cs[1..])
  }

  /** Every chunk is non-empty, holds at most `m` items, and all but the last
      hold exactly `m`. */
  predicate Sized<T>(cs: seq<seq<T>>, m: nat) {
    forall i | 0 <= i < |cs| :: 0 < |cs[i]| <= m && (i < |cs| - 1 ==> |cs[i]| == m)
  }

  /** Joining the chunks gives back the input, and the chunks are sized as
      `islice` cuts them. */
  lemma {:induction false} ChunksPartition<T>(ys: seq<T>, m: nat)
    requires m > 0
    ensures Concat(Chunks(ys, m)) == ys
    ensures Sized(Chunks(ys, m), m)
    decreases |ys|
  {
    if ys != [] {
      var t := if |ys| < m then |ys| else m;
      ChunksPartition(ys[t..], m);
      var rest := Chunks(ys[t..], m);
      assert ([ys[..t]] + rest)[1..] == rest;
      assert ys[..t] + ys[t..] == ys;
      assert rest == [] ==> t == |ys| by {
        if t < |ys| { assert ys[t..] != []; }
      }
    }
  }

  /** What the generator yields for every valid `batch_size`: joining the
      chunks gives back the input; with a size `m`, each chunk is non-empty,
      holds at most `m` items and all but the last exactly `m`; with None, the
      whole input is one chunk; with 0, nothing is yielded. */
  lemma BatchesPartition<T>(xs: seq<T>, n: Option<int>)
    requires ValidSize(n)
    ensures Batches(xs, n).Ok?
    ensures Concat(Batches(xs, n).value) == if n == Some(0) then [] else xs
    ensures n.Some? && n.value > 0 ==> Sized(Batches(xs, n).value, n.value)
    ensures n.None? ==> Batches(xs, n).value == if xs == [] then [] else [xs]
    ensures n == Some(0) ==> Batches(xs, n).value == []
  {
    if n.Some? && n.value > 0 {
      ChunksPartition(xs, n.value);
    } else if n.None? && xs != [] {
      assert [xs][1..] == [];
      assert xs + [] == xs;
    }
  }

  /** One round of the generator: `islice` takes `take` items from what is
      left, and a non-empty chunk is yielded before the rest. */
  lemma DrainStep<T>(ys: seq<T>, n: Option<int>, take: nat)
    requires ValidSize(n)
    requires take == if n.None? || |ys| < n.value then |ys| else n.value
    ensures take <= |ys|
    ensures take == 0 ==> Drain(ys, n) == []
    ensures take > 0 ==> Drain(ys, n) == [ys[..take]] + Drain(ys[take..], n)
  {
    if take > 0 && n.None? {
      assert ys[take..] == [];
      assert ys[..take] == ys;
    }
  }

  /** The loop's invariant carried over one round that takes `take` items
      from position `pos`. */
  lemma Advance<T>(xs: seq<T>, n: Option<int>, pos: nat, take: nat, yielded: seq<seq<T>>)
    requires ValidSize(n) && pos <= |xs|
    requires take == if n.None? || |xs| - pos < n.value then |xs| - pos else n.value
    requires yielded + Drain(xs[pos..], n) == Drain(xs, n)
    ensures pos + take <= |xs|
    ensures take == 0 ==> yielded == Drain(xs, n)
    ensures take > 0 ==> (yielded + [xs[pos..pos + take]]) + Drain(xs[pos + take..], n) == Drain(xs, n)
  {
    var ys := xs[pos..];
    DrainStep(ys, n, take);
    if take == 0 {
      assert yielded + [] == yielded;
    } else {
      var chunk, rest := ys[..take], ys[take..];
      assert chunk == xs[pos..pos + take];
      assert rest == xs[pos + take..];
      assert (yielded + [chunk]) + Drain(rest, n) == yielded + ([chunk] + Drain(rest, n));
    }
  }

  /** `iter_batch(xs, n)` run to exhaustion: the chunks it yields in order,
      or the ValueError the first `islice` raises. */
  method Run<T>(xs: seq<T>, n: Option<int>) returns (r: Result<seq<seq<T>>>)
    ensures r == Batches(xs, n)
  {
    var yielded: seq<seq<T>> := [];
    var pos := 0;
    while true
      invariant 0 <= pos <= |xs|
      invariant !ValidSize(n) ==> pos == 0
      invariant ValidSize(n) ==> yielded + Drain(xs[pos..], n) == Drain(xs, n)
      decreases |xs| - pos
    {
      if !ValidSize(n) {
        return Err(ValueError);
      }
      var take := if n.None? || |xs| - pos < n.value then |xs| - pos else n.value;
      Advance(xs, n, pos, take, yielded);
      var chunk := xs[pos..pos + take];
      if chunk == [] {
        return Ok(yielded);
      }
      yielded := yielded + [chunk];
      pos := pos + take;
    }
  }
}

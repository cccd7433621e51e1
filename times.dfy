/** The `Times` extension: `n.times(closure)` calls `closure` once for each
    index of the half-open range `0..n`, in ascending order.

    A Rust `FnMut` closure is a function together with the state it captures
    and may mutate. Here a closure is a state transformer `(S, int) -> S`: it
    receives the captured state and the index and yields the new captured
    state. `Times` threads that state through its loop, so the whole
    observable effect of a call is `Repeat(closure, init, n)`, and a closure
    that records its arguments sees exactly `Indices(n)`. */
module Redstone {
  import opened IntWidths

  /** Number of indices in `0..n`: the range is empty unless `0 < n`. */
  function Count(n: int): nat {
    if n <= 0 then 0 else n
  }

  /** The indices `0..n` in iteration order, built from the last step
      backwards, independently of any closed form. There are `Count(n)` of
      them: the closure is called exactly `n` times, and never for `n <= 0`. */
  function Indices(n: int): (r: seq<int>)
    ensures |r| == if n <= 0 then 0 else n
    decreases Count(n)
  {
    if n <= 0 then [] else Indices(n - 1) + [n - 1]
  }

  /** The captured state after `n.times(closure)` starting from `state`:
      the calls with `0, …, n - 2` come first, the call with `n - 1` last. */
  function Repeat<S>(closure: (S, int) -> S, state: S, n: int): S
    decreases Count(n)
  {
    if n <= 0 then state else closure(Repeat(closure, state, n - 1), n - 1)
  }

  /** `n.times(closure)` for a receiver `n` of width `w`. The receiver is an
      in-parameter and so cannot change. */
  method Times<S>(w: Width, n: int, closure: (S, int) -> S, init: S) returns (state: S)
    requires w.Fits(n)
    ensures state == Repeat(closure, init, n)
  {
    state := init;
    var i := 0;
    while i < n
      invariant 0 <= i <= Count(n)
      invariant w.Fits(i)
      invariant state == Repeat(closure, init, i)
    {
      // `i < n <= w.Max()`, so both `i` and `i + 1` are values of the receiver's type
      state := closure(state, i);
      i := i + 1;
    }
  }

  /** The captured state after the closure has been called on each of
      `args`, first to last, starting from `state`. */
  function CallEach<S>(closure: (S, int) -> S, state: S, args: seq<int>): S
    decreases |args|
  {
    if args == [] then state
    else closure(CallEach(closure, state, args[..|args| - 1]), args[|args| - 1])
  }

  /** For every closure, `n.times` is the closure called on the elements of
      `Indices(n)`, in order. */
  lemma {:induction false} RepeatIsCallEach<S>(closure: (S, int) -> S, state: S, n: int)
    ensures Repeat(closure, state, n) == CallEach(closure, state, Indices(n))
    decreases Count(n)
  {
    if n > 0 {
      RepeatIsCallEach(closure, state, n - 1);
      assert Indices(n)[..|Indices(n)| - 1] == Indices(n - 1);
    }
  }

  /** The k-th call (counting from 0) receives `k`. */
  lemma {:induction false} IndicesExact(n: int)
    ensures forall k :: 0 <= k < |Indices(n)| ==> Indices(n)[k] == k
    decreases Count(n)
  {
    if n > 0 {
      IndicesExact(n - 1);
    }
  }

  /** The arguments are strictly ascending. */
  lemma IndicesAscending(n: int)
    ensures forall j, k :: 0 <= j < k < |Indices(n)| ==> Indices(n)[j] < Indices(n)[k]
  {
    IndicesExact(n);
  }

  /** Every argument lies in `[0, n)` and is therefore a value of the
      receiver's own type: no cast and no overflow is involved. */
  lemma {:induction false} IndicesWithin(w: Width, n: int)
    requires w.Fits(n)
    ensures forall x :: x in Indices(n) ==> 0 <= x < n && w.Fits(x)
  {
    IndicesExact(n);
  }

  /** A closure that records its argument: `|i| trace.push(i)`. */
  function Record(trace: seq<int>, i: int): seq<int> {
    trace + [i]
  }

  /** Recording every argument of `n.times` appends exactly `Indices(n)` to
      the trace: the arguments are the range `0..n`, in order, each once. */
  lemma {:induction false} RecordAll(trace: seq<int>, n: int)
    ensures Repeat(Record, trace, n) == trace + Indices(n)
    decreases Count(n)
  {
    if n > 0 {
      RecordAll(trace, n - 1);
    }
  }

  /** The sequence of arguments `n.times` passes to its closure. */
  method CallTrace(w: Width, n: int) returns (trace: seq<int>)
    requires w.Fits(n)
    ensures |trace| == Count(n)
    ensures trace == [] <==> n <= 0
    ensures forall k :: 0 <= k < |trace| ==> trace[k] == k
    ensures forall x :: x in trace ==> w.Fits(x)
  {
    trace := Times(w, n, Record, []);
    RecordAll([], n);
    IndicesExact(n);
    IndicesWithin(w, n);
  }

  /** Two receivers in sequence with one recording closure: the trace is the
      first range followed by the second, so the two calls do not interleave.
      The contract of `Times` does not involve the width, so this holds for
    receivers of any two widths. */
  lemma {:induction false} RecordTwice(a: int, b: int)
    ensures Repeat(Record, Repeat(Record, [], a), b) == Indices(a) + Indices(b)
  {
    RecordAll([], a);
    assert [] + Indices(a) == Indices(a);
    RecordAll(Indices(a), b);
  }
}

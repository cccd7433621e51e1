/** The crate's own test, instantiated for each of the nine widths: a closure
    that captures a counter of the receiver's type, asserts on each call that
    the counter equals the index it receives, and then increments it. */
module RedstoneTests {
  import opened IntWidths
  import opened Redstone

  /** The closure's captured state. A failed `assert_eq!`, or an increment
      past the type's maximum (a panic in a debug build), ends the test. */
  datatype Capture = Running(counter: int) | Panicked

  /** One call of the test closure: `assert_eq!(counter, i); counter += 1;`. */
  function CounterStep(w: Width, c: Capture, i: int): (c': Capture)
    ensures c'.Running? <==> c.Running? && c.counter == i && w.Fits(i + 1)
    ensures c'.Running? ==> c'.counter == i + 1
  {
    match c
    case Panicked => Panicked
    case Running(counter) =>
      if counter != i then Panicked
      else if !w.Fits(counter + 1) then Panicked
      else Running(counter + 1)
  }

  function CounterClosure(w: Width): (Capture, int) -> Capture {
    (c, i) => CounterStep(w, c, i)
  }

  /** Before the call that receives `k` the counter is `k`, so that call's
      `assert_eq!(counter, i)` holds and its increment stays in range; after
      all `n` calls the counter is `n`. */
  lemma {:induction false} CounterBeforeCall(w: Width, n: int, k: int)
    requires w.Fits(n) && 0 <= k <= n
    ensures Repeat(CounterClosure(w), Running(0), k) == Running(k)
    ensures k < n ==> CounterStep(w, Running(k), k) == Running(k + 1)
    decreases k
  {
    if k > 0 {
      CounterBeforeCall(w, n, k - 1);
    }
  }

  /** The test body for a receiver `n` of width `w`: run `n.times` with the
      counter closure, then `assert_eq!(counter, n)`. The final assertion
      holds exactly when `n` is not negative: for a negative receiver of a
      signed type the closure never runs and the counter stays 0. */
  method CounterTest(w: Width, n: int) returns (outcome: Capture, passed: bool)
    requires w.Fits(n)
    ensures outcome == Running(Count(n))
    ensures passed <==> 0 <= n
  {
    outcome := Times(w, n, CounterClosure(w), Running(0));
    if n > 0 {
      CounterBeforeCall(w, n, n);
    }
    passed := outcome.Running? && outcome.counter == n;
  }

  /** The test as written: the receiver is 10, which every width holds. */
  method TimesTest(w: Width) returns (passed: bool)
    ensures passed
  {
    var outcome;
    outcome, passed := CounterTest(w, 10);
  }
}

# redstone `Times` in Dafny

The redstone crate adds one method, `times`, to Rust's primitive integer
types. `n.times(closure)` calls a caller-supplied `FnMut` closure once for
each index of the half-open range `0..n`, in ascending order, and then
returns. One macro stamps out the same body for `i8`, `u8`, `i16`, `u16`,
`i32`, `u32`, `i64`, `u64` and `usize`. The crate's only test runs a closure
that keeps a counter, checks on every call that the counter equals the index
it receives, and checks at the end that the counter equals the receiver.

This project models that behaviour and proves it:

- `widths.dfy` (module `IntWidths`): the nine receiver types as a `Width`
  datatype. Each width is the closed integer range `[Min(), Max()]`, and
  `Fits(x)` says that `x` is a value of the type. `usize` is fixed at 64 bits.
- `times.dfy` (module `Redstone`): the `times` loop and its specification.
  A closure with mutable captured state is modelled as a state transformer
  `(S, int) -> S`. `Times` threads that state through a `while` loop, one
  call per index. It is proved equal to `Repeat(closure, init, n)`, a
  recursive definition in which the call with `n - 1` comes after all the
  calls of `(n - 1).times`. A closure that records its argument (`Record`)
  ends up with exactly `Indices(n)`, the range `0..n` built independently.
  For every closure, `Repeat(closure, init, n)` is the closure applied to
  the elements of `Indices(n)` in order (`RepeatIsCallEach`).
  The lemmas then pin `Indices(n)` down: it has `n` elements, none when
  `n <= 0`; the k-th is `k`; it is strictly ascending; and every element is
  a value of the receiver's own type. So the argument trace is exactly
  `[0, 1, …, n-1]`.
- `times_test.dfy` (module `RedstoneTests`): the crate's counter test. The
  closure's captured state is `Running(counter)` or `Panicked`. A failed
  `assert_eq!` or an overflowing `counter += 1` leads to `Panicked`. The
  proofs show the closure sees `counter == i` on every call and ends with
  `counter == n`.

The loop's contract does not mention the width. The trace therefore depends
only on the numeric value of the receiver, as the nine identical macro
instantiations promise. The width only restricts which receivers exist.

src/lib.rs:44-52 instantiates the body for nine types: four signed, four
unsigned, and `usize`. For a negative receiver of a signed type the range
`0..*self` (src/lib.rs:36) is empty, so the closure never runs. The test's
final `assert_eq!(counter, n)` would then fail, as `CounterTest` shows: it
holds exactly when `n` is not negative.

## Model

| member | source | states |
|---|---|---|
| `IntWidths.Width.Min` | src/lib.rs:44-52 | the smallest value of a width is negative exactly for the signed types and never above zero, so `0` (the start of every range) is a value of every type |
| `IntWidths.Width.Max` | src/lib.rs:44-52 | the largest value of every width is at least 127, so the test's receiver `10` exists in all nine types |
| `IntWidths.Width.Bits` | src/lib.rs:44-52 | each of the nine types is 8, 16, 32 or 64 bits wide, `usize` counted as 64 |
| `IntWidths.Width.Fits` | src/lib.rs:44-52 | `x` is a value of the type; every type holds `0 ..= 127` (so `0` and the test's `10`), and the unsigned types hold no negative value |
| `IntWidths.RangeMatchesBits` | src/lib.rs:44-52 | each width's range is the two's-complement range of its bit count for the signed types and `0 .. 2^bits - 1` for the unsigned ones, with `usize` at 64 bits |
| `Redstone.Indices` | src/lib.rs:36 | the range `0..n` has `n` elements when `n > 0` and none otherwise, so the closure runs exactly `n` times and never for `n <= 0` |
| `Redstone.Times` | src/lib.rs:35-38 | the loop's final captured state is `Repeat(closure, init, n)`: the closure called once with each of `0, …, n-1`, in ascending order, and not at all for `n <= 0`; the receiver is only read, and the result does not depend on the width |
| `Redstone.IndicesExact` | src/lib.rs:36-37 | the k-th call (from 0) receives the value `k` |
| `Redstone.IndicesAscending` | src/lib.rs:36-37 | the arguments are strictly ascending |
| `Redstone.IndicesWithin` | src/lib.rs:35-36 | every argument lies in `[0, n)` and is a value of the receiver's own type, so no cast or overflow is involved |
| `Redstone.RepeatIsCallEach` | src/lib.rs:35-38 | for any closure, the state `Times` ends with is the closure applied to the elements of `Indices(n)`, first to last: every closure receives exactly the arguments `0, …, n-1`, in order |
| `Redstone.RecordAll` | src/lib.rs:35-38 | a closure that records its argument ends with its old trace followed by `Indices(n)`: the arguments are the range `0..n`, in order, each once |
| `Redstone.CallTrace` | src/lib.rs:35-38 | the arguments passed to the closure are exactly `[0, 1, …, n-1]`: `n` of them, none iff `n <= 0`, the k-th equal to `k`, each a value of the receiver's type |
| `Redstone.RecordTwice` | src/lib.rs:35-38 | two `times` calls in sequence with one recording closure leave the first range followed by the second, not interleaved |
| `RedstoneTests.CounterStep` | src/lib.rs:64-67 | one call of the test closure: a mismatched index or an overflowing increment ends in `Panicked`, otherwise the counter goes up by one; a panicked closure stays panicked |
| `RedstoneTests.CounterBeforeCall` | src/lib.rs:62-68 | before the call that receives `k` the counter is `k`, so that call's `assert_eq!(counter, i)` passes and its `counter += 1` does not overflow; after all `n` calls the counter is `n` |
| `RedstoneTests.CounterTest` | src/lib.rs:61-69 | the counter test for any receiver ends with counter `n` (0 for a negative receiver), and its final `assert_eq!(counter, n)` holds exactly when `n >= 0` |
| `RedstoneTests.TimesTest` | src/lib.rs:74-82 | the test with receiver 10 passes for every one of the nine widths |

## Left out

- The `println!` in the documentation example (src/lib.rs:24-26): console output, not part of the behaviour.
- The crate-level lint attributes (src/lib.rs:1-5): compiler configuration without behaviour.
- The macros themselves (src/lib.rs:32-42, 56-72): the loop body and the test body are modelled once, over a `Width` parameter, instead of as nine expansions.
- Closures in general: a closure is modelled as a pure function of its captured state and the index. Panics, I/O and early exits inside arbitrary closures are not modelled. Captured state is threaded by value, so aliasing between captured references is not modelled either.
- The pointer-sized `usize` is fixed at 64 bits; other platform widths are not modelled.
- The test closure's two panics (a failed `assert_eq!` and a debug-build overflow of `counter += 1`) are merged into one `Panicked` state, and the panic message is not modelled.
- The receiver being borrowed as `&self` and left unchanged has no lemma of its own: the receiver is an in-parameter of `Times`, and Dafny parameters cannot be assigned.

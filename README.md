# Deterministic pseudo-clock (`timeless`)

A Dafny model of the deterministic clock in `src/timers/timeless.rs`. It replaces a monotonic
clock when the surrounding solver is built for a deterministic prover environment, so that two runs
produce identical traces. Time is a process-wide `u64` tick counter, `COUNTER`. It starts at 0 and
advances by one on every `Instant::now()`, never with wall-clock progress. One tick stands for one
microsecond.

- `uint64.dfy` (module `UInt64`): the `u64` range, made explicit because Dafny integers are
  unbounded. It also models the three primitives of Rust's `u64` that the clock calls:
  `checked_add`, `checked_sub` and `saturating_sub`.
- `wrappers.dfy` (module `Wrappers`): the `Option` result of every checked operation.
- `timeless.dfy` (module `Timeless`):
  - `Duration` and `Instant` are immutable values, modelled as datatypes with member functions.
  - `DurationCell` is a mutable place holding a duration, for the in-place `+=`.
  - `Clock` is a class whose `counter` field is `COUNTER`. Its ghost `issued` history holds every
    instant `Now` has handed out. `Clock.Valid()` ties that history to `Trace(0, counter)`.
  - `Trace` lists the instants that successive calls of `now()` return. The lemmas about `Trace`
    give monotonicity.

Two choices shape the model:

- A real monotonic clock is safe across threads. Here `now()` does an unsynchronised
  `COUNTER += 1` on a `static mut` inside `unsafe` (src/timers/timeless.rs:78-81). The model is
  therefore single-threaded and claims nothing about concurrent callers.
- Callers normally get an `Instant` from `now()`. But `micros` is a public field
  (src/timers/timeless.rs:71), and `checked_add_duration` builds arbitrary instants. So the model
  allows `Instant(x)` for every `u64` value. This is why `elapsed()` can reach its saturating
  branch.

## Model

| member | source | states |
|---|---|---|
| `UInt64.CheckedAdd` | src/timers/timeless.rs:31 | `u64::checked_add` gives `None` exactly when the sum exceeds `u64::MAX`, otherwise the exact sum |
| `UInt64.CheckedSub` | src/timers/timeless.rs:28 | `u64::checked_sub` gives `None` exactly when the subtrahend is larger, otherwise the exact difference |
| `UInt64.SaturatingSub` | src/timers/timeless.rs:88 | `u64::saturating_sub` gives the exact difference when it is non-negative and 0 otherwise, and never exceeds the minuend |
| `Timeless.Duration.AsMicros` | src/timers/timeless.rs:21-23 | the count read back by `as_micros` rebuilds the same duration through `from_micros` |
| `Timeless.MicrosRoundTrip` | src/timers/timeless.rs:18-23 | `from_micros` and `as_micros` are mutually inverse: `from_micros(n).as_micros() == n` and `from_micros(d.as_micros()) == d` |
| `Timeless.Duration.Zero` | src/timers/timeless.rs:16-26 | `zero()` equals the constant `ZERO` and has 0 microseconds |
| `Timeless.Duration.CheckedSub` | src/timers/timeless.rs:27-29 | `None` exactly when `rhs` is longer than `self`; otherwise the exact difference, never negative or wrapped |
| `Timeless.Duration.CheckedAdd` | src/timers/timeless.rs:30-32 | `None` exactly when the sum exceeds `u64::MAX`; otherwise the exact sum |
| `Timeless.Duration.Add` | src/timers/timeless.rs:41-48 | when the sum fits, the unchecked `+` agrees with `checked_add` |
| `Timeless.Duration.Sub` | src/timers/timeless.rs:50-57 | when `rhs` is not longer, the unchecked `-` agrees with `checked_sub`, and adding `rhs` back restores `self` |
| `Timeless.DurationCell.AddAssign` | src/timers/timeless.rs:59-63 | `+=` replaces the held duration by its sum with `rhs`, which is what `+` and `checked_add` give |
| `Timeless.ZeroIsIdentity` | src/timers/timeless.rs:16-32 | `ZERO` and `zero()` are identities: `d.checked_add(ZERO) == Some(d)` and `d.checked_sub(ZERO) == Some(d)` for every `d` |
| `Timeless.DurationAddSubRoundTrip` | src/timers/timeless.rs:27-32 | `a.checked_add(b) == Some(s)` exactly when `s.checked_sub(b) == Some(a)` |
| `Timeless.OverflowGuard` | src/timers/timeless.rs:30-32 | `from_micros(u64::MAX).checked_add(from_micros(1))` is `None` |
| `Timeless.Instant.CheckedSubInstant` | src/timers/timeless.rs:92-94 | `None` exactly when `other` is later than `self`; otherwise `Some` of the exact tick difference |
| `Timeless.Instant.CheckedAddDuration` | src/timers/timeless.rs:96-100 | `None` exactly on `u64` overflow; otherwise the instant shifted forward by exactly `d` |
| `Timeless.Instant.CheckedSubDuration` | src/timers/timeless.rs:102-106 | `None` exactly when `d` reaches before tick 0; otherwise the instant shifted back by exactly `d` |
| `Timeless.UnderflowGuard` | src/timers/timeless.rs:92-94 | for `a < b`, `a.checked_sub_instant(b)` is `None` and `b.checked_sub_instant(a)` is `Some` |
| `Timeless.InstantDifferenceRoundTrip` | src/timers/timeless.rs:92-100 | `b.checked_sub_instant(a) == Some(d)` exactly when `a <= b` and `a.checked_add_duration(d) == Some(b)` |
| `Timeless.ShiftRoundTrip` | src/timers/timeless.rs:96-106 | shifting forward then back by `d` returns the original instant, and so does back then forward |
| `Timeless.Trace` | src/timers/timeless.rs:75-82 | `n` successive calls of `now()` return exactly `n` instants |
| `Timeless.TraceAt` | src/timers/timeless.rs:75-82 | the `k`-th of successive `now()` calls from counter `start` returns tick `start + k + 1`, so from 0 they return 1, 2, 3, ... |
| `Timeless.TraceSnoc` | src/timers/timeless.rs:78-80 | one more `now()` call extends the sequence of returned instants by exactly the new counter value |
| `Timeless.TraceStrictlyIncreasing` | src/timers/timeless.rs:75-82 | successive `now()` calls return strictly increasing, hence pairwise distinct, instants |
| `Timeless.Clock.constructor` | src/timers/timeless.rs:66 | the counter starts at 0 and no instant has been handed out |
| `Timeless.Clock.Now` | src/timers/timeless.rs:75-82 | the counter rises by exactly one; the returned instant carries the new value and is later than every instant handed out before |
| `Timeless.Clock.Elapsed` | src/timers/timeless.rs:85-90 | advances the counter by exactly one and returns `new counter - since` when `since` is not later, else 0; in the first case shifting `since` by the result gives the fresh instant |
| `Timeless.ElapsedGrows` | src/timers/timeless.rs:85-90 | two successive `elapsed()` calls on one stored instant advance the counter by two; the second result is never smaller than the first, and is strictly larger when the instant is not later than the first call's fresh tick |
| `Timeless.FreshClockScenario` | src/timers/timeless.rs:66-90 | on a fresh counter, three `now()` calls return 1, 2 and 3, and `elapsed()` on the first afterwards measures 3 ticks |

## Left out

- `Duration::as_secs_f64` (src/timers/timeless.rs:34-38) is left out because it converts to floating point.
- `Timeless.Clock.Now`: does not model what happens when `COUNTER += 1` overflows. It requires the
  counter to be below `u64::MAX`, because whether Rust wraps or panics depends on the build profile.
- `Timeless.Clock.Elapsed`: requires the counter to be below `u64::MAX`, for the same reason as `Now`.
- `Timeless.Duration.Add`, `Timeless.Duration.Sub` and `Timeless.DurationCell.AddAssign`: the
  unchecked `+`, `-` and `+=` are modelled only where they cannot overflow or underflow. Their
  `requires` clauses rule out the cases where Rust wraps or panics, depending on the build profile.
- Concurrency: `COUNTER` is a `static mut` mutated without synchronisation. The model owns it in one
  `Clock` object and says nothing about concurrent callers.
- The global nature of `COUNTER` is modelled as an explicitly passed `Clock` object. Uniqueness
  and monotonicity of instants are therefore proved per `Clock`. Nothing in the model prevents a
  second `Clock`, whose ticks would repeat the first one's. The single process-wide `COUNTER`
  rules that out in the source.
- Derived traits (`Hash`, `Debug`, `Default`, `PartialOrd`, `Ord`) add nothing beyond structural
  equality and order on `micros`. Dafny's datatype equality gives the former. Order is stated
  directly on `micros` wherever a contract needs it.
- `src/timers/mod.rs` holds only module declarations, a re-export and the feature gate. The
  real-clock `timers` module that it re-exports is not part of this model.

# timeline — a Dafny model of the segment cursor

The `timeline` package expresses time-windowed and repeating logic against one
externally supplied time sample. Its single type, `Timeline`, is a value
holding a window `[from, to)` and the sample `now`. `New(now)` starts a chain
at 0. `Span` and `LoopN` each check whether `now` falls in a window computed
from `from`. If it does, they hand every callback, in order, a cursor scoped to
that window (with `LoopN`, also the iteration index). Either way they return
the zero-width cursor at the seam after it, so chained calls lay out
back-to-back windows. `Loop` repeats forever, returns nothing and ends a
chain. `Once` runs its callbacks, which take no argument, exactly when
`now == from`, and returns its receiver unchanged. `Elapsed` and `Ratio` are
what a callback reads from its cursor.

The model is pure, as the source is: every Go method has a value receiver, so
no operation changes the cursor it is called on.

- `Timeline` is a datatype. `Span`, `Loop`, `LoopN` and `Once` are its member
  functions.
- Callbacks are opaque handles of a type parameter `F`. An operation returns
  the invocations it performs, in order, as `Call(callback, argument)` values
  (`Step.calls`), together with the cursor it returns (`Step.next`).
- Go's truncating `/` is `GoArith.Quot`. Dafny's own `/` is Euclidean, and the
  two differ when the dividend is negative and not a multiple of the divisor.
- `Ratio` is an exact rational (`real`).
- Time values are unbounded integers.

Files:

- `go_arith.dfy` (module `GoArith`): Go's truncating integer quotient, with its contract and uniqueness.
- `timeline.dfy` (module `Timeline`): the cursor and its operations.
- `timeline_props.dfy` (module `TimelineProps`): window, index and ratio properties, and how `LoopN` relates to `Loop`.
- `chains.dfy` (module `Chains`): chains of spans; with non-negative durations at most one link runs, and, when every link also has callbacks, exactly one runs when the sample is inside the chain. With a negative duration two links can both run.
- `examples_test.dfy` (module `TimelineExamples`): the documented example outputs, stated for every sample in their ranges.

`LoopN`'s doc comment (timeline.go:67) promises callbacks repeated `n` times
at fixed intervals. Its bounds check `0 <= m` is meant to reject samples before
`from`, but truncating division turns a sample less than one period early into
`m = 0`, so the callbacks also run there (see Findings). The model follows the
code.

## Model

| member | source | states |
|---|---|---|
| `Timeline.New` | timeline.go:13-16 | the new cursor has `from == 0`, `to == 0` and keeps `now` |
| `Timeline.Timeline.Elapsed` | timeline.go:18-21 | `from + Elapsed() == now`; it is negative exactly when `now < from` (no clamping) |
| `Timeline.Timeline.Ratio` | timeline.go:28-35 | 0 for a zero-width window; otherwise the unique `r` with `r * (to - from) == now - from` |
| `TimelineProps.RatioInWindow` | timeline.go:28-35 | a cursor whose window holds `now` has ratio in [0, 1) and elapsed time in [0, to - from) |
| `Timeline.InvokeAll` | timeline.go:41-43 | every callback is invoked exactly once, in the given order, with the same argument |
| `Timeline.Timeline.Span` | timeline.go:37-50 | the returned cursor is always `from == to == from + duration` with the same `now`; callbacks run, in order, iff `from <= now < from + duration`, each with the cursor `[from, from + duration)` |
| `TimelineProps.SpanCallProgress` | timeline.go:38-44 | a Span callback's cursor holds `now`, has elapsed time `now - from` below the duration, and has ratio in [0, 1) |
| `Timeline.Timeline.Period` | timeline.go:59-63 | the k-th period has index k, starts at `from + k * duration`, has width `duration` and the same `now` |
| `Timeline.Timeline.Loop` | timeline.go:52-65 | nothing runs when `now < from`; otherwise every callback runs, in order, with a non-negative period index whose aligned window of width `duration` holds `now` |
| `TimelineProps.PeriodIndexUnique` | timeline.go:57-63 | a non-negative period holds `now` iff `now >= from` and its index is the truncated quotient `(now - from) / duration` |
| `TimelineProps.LoopIndexAndElapsed` | timeline.go:57-63 | a Loop callback receives index `(now - from) / duration` and elapsed time `(now - from) mod duration` |
| `Timeline.Timeline.LoopN` | timeline.go:67-85 | the returned cursor is always `from == to == from + n * duration` with the same `now`; callbacks run, in order, iff `0 <= m < n` for the truncated quotient `m`, each with period `m` |
| `TimelineProps.LoopNFiresIff` | timeline.go:69-70 | for `now >= from`, LoopN runs its callbacks iff `now < from + n * duration` |
| `TimelineProps.LoopNAgreesWithLoop` | timeline.go:53-85 | within `[from, from + n * duration)` LoopN makes exactly the invocations Loop makes |
| `TimelineProps.LoopNBeforeStart` | timeline.go:69-78 | for `from - duration < now < from` and `n > 0`, LoopN runs every callback with index 0 and window `[from, from + duration)`, which does not hold `now`, so Elapsed is negative |
| `TimelineProps.LoopNFarBefore` | timeline.go:69-70 | a sample a whole period or more before `from` runs nothing |
| `Timeline.Timeline.PeriodOfNow` | timeline.go:54-63 | for `now >= from` the truncated quotient is a non-negative index whose period holds `now`; it is below `n` iff `now` precedes `from + n * duration` |
| `Timeline.Timeline.Once` | timeline.go:87-100 | returns the receiver unchanged; callbacks run, in order, iff `now == from` |
| `GoArith.Quot` | timeline.go:69 | Go's quotient: the remainder is smaller than the divisor in magnitude and never has the opposite sign of the dividend |
| `GoArith.QuotUnique` | timeline.go:69 | those remainder properties determine the quotient uniquely |
| `GoArith.QuotOfNonNegative` | timeline.go:54-57 | after Loop's `now < from` guard, Go's quotient is the floor quotient and counts the whole periods elapsed |
| `Chains.Spans` | timeline.go:45-49 | a chain of spans ends at the seam `from + sum of durations` with the same `now`, and records one invocation list per link |
| `Chains.SpansFired` | timeline.go:38-49 | link i runs its callbacks, with its own window, iff `now` lies in `[start_i, start_i + duration_i)`, where `start_i` is `from` plus the earlier durations |
| `Chains.AtMostOneFires` | timeline.go:38-49 | with non-negative durations, at most one link of a chain runs |
| `Chains.SomeLinkCovers` | timeline.go:38-49 | with non-negative durations, a sample inside the chain lies in some link's window |
| `Chains.ExactlyOneFires` | timeline.go:38-49 | with non-negative durations and non-empty callback lists, some link runs iff `from <= now < from + total`; no two links run; the link that runs gets the cursor of its own window |
| `Chains.StartsMonotone` | timeline.go:45-49 | with non-negative durations, later links start no earlier than earlier ones |
| `Timeline.Timeline.LoopNGuarded` | timeline.go:69-78 | corrected LoopN: callbacks run iff `from <= now < from + n * duration`, each with a period that holds `now`; same seam as LoopN |
| `TimelineProps.LoopNGuardedAgrees` | timeline.go:69-78 | the corrected LoopN equals LoopN for `now >= from` and runs nothing before `from` |
| `TimelineProps.SpanThenLoopNGuardedExclusive` | timeline.go:38-49 | a span and a corrected LoopN chained after it never both run |
| `TimelineExamples.ExampleSpans` | example_test.go:14-21 | `Span(3).Span(3)` for t in 0..7: the first runs for t in {0,1,2}, the second for {3,4,5}, with elapsed 0..2 |
| `TimelineExamples.ExampleLoopN` | example_test.go:26-30 | `LoopN(4, 2)` for t in 0..9: index t/4, elapsed t mod 4, ratio (t mod 4)/4; nothing for t = 8, 9; seam at 8 |
| `TimelineExamples.ExampleLoop` | example_test.go:35-39 | `Loop(3)` for t in 0..7: index t/3, elapsed t mod 3 |
| `TimelineExamples.ExampleRatio` | example_test.go:70-83 | `Span(5).Span(10)` for t in 0..14: ratios t/5, then (t-5)/10 |
| `TimelineExamples.ExampleNestedLoop` | example_test.go:88-98 | for t in 0..11 the outer span [0, 6) runs iff t < 6, and there an inner `Loop(3)` reports index t/3 and elapsed t mod 3 |
| `TimelineExamples.ExampleNestedSpans` | example_test.go:100-113 | for t in 0..11 the outer span [6, 12) runs iff t >= 6, and there three inner spans of 2 run in turn with ratio 0 or 0.5 |
| `TimelineExamples.ExampleOnce` | timeline.go:93-100 | `New(t).Once(s)` runs s once at t = 0 and never otherwise |
| `TimelineExamples.SpanThenLoopNBothRun` | timeline.go:69-78 | at now = 2, `Span(3)` and the `LoopN(4, 2)` chained after it both run; the loop callback gets index 0 and Elapsed -1 |

## Findings

| source | as written | input that shows it | evidently intended | confidence | as-written member | corrected member |
|---|---|---|---|---|---|---|
| timeline.go:69-70 | `m := (now - from) / duration` truncates toward zero, so `0 <= m` admits `m = 0` when `now` is less than one period before `from` | `New(2).Span(3, A).LoopN(4, 2, B)`: A runs, and so does B, with index 0 and Elapsed -1 | as in `Loop`, nothing runs while `now < from`, so chained links stay exclusive | medium, not executed | `TimelineExamples.SpanThenLoopNBothRun` | `Timeline.Timeline.LoopNGuarded` |

`Timeline.Timeline.LoopN` itself is kept as written, because callers get that
behaviour. `TimelineProps.LoopNBeforeStart` states it for every input.
`LoopNGuarded` is the corrected definition. `TimelineProps.LoopNGuardedAgrees`
shows it differs from `LoopN` only before `from`, and
`TimelineProps.SpanThenLoopNGuardedExclusive` proves that it restores
exclusivity in chains.

## Left out

- `ElapsedF` (timeline.go:23-26): float64 conversion, not modelled.
- `Timeline.Timeline.Ratio`: exact rational instead of float64 division. The model has no rounding, so it does not reproduce the printed decimal forms exactly.
- Fixed-width overflow of the time type `T` and the `int(n)` / `T(n)` conversions (timeline.go:59, 70, 81): all values are unbounded integers. The `ng.Int` constraint comes from the `github.com/eihigh/ng` package, which is not part of this model.
- `Timeline.Timeline.Loop`, `Timeline.Timeline.LoopN`: require `duration > 0`, so the model says nothing about a zero or negative duration. With a zero duration Go's `Loop` panics with an integer division by zero only when `now >= from`; for `now < from` its guard (timeline.go:54-56) returns first and nothing happens, a case the requires also excludes. `LoopN` has no guard (timeline.go:69) and always panics on a zero duration. A negative duration gives meaningless indices.
- What the callbacks do, including printing and the nested chains inside them. Callbacks are opaque handles; the nested example is checked only as the invocations it produces.
- Chains mixing `LoopN` or `Once` with spans: `Chains` covers chains of `Span` only. `Once` runs at the seam, where the following span also starts, so it is not exclusive with that span by design.

/**
  The segment cursor of the `timeline` package.

  A `Timeline` is a value holding a half-open window `[from, to)` on an
  integer time axis and a fixed sample point `now`. `Span`, `Loop` and
  `LoopN` compute a window from `from` and a duration and, when `now` falls in
  it, hand every caller-supplied callback, in order, a cursor scoped to that
  window; `Span` and `LoopN` return the zero-width cursor at the seam right
  after it. `Once` runs argument-less callbacks when `now == from` and returns
  its receiver.

  Callbacks are opaque: a callback is a handle of the type parameter `F`, and
  an operation reports the invocations it performs as a sequence of
  `Call(callback, argument)` values, in the order they happen.
 */
module Timeline {
  import opened GoArith

  /** One invocation of a caller-supplied callback with its argument. */
  datatype Call<F, A> = Call(callback: F, arg: A)

  /** The `(n int, tl Timeline)` pair handed to a `Loop` or `LoopN` callback:
      the iteration index and the cursor scoped to that iteration. */
  datatype Indexed = Indexed(index: int, window: Timeline)

  /** The outcome of a chainable operation: the cursor it returns and the
      callbacks it invoked, in order. */
  datatype Step<F, A> = Step(next: Timeline, calls: seq<Call<F, A>>)

  /** Invokes every callback of `f`, in order, with the same argument. */
  function InvokeAll<F, A>(f: seq<F>, arg: A): (r: seq<Call<F, A>>)
    ensures |r| == |f|
    ensures forall i :: 0 <= i < |r| ==> r[i] == Call(f[i], arg)
  {
    if f == [] then [] else [Call(f[0], arg)] + InvokeAll(f[1..], arg)
  }

  /** A timeline starting at 0 with the given current time. */
  function New(now: int): (t: Timeline)
    ensures t.from == 0 && t.to == 0 && t.now == now
  {
    Timeline(0, 0, now)
  }

  datatype Timeline = Timeline(from: int, to: int, now: int) {

    /** Half-open window membership of the sample: `from <= now < to`. */
    predicate Contains() {
      from <= now < to
    }

    /** Time passed since the start of the window; negative, not clamped,
        when `now` precedes `from`. */
    function Elapsed(): (e: int)
      ensures from + e == now
      ensures e < 0 <==> now < from
    {
      now - from
    }

    /** Progress through the window, as an exact rational; 0 for a
        zero-width window instead of a division by zero. */
    function Ratio(): (r: real)
      ensures to == from ==> r == 0.0
      ensures to != from ==> r * (to - from) as real == (now - from) as real
    {
      var denom := to - from;
      if denom == 0 then 0.0 else (now - from) as real / denom as real
    }

    /** The `k`-th period of length `duration` counted from `from`, as the
        argument a `Loop` or `LoopN` callback receives. */
    function Period(k: int, duration: int): (p: Indexed)
      ensures p.index == k && p.window.now == now
      ensures p.window.from == from + k * duration
      ensures p.window.to - p.window.from == duration
    {
      Indexed(k, Timeline(from + k * duration, from + (k + 1) * duration, now))
    }

    /** A time segment `[from, from + duration)`: its callbacks run when `now`
        is inside it, and the returned cursor is the zero-width seam at its
        end, whether or not they ran. */
    function Span<F>(duration: int, f: seq<F>): (r: Step<F, Timeline>)
      ensures r.next == Timeline(from + duration, from + duration, now)
      ensures |r.calls| == (if from <= now < from + duration then |f| else 0)
      ensures forall i :: 0 <= i < |r.calls| ==>
                r.calls[i] == Call(f[i], Timeline(from, from + duration, now))
    {
      var window := Timeline(from, from + duration, now);
      var calls := if window.Contains() then InvokeAll(f, window) else [];
      Step(Timeline(window.to, window.to, now), calls)
    }

    /** Repeats the callbacks forever with period `duration` starting at
        `from`: nothing runs before `from`; otherwise each callback receives
        the index of the period holding `now` and that period's window. */
    function Loop<F>(duration: int, f: seq<F>): (calls: seq<Call<F, Indexed>>)
      requires duration > 0
      ensures |calls| == (if now < from then 0 else |f|)
      ensures forall i :: 0 <= i < |calls| ==>
                calls[i].callback == f[i] && IsPeriodOfNow(calls[i].arg, duration)
    {
      if now < from then []
      else
        var n := Quot(now - from, duration);
        QuotOfNonNegative(now - from, duration);
        PeriodContains(n, duration);
        InvokeAll(f, Period(n, duration))
    }

    /** `p` is a non-negative period of length `duration`, aligned on `from`,
        whose window contains `now`. */
    predicate IsPeriodOfNow(p: Indexed, duration: int) {
      && p.index >= 0
      && p == Period(p.index, duration)
      && p.window.Contains()
    }

    /** Repeats the callbacks `n` times with period `duration`: they run when
        the truncated quotient `m = (now - from) / duration` satisfies
        `0 <= m < n`, and the returned cursor is the seam after all `n`
        periods. There is no `now < from` guard, so truncation lets a sample
        less than one period before `from` run the callbacks with `m = 0`. */
    function LoopN<F>(duration: int, n: int, f: seq<F>): (r: Step<F, Indexed>)
      requires duration > 0
      ensures r.next == Timeline(from + n * duration, from + n * duration, now)
      ensures |r.calls| == (if 0 <= Quot(now - from, duration) < n then |f| else 0)
      ensures forall i :: 0 <= i < |r.calls| ==>
                r.calls[i] == Call(f[i], Period(Quot(now - from, duration), duration))
    {
      var m := Quot(now - from, duration);
      var calls := if 0 <= m && m < n then InvokeAll(f, Period(m, duration)) else [];
      var seam := from + n * duration;
      Step(Timeline(seam, seam, now), calls)
    }

    /** Runs the callbacks exactly when `now == from` and returns the cursor
        unchanged. */
    function Once<F>(f: seq<F>): (r: Step<F, ()>)
      ensures r.next == this
      ensures |r.calls| == (if now == from then |f| else 0)
      ensures forall i :: 0 <= i < |r.calls| ==> r.calls[i].callback == f[i]
    {
      Step(this, if now == from then InvokeAll(f, ()) else [])
    }

    /** `LoopN` with the `now < from` guard that `Loop` has: the corrected
        definition, under which callbacks never run before the first
        period starts. */
    function LoopNGuarded<F>(duration: int, n: int, f: seq<F>): (r: Step<F, Indexed>)
      requires duration > 0
      ensures r.next == Timeline(from + n * duration, from + n * duration, now)
      ensures |r.calls| == (if from <= now < from + n * duration then |f| else 0)
      ensures forall i :: 0 <= i < |r.calls| ==>
                r.calls[i].callback == f[i] && IsPeriodOfNow(r.calls[i].arg, duration)
    {
      var seam := from + n * duration;
      if now < from then Step(Timeline(seam, seam, now), [])
      else
        var m := Quot(now - from, duration);
        PeriodOfNow(n, duration);
        var calls := if 0 <= m && m < n then InvokeAll(f, Period(m, duration)) else [];
        Step(Timeline(seam, seam, now), calls)
    }

    /** For `now >= from` the truncated quotient names a period that
        contains `now`, and it is below `n` exactly when `now` precedes the
        seam `from + n * duration`. */
    lemma PeriodOfNow(n: int, duration: int)
      requires duration > 0 && now >= from
      ensures var m := Quot(now - from, duration);
        && m >= 0
        && Period(m, duration).window.Contains()
        && (m < n <==> now < from + n * duration)
    {
      var m := Quot(now - from, duration);
      QuotOfNonNegative(now - from, duration);
      PeriodContains(m, duration);
      PeriodBelowCount(m, n, duration);
    }

    /** The period at the floor quotient of `now - from` contains `now`. */
    lemma PeriodContains(k: int, duration: int)
      requires duration > 0
      requires 0 <= k * duration <= now - from < k * duration + duration
      ensures Period(k, duration).window.Contains()
    {
      assert (k + 1) * duration == k * duration + duration;
    }

    /** For `now >= from`, the period index of `now` is below `n` exactly
        when `now` lies before the seam `from + n * duration`. */
    lemma PeriodBelowCount(k: int, n: int, duration: int)
      requires duration > 0
      requires 0 <= k * duration <= now - from < k * duration + duration
      ensures k < n <==> now < from + n * duration
    {
      if k < n {
        assert k + 1 <= n;
        MonotoneScale(k + 1, n, duration);
        assert (k + 1) * duration == k * duration + duration;
      } else {
        MonotoneScale(n, k, duration);
      }
    }
  }

  /** Scaling by a positive factor preserves order. */
  lemma MonotoneScale(a: int, b: int, d: int)
    requires a <= b && d > 0
    ensures a * d <= b * d
  {
    assert b * d - a * d == (b - a) * d;
  }
}

/**
  Properties of the `Timeline` operations: what a callback may rely on about
  the cursor it receives, how the period index of `Loop` and `LoopN` relates
  to the sample, and where `LoopN` departs from `Loop`.
 */
module TimelineProps {
  import opened GoArith
  import opened Timeline

  /** Inside its own window a cursor's progress lies in [0, 1). */
  lemma RatioInWindow(t: Timeline)
    requires t.Contains()
    ensures 0.0 <= t.Ratio() < 1.0
    ensures 0 <= t.Elapsed() < t.to - t.from
  {
    var e, d := (t.now - t.from) as real, (t.to - t.from) as real;
    assert 0.0 <= e < d;
    assert t.Ratio() == e / d;
    assert e / d < 1.0 by {
      assert e / d * d == e;
    }
  }

  /** Every cursor a `Span` callback receives is the span's window, holds the
      sample, and has an elapsed time below the duration and a ratio in
      [0, 1). */
  lemma SpanCallProgress<F>(t: Timeline, duration: int, f: seq<F>, i: int)
    requires 0 <= i < |t.Span(duration, f).calls|
    ensures var w := t.Span(duration, f).calls[i].arg;
      && w.from == t.from && w.to == t.from + duration && w.now == t.now
      && w.Contains()
      && 0 <= w.Elapsed() == t.now - t.from < duration
      && 0.0 <= w.Ratio() < 1.0
  {
    RatioInWindow(t.Span(duration, f).calls[i].arg);
  }

  /** A non-negative period index `k` whose window holds the sample is the
      truncated quotient of the elapsed time by the period, and conversely. */
  lemma PeriodIndexUnique(t: Timeline, duration: int, k: int)
    requires duration > 0
    ensures k >= 0 && t.Period(k, duration).window.Contains() <==>
              t.now >= t.from && k == Quot(t.now - t.from, duration)
  {
    var a := t.now - t.from;
    var w := t.Period(k, duration).window;
    assert (k + 1) * duration == k * duration + duration;
    if k >= 0 && w.Contains() {
      MonotoneScale(0, k, duration);
      QuotUnique(a, duration, k);
    } else if a >= 0 && k == Quot(a, duration) {
      t.PeriodOfNow(0, duration);
      assert false;
    }
  }

  /** What `Loop` hands its callbacks, in the terms of the package's examples:
      iteration index `(now - from) / duration` and elapsed time
      `(now - from) mod duration` within that iteration. */
  lemma LoopIndexAndElapsed<F>(t: Timeline, duration: int, f: seq<F>, i: int)
    requires duration > 0
    requires 0 <= i < |t.Loop(duration, f)|
    ensures var p := t.Loop(duration, f)[i].arg;
      && p.index == (t.now - t.from) / duration
      && p.window.Elapsed() == (t.now - t.from) % duration
  {
    var a := t.now - t.from;
    var p := t.Loop(duration, f)[i].arg;
    PeriodIndexUnique(t, duration, p.index);
    QuotOfNonNegative(a, duration);
    assert p.window.Elapsed() == a - p.index * duration;
    assert a == duration * (a / duration) + a % duration;
  }

  /** For a sample at or after `from`, `LoopN` runs its callbacks exactly
      when the sample lies before the seam `from + n * duration`. */
  lemma LoopNFiresIff<F>(t: Timeline, duration: int, n: int, f: seq<F>)
    requires duration > 0 && t.now >= t.from
    ensures |t.LoopN(duration, n, f).calls| ==
              (if t.now < t.from + n * duration then |f| else 0)
  {
    t.PeriodOfNow(n, duration);
  }

  /** Within its `n` periods `LoopN` does exactly what `Loop` does. */
  lemma LoopNAgreesWithLoop<F>(t: Timeline, duration: int, n: int, f: seq<F>)
    requires duration > 0
    requires t.from <= t.now < t.from + n * duration
    ensures t.LoopN(duration, n, f).calls == t.Loop(duration, f)
  {
    var m := Quot(t.now - t.from, duration);
    t.PeriodOfNow(n, duration);
    var loop, loopN := t.Loop(duration, f), t.LoopN(duration, n, f).calls;
    forall i | 0 <= i < |f|
      ensures loopN[i] == loop[i]
    {
      PeriodIndexUnique(t, duration, loop[i].arg.index);
    }
  }

  /** `LoopN` as written: a sample less than one period before `from` runs
      every callback with index 0 and the first period's window, which does
      not contain the sample and has a negative elapsed time. */
  lemma LoopNBeforeStart<F>(t: Timeline, duration: int, n: int, f: seq<F>)
    requires duration > 0 && n > 0
    requires t.from - duration < t.now < t.from
    ensures |t.LoopN(duration, n, f).calls| == |f|
    ensures forall i :: 0 <= i < |f| ==>
              var p := t.LoopN(duration, n, f).calls[i].arg;
              && p.index == 0
              && p.window == Timeline(t.from, t.from + duration, t.now)
              && !p.window.Contains()
              && p.window.Elapsed() < 0
  {
    var a := t.now - t.from;
    assert Quot(a, duration) == 0 by {
      QuotUnique(a, duration, 0);
    }
  }

  /** A sample a whole period or more before `from` runs nothing in `LoopN`. */
  lemma LoopNFarBefore<F>(t: Timeline, duration: int, n: int, f: seq<F>)
    requires duration > 0
    requires t.now <= t.from - duration
    ensures t.LoopN(duration, n, f).calls == []
  {
    var a := t.now - t.from;
    var q := Quot(a, duration);
    assert q < 0 by {
      if q >= 0 {
        MonotoneScale(0, q, duration);
      }
    }
  }

  /** The corrected `LoopNGuarded` coincides with `LoopN` from `from` on and
      runs nothing before it. */
  lemma LoopNGuardedAgrees<F>(t: Timeline, duration: int, n: int, f: seq<F>)
    requires duration > 0
    ensures t.now >= t.from ==> t.LoopNGuarded(duration, n, f) == t.LoopN(duration, n, f)
    ensures t.now < t.from ==> t.LoopNGuarded(duration, n, f).calls == []
  {
    if t.now >= t.from {
      t.PeriodOfNow(n, duration);
      LoopNAgreesAt(t, duration, n, f);
    }
  }

  /** Helper: from `from` on, the guarded and unguarded `LoopN` invoke the
      same callbacks with the same arguments. */
  lemma LoopNAgreesAt<F>(t: Timeline, duration: int, n: int, f: seq<F>)
    requires duration > 0 && t.now >= t.from
    ensures t.LoopNGuarded(duration, n, f).calls == t.LoopN(duration, n, f).calls
  {
    var g, u := t.LoopNGuarded(duration, n, f).calls, t.LoopN(duration, n, f).calls;
    t.PeriodOfNow(n, duration);
    forall i | 0 <= i < |g|
      ensures g[i] == u[i]
    {
      PeriodIndexUnique(t, duration, g[i].arg.index);
    }
  }

  /** With the corrected `LoopNGuarded`, a span and the loop chained after it
      never both run for one sample. */
  lemma SpanThenLoopNGuardedExclusive<F>(t: Timeline, d: int, f: seq<F>,
                                         period: int, n: int, g: seq<F>)
    requires period > 0
    ensures t.Span(d, f).calls == [] ||
            t.Span(d, f).next.LoopNGuarded(period, n, g).calls == []
  {
  }
}

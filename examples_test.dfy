/**
  The scenarios of the package's documented examples, stated for every sample
  of their ranges, plus the chain that shows `LoopN` running early.
  Callbacks are named by characters.
 */
module TimelineExamples {
  import opened Timeline
  import opened TimelineProps

  /** `New(t).Span(3, A).Span(3, B)` for t in 0..7: A runs for t in {0, 1, 2}
      and B for t in {3, 4, 5}, each with elapsed time 0, 1, 2. */
  lemma ExampleSpans(t: int)
    requires 0 <= t < 8
    ensures var first := New(t).Span(3, ['A']);
      var second := first.next.Span(3, ['B']);
      && (first.calls != [] <==> t < 3)
      && (second.calls != [] <==> 3 <= t < 6)
      && (t < 3 ==> first.calls[0].callback == 'A' && first.calls[0].arg.Elapsed() == t)
      && (3 <= t < 6 ==> second.calls[0].callback == 'B' && second.calls[0].arg.Elapsed() == t - 3)
  {
  }

  /** `New(t).LoopN(4, 2, C)` for t in 0..9: iterations 0 and 1, elapsed time
      `t mod 4`, ratio a quarter of it; nothing for t = 8, 9. */
  lemma ExampleLoopN(t: int)
    requires 0 <= t < 10
    ensures var r := New(t).LoopN(4, 2, ['C']);
      && (r.calls != [] <==> t < 8)
      && (t < 8 ==> && r.calls[0].arg.index == t / 4
                    && r.calls[0].arg.window.Elapsed() == t % 4
                    && r.calls[0].arg.window.Ratio() == (t % 4) as real / 4.0)
      && r.next.from == 8
  {
    var r := New(t).LoopN(4, 2, ['C']);
    LoopNFiresIff(New(t), 4, 2, ['C']);
    if t < 8 {
      LoopNAgreesWithLoop(New(t), 4, 2, ['C']);
      LoopIndexAndElapsed(New(t), 4, ['C'], 0);
      var w := r.calls[0].arg.window;
      assert w.to - w.from == 4;
      assert w.now - w.from == t % 4;
      RatioOf(w, (t % 4) as real / 4.0);
    }
  }

  /** `New(t).Loop(3, C)` for t in 0..7: iteration `t / 3`, elapsed time
      `t mod 3`. */
  lemma ExampleLoop(t: int)
    requires 0 <= t < 8
    ensures var calls := New(t).Loop(3, ['C']);
      && |calls| == 1
      && calls[0].arg.index == t / 3
      && calls[0].arg.window.Elapsed() == t % 3
  {
    LoopIndexAndElapsed(New(t), 3, ['C'], 0);
  }

  /** `New(t).Span(5, A).Span(10, B)` for t in 0..14 reports the ratios
      0, .2, .4, .6, .8 and then 0, .1, ..., .9. */
  lemma ExampleRatio(t: int)
    requires 0 <= t < 15
    ensures var first := New(t).Span(5, ['A']);
      var second := first.next.Span(10, ['B']);
      && (t < 5 ==> RunsOnceWithRatio(first, t as real / 5.0) && second.calls == [])
      && (5 <= t ==> first.calls == [] && RunsOnceWithRatio(second, (t - 5) as real / 10.0))
  {
    var first := New(t).Span(5, ['A']);
    assert first.next == Timeline(5, 5, t);
    var second := Timeline(5, 5, t).Span(10, ['B']);
    if t < 5 {
      assert |first.calls| == 1 && first.calls[0].arg == Timeline(0, 5, t);
      RatioOf(Timeline(0, 5, t), t as real / 5.0);
      assert second.calls == [];
    } else {
      assert first.calls == [];
      assert |second.calls| == 1 && second.calls[0].arg == Timeline(5, 15, t);
      RatioOf(Timeline(5, 15, t), (t - 5) as real / 10.0);
    }
  }

  /** A span ran its single callback, whose cursor reports ratio `x`. */
  predicate RunsOnceWithRatio<F>(s: Step<F, Timeline>, x: real) {
    |s.calls| == 1 && s.calls[0].arg.Ratio() == x
  }

  /** The nested example, first half: for t in 0..11 the outer span [0, 6)
      runs exactly for t in 0..5, and there an inner `Loop(3)` on its cursor
      reports iteration `t / 3` and elapsed time `t mod 3`. */
  lemma ExampleNestedLoop(t: int)
    requires 0 <= t < 12
    ensures var outer := New(t).Span(6, ['O']);
      && (outer.calls != [] <==> t < 6)
      && (t < 6 ==> && |outer.calls| == 1
                    && var inner := outer.calls[0].arg.Loop(3, ['L']);
                    && |inner| == 1 && inner[0].arg.index == t / 3
                    && inner[0].arg.window.Elapsed() == t % 3)
  {
    if t < 6 {
      var w := New(t).Span(6, ['O']).calls[0].arg;
      assert w == Timeline(0, 6, t);
      LoopIndexAndElapsed(w, 3, ['L'], 0);
    }
  }

  /** The nested example, second half: for t in 0..11 the outer span
      [6, 12) runs exactly for t in 6..11, and there three inner spans of 2 on
      its cursor run in turn with ratio 0 or 0.5. */
  lemma ExampleNestedSpans(t: int)
    requires 0 <= t < 12
    ensures var outer := New(t).Span(6, ['O']).next.Span(6, ['P']);
      && (outer.calls != [] <==> 6 <= t)
      && (6 <= t ==> |outer.calls| == 1 && InnerSpansRun(outer.calls[0].arg, t))
  {
    var first := New(t).Span(6, ['O']);
    assert first.next == Timeline(6, 6, t);
    if 6 <= t {
      var w := first.next.Span(6, ['P']).calls[0].arg;
      assert w == Timeline(6, 12, t);
      InnerSpans(t);
    }
  }

  /** What the three inner spans of 2 do on the cursor `w` at sample `t`. */
  predicate InnerSpansRun(w: Timeline, t: int) {
    var a := w.Span(2, ['A']);
    var b := a.next.Span(2, ['B']);
    var c := b.next.Span(2, ['C']);
    && (a.calls != [] <==> t < 8)
    && (b.calls != [] <==> 8 <= t < 10)
    && (c.calls != [] <==> 10 <= t)
    && (t < 8 ==> a.calls[0].arg.Ratio() == (t - 6) as real / 2.0)
    && (8 <= t < 10 ==> b.calls[0].arg.Ratio() == (t - 8) as real / 2.0)
    && (10 <= t ==> c.calls[0].arg.Ratio() == (t - 10) as real / 2.0)
  }

  lemma InnerSpans(t: int)
    requires 6 <= t < 12
    ensures InnerSpansRun(Timeline(6, 12, t), t)
  {
    var a := Timeline(6, 12, t).Span(2, ['A']);
    var b := a.next.Span(2, ['B']);
    var c := b.next.Span(2, ['C']);
    assert a.next == Timeline(8, 8, t) && b.next == Timeline(10, 10, t);
    if t < 8 {
      assert a.calls[0].arg == Timeline(6, 8, t);
      RatioOf(Timeline(6, 8, t), (t - 6) as real / 2.0);
    } else if t < 10 {
      assert b.calls[0].arg == Timeline(8, 10, t);
      RatioOf(Timeline(8, 10, t), (t - 8) as real / 2.0);
    } else {
      assert c.calls[0].arg == Timeline(10, 12, t);
      RatioOf(Timeline(10, 12, t), (t - 10) as real / 2.0);
    }
  }

  /** A ratio is determined by its defining equation on a window of
      non-zero width. */
  lemma RatioOf(w: Timeline, x: real)
    requires w.to != w.from
    requires x * (w.to - w.from) as real == (w.now - w.from) as real
    ensures w.Ratio() == x
  {
  }

  /** `Once` runs its callbacks at t = 0 only. */
  lemma ExampleOnce(t: int)
    ensures |New(t).Once(['S']).calls| == (if t == 0 then 1 else 0)
  {
  }

  /** As written, `New(2).Span(3, A).LoopN(4, 2, B)` runs both A, for the
      sample inside [0, 3), and B, with iteration 0 of the loop that starts
      at 3 and elapsed time -1: the two links of the chain are not exclusive. */
  lemma SpanThenLoopNBothRun()
    ensures var first := New(2).Span(3, ['A']);
      var second := first.next.LoopN(4, 2, ['B']);
      && |first.calls| == 1
      && |second.calls| == 1
      && second.calls[0].arg.index == 0
      && second.calls[0].arg.window.Elapsed() == -1
  {
    var first := New(2).Span(3, ['A']);
    LoopNBeforeStart(first.next, 4, 2, ['B']);
  }
}

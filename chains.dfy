/**
  Fluent chains of spans, `New(now).Span(d0, f0...).Span(d1, f1...)...`.

  Each `Span` returns the seam at the end of its window, so a chain lays out
  back-to-back windows along the time axis. With non-negative durations the
  windows are disjoint and cover `[from, from + total)` without gaps, so for
  one sample the callbacks of at most one segment run, and, when every
  segment has callbacks, of exactly one segment when the sample lies inside
  the chain.
 */
module Chains {
  import opened Timeline

  /** One link `.Span(duration, f...)` of a chain. */
  datatype Segment<F> = Segment(duration: int, f: seq<F>)

  /** The outcome of evaluating a chain: the cursor the last link returns,
      and for each link the callbacks it ran. */
  datatype Trace<F> = Trace(next: Timeline, fired: seq<seq<Call<F, Timeline>>>)

  /** Sum of the durations of a chain. */
  function Total<F>(segs: seq<Segment<F>>): int {
    if segs == [] then 0 else Total(segs[..|segs| - 1]) + segs[|segs| - 1].duration
  }

  /** Where the window of link `i` starts. */
  function Start<F>(t: Timeline, segs: seq<Segment<F>>, i: int): int
    requires 0 <= i <= |segs|
  {
    t.from + Total(segs[..i])
  }

  /** Evaluates the chain left to right: each link is applied to the cursor
      the previous one returned. */
  function Spans<F>(t: Timeline, segs: seq<Segment<F>>): (r: Trace<F>)
    ensures |r.fired| == |segs|
    ensures segs == [] ==> r.next == t
    ensures segs != [] ==> r.next == Timeline(t.from + Total(segs), t.from + Total(segs), t.now)
  {
    if segs == [] then Trace(t, [])
    else
      var prefix := Spans(t, segs[..|segs| - 1]);
      var last := segs[|segs| - 1];
      var step := prefix.next.Span(last.duration, last.f);
      Trace(step.next, prefix.fired + [step.calls])
  }

  predicate NonNegative<F>(segs: seq<Segment<F>>) {
    forall i :: 0 <= i < |segs| ==> segs[i].duration >= 0
  }

  /** Link `i` runs its callbacks, with the cursor of its own window, exactly
      when the sample lies in `[Start(i), Start(i) + duration)`. */
  lemma {:induction false} SpansFired<F>(t: Timeline, segs: seq<Segment<F>>, i: int)
    requires 0 <= i < |segs|
    ensures var s, d := Start(t, segs, i), segs[i].duration;
      Spans(t, segs).fired[i] ==
        if s <= t.now < s + d then InvokeAll(segs[i].f, Timeline(s, s + d, t.now)) else []
  {
    var k := |segs| - 1;
    var prefix := segs[..k];
    var p := Spans(t, prefix);
    var step := p.next.Span(segs[k].duration, segs[k].f);
    var fired := Spans(t, segs).fired;
    assert fired == p.fired + [step.calls];
    if i < k {
      assert fired[i] == p.fired[i];
      assert prefix[i] == segs[i];
      assert prefix[..i] == segs[..i];
      assert Start(t, prefix, i) == Start(t, segs, i);
      SpansFired(t, prefix, i);
    } else {
      assert fired[i] == step.calls;
      assert segs[..i] == prefix;
      assert p.next.from == Start(t, segs, i) && p.next.now == t.now;
      LastLinkFired(p.next, t, Start(t, segs, i), segs[k]);
    }
  }

  /** The last link runs on the seam the prefix returned. */
  lemma LastLinkFired<F>(seam: Timeline, t: Timeline, s: int, seg: Segment<F>)
    requires seam.from == s && seam.now == t.now
    ensures seam.Span(seg.duration, seg.f).calls ==
      if s <= t.now < s + seg.duration then InvokeAll(seg.f, Timeline(s, s + seg.duration, t.now)) else []
  {
  }

  /** The prefix through link `i` extends the prefix before it by that
      link's duration. */
  lemma TotalStep<F>(segs: seq<Segment<F>>, i: int)
    requires 0 <= i < |segs|
    ensures Total(segs[..i + 1]) == Total(segs[..i]) + segs[i].duration
  {
    assert segs[..i + 1][..i] == segs[..i];
  }

  /** With non-negative durations, a later link starts no earlier than an
      earlier link starts; taking `i + 1` for the earlier link, no earlier
      than it ends. */
  lemma {:induction false} StartsMonotone<F>(segs: seq<Segment<F>>, i: int, j: int)
    requires NonNegative(segs)
    requires 0 <= i <= j <= |segs|
    ensures Total(segs[..i]) <= Total(segs[..j])
    decreases j - i
  {
    if i < j {
      StartsMonotone(segs, i, j - 1);
      assert segs[..j][..j - 1] == segs[..j - 1];
    }
  }

  /** With non-negative durations the callbacks of at most one link run. */
  lemma AtMostOneFires<F>(t: Timeline, segs: seq<Segment<F>>, i: int, j: int)
    requires NonNegative(segs)
    requires 0 <= i < |segs| && 0 <= j < |segs|
    requires Spans(t, segs).fired[i] != [] && Spans(t, segs).fired[j] != []
    ensures i == j
  {
    SpansFired(t, segs, i);
    SpansFired(t, segs, j);
    if i < j {
      TotalStep(segs, i);
      StartsMonotone(segs, i + 1, j);
    } else if j < i {
      TotalStep(segs, j);
      StartsMonotone(segs, j + 1, i);
    }
  }

  /** With non-negative durations, a sample inside the chain's extent lies in
      the window of some link, which then runs its callbacks. */
  lemma {:induction false} SomeLinkCovers<F>(t: Timeline, segs: seq<Segment<F>>)
    requires NonNegative(segs)
    requires t.from <= t.now < t.from + Total(segs)
    ensures exists i :: 0 <= i < |segs| &&
              Start(t, segs, i) <= t.now < Start(t, segs, i) + segs[i].duration
  {
    var k := |segs| - 1;
    var prefix := segs[..k];
    assert segs[..k + 1] == segs;
    if t.now < t.from + Total(prefix) {
      SomeLinkCovers(t, prefix);
      var i :| 0 <= i < k && Start(t, prefix, i) <= t.now < Start(t, prefix, i) + prefix[i].duration;
      assert prefix[..i] == segs[..i];
      assert Start(t, segs, i) <= t.now < Start(t, segs, i) + segs[i].duration;
    } else {
      assert Start(t, segs, k) <= t.now < Start(t, segs, k) + segs[k].duration;
    }
  }

  /** Exactly one link of a chain with non-negative durations runs, with the
      cursor of its own window, whenever the sample lies inside the chain and
      every link has callbacks; no link runs when the sample is outside. */
  lemma ExactlyOneFires<F>(t: Timeline, segs: seq<Segment<F>>)
    requires NonNegative(segs)
    requires forall i :: 0 <= i < |segs| ==> segs[i].f != []
    ensures (exists i :: 0 <= i < |segs| && Spans(t, segs).fired[i] != []) <==>
              t.from <= t.now < t.from + Total(segs)
    ensures forall i, j ::
              (0 <= i < |segs| && 0 <= j < |segs| &&
               Spans(t, segs).fired[i] != [] && Spans(t, segs).fired[j] != []) ==> i == j
    ensures forall i :: 0 <= i < |segs| && Spans(t, segs).fired[i] != [] ==>
              Spans(t, segs).fired[i] ==
                InvokeAll(segs[i].f, Timeline(Start(t, segs, i), Start(t, segs, i) + segs[i].duration, t.now))
  {
    var r := Spans(t, segs);
    if t.from <= t.now < t.from + Total(segs) {
      SomeLinkCovers(t, segs);
      var i :| 0 <= i < |segs| && Start(t, segs, i) <= t.now < Start(t, segs, i) + segs[i].duration;
      SpansFired(t, segs, i);
    } else {
      forall i | 0 <= i < |segs|
        ensures r.fired[i] == []
      {
        SpansFired(t, segs, i);
        TotalStep(segs, i);
        assert segs[..|segs|] == segs;
        assert segs[..0] == [];
        StartsMonotone(segs, 0, i);
        StartsMonotone(segs, i + 1, |segs|);
      }
    }
    forall i, j | 0 <= i < |segs| && 0 <= j < |segs| && r.fired[i] != [] && r.fired[j] != []
      ensures i == j
    {
      AtMostOneFires(t, segs, i, j);
    }
    forall i | 0 <= i < |segs| && r.fired[i] != []
      ensures r.fired[i] ==
                InvokeAll(segs[i].f, Timeline(Start(t, segs, i), Start(t, segs, i) + segs[i].duration, t.now))
    {
      SpansFired(t, segs, i);
    }
  }
}

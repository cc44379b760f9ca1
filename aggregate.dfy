/** The per-group summary row (`_agg_row`, and its inline copy in the per-field
    pass): counts, duration, means, pause counts, backspace rate and
    corrected characters per minute. Rational values are `real`; NaN is `None`. */
module Aggregation {
  import opened Util
  import opened Events
  import opened Pairing

  /** Interval samples above these thresholds count as pauses. */
  const ShortPauseMs: int := 200
  const LongPauseMs: int := 500

  datatype Metrics = Metrics(
    nEvents: nat,
    nKeydowns: nat,
    durationMs: int,
    durationSec: real,
    meanKhdMs: Option<real>,
    meanIkiMs: Option<real>,
    pauseCount200: nat,
    pauseCount500: nat,
    backspaceCount: nat,
    backspaceRate: real,
    cpm: Option<real>
  )

  /** Earliest timestamp of a nonempty group (`times.min()`). */
  function MinTime(es: seq<KeyEvent>): int
    requires |es| > 0
    decreases |es|
  {
    if |es| == 1 then es[0].timeMs
    else
      var m := MinTime(es[..|es| - 1]);
      var t := es[|es| - 1].timeMs;
      if t < m then t else m
  }

  /** Latest timestamp of a nonempty group (`times.max()`). */
  function MaxTime(es: seq<KeyEvent>): int
    requires |es| > 0
    decreases |es|
  {
    if |es| == 1 then es[0].timeMs
    else
      var m := MaxTime(es[..|es| - 1]);
      var t := es[|es| - 1].timeMs;
      if t > m then t else m
  }

  /** `MinTime` is a lower bound attained by some event. */
  lemma {:induction false} MinTimeIsMin(es: seq<KeyEvent>)
    requires |es| > 0
    ensures forall k :: 0 <= k < |es| ==> MinTime(es) <= es[k].timeMs
    ensures exists k :: 0 <= k < |es| && es[k].timeMs == MinTime(es)
    decreases |es|
  {
    if |es| > 1 {
      var init := es[..|es| - 1];
      MinTimeIsMin(init);
      assert forall k :: 0 <= k < |init| ==> init[k] == es[k];
      var k :| 0 <= k < |init| && init[k].timeMs == MinTime(init);
      if es[|es| - 1].timeMs < MinTime(init) {
        assert es[|es| - 1].timeMs == MinTime(es);
      } else {
        assert es[k].timeMs == MinTime(es);
      }
    } else {
      assert es[0].timeMs == MinTime(es);
    }
  }

  /** `MaxTime` is an upper bound attained by some event. */
  lemma {:induction false} MaxTimeIsMax(es: seq<KeyEvent>)
    requires |es| > 0
    ensures forall k :: 0 <= k < |es| ==> es[k].timeMs <= MaxTime(es)
    ensures exists k :: 0 <= k < |es| && es[k].timeMs == MaxTime(es)
    decreases |es|
  {
    if |es| > 1 {
      var init := es[..|es| - 1];
      MaxTimeIsMax(init);
      assert forall k :: 0 <= k < |init| ==> init[k] == es[k];
      var k :| 0 <= k < |init| && init[k].timeMs == MaxTime(init);
      if es[|es| - 1].timeMs > MaxTime(init) {
        assert es[|es| - 1].timeMs == MaxTime(es);
      } else {
        assert es[k].timeMs == MaxTime(es);
      }
    } else {
      assert es[0].timeMs == MaxTime(es);
    }
  }

  /** `duration_ms`: max - min, or 0 when there are fewer than 2 events. */
  function DurationMs(es: seq<KeyEvent>): nat
  {
    if |es| >= 2 then
      MinTimeIsMin(es);
      MaxTimeIsMax(es);
      assert MinTime(es) <= es[0].timeMs <= MaxTime(es);
      MaxTime(es) - MinTime(es)
    else 0
  }

  /** Arithmetic mean; absent (NaN) for an empty sample list. */
  function Mean(s: seq<int>): (r: Option<real>)
    ensures r.None? <==> |s| == 0
    ensures r.Some? ==> r.value * (|s| as real) == Sum(s) as real
  {
    if |s| == 0 then None else Some((Sum(s) as real) / (|s| as real))
  }

  predicate IsShortPause(iki: int) { iki > ShortPauseMs }

  predicate IsLongPause(iki: int) { iki > LongPauseMs }

  /** `(n_keydowns - n_backspace) / (duration_ms / 60000)` equals the
      characters per minute written with one division. */
  lemma CpmRewrite(typed: int, durationMs: int)
    requires durationMs > 0
    ensures (typed as real) / ((durationMs as real) / 60000.0) == ((typed * 60000) as real) / (durationMs as real)
  {
    var d := durationMs as real;
    var q := (typed as real) / (d / 60000.0);
    assert q * (d / 60000.0) == typed as real;
    assert q * d == (typed * 60000) as real;
  }

  /** `n_backspace / n_keydowns if n_keydowns else 0`: a rate, never absent. */
  function BackspaceRate(nBackspace: nat, nKeydowns: nat): (r: real)
    requires nBackspace <= nKeydowns
    ensures 0.0 <= r <= 1.0
    ensures r == 0.0 <==> nBackspace == 0
    ensures nKeydowns > 0 ==> r * (nKeydowns as real) == nBackspace as real
  {
    if nKeydowns != 0 then (nBackspace as real) / (nKeydowns as real) else 0.0
  }

  /** Corrected characters per minute; absent (NaN) when the duration is 0. */
  function Cpm(typed: nat, durationMs: nat): (r: Option<real>)
    ensures r.None? <==> durationMs == 0
    ensures r.Some? ==> r.value == ((typed * 60000) as real) / (durationMs as real) && r.value >= 0.0
  {
    if durationMs > 0 then
      CpmRewrite(typed, durationMs);
      Some((typed as real) / ((durationMs as real) / 60000.0))
    else None
  }

  /** One aggregate row from a group's events and its paired samples. */
  function Aggregate(grp: seq<KeyEvent>, khd: seq<int>, iki: seq<int>): (m: Metrics)
    ensures m.nEvents == |grp|
    ensures m.backspaceCount <= m.nKeydowns <= m.nEvents
    ensures m.durationMs >= 0
    ensures |grp| < 2 ==> m.durationMs == 0
    ensures m.backspaceRate == 0.0 <==> m.backspaceCount == 0
    ensures m.nKeydowns == 0 ==> m.backspaceRate == 0.0
    ensures 0.0 <= m.backspaceRate <= 1.0
    ensures m.cpm.None? <==> m.durationMs == 0
    ensures m.cpm.Some? ==>
      m.cpm.value == (((m.nKeydowns - m.backspaceCount) * 60000) as real) / (m.durationMs as real) &&
      m.cpm.value >= 0.0
    ensures m.pauseCount500 <= m.pauseCount200 <= |iki|
    ensures m.meanKhdMs.None? <==> |khd| == 0
    ensures m.meanIkiMs.None? <==> |iki| == 0
  {
    var durationMs := DurationMs(grp);
    var nKeydowns := Count(grp, IsKeyDown);
    var nBackspace := Count(grp, IsBackspaceDown);
    CountMonotone(grp, IsBackspaceDown, IsKeyDown);
    CountMonotone(iki, IsLongPause, IsShortPause);
    var pause200 := if |iki| > 0 then Count(iki, IsShortPause) else 0;
    var pause500 := if |iki| > 0 then Count(iki, IsLongPause) else 0;
    Metrics(
      nEvents := |grp|,
      nKeydowns := nKeydowns,
      durationMs := durationMs,
      durationSec := (durationMs as real) / 1000.0,
      meanKhdMs := Mean(khd),
      meanIkiMs := Mean(iki),
      pauseCount200 := pause200,
      pauseCount500 := pause500,
      backspaceCount := nBackspace,
      backspaceRate := BackspaceRate(nBackspace, nKeydowns),
      cpm := Cpm(nKeydowns - nBackspace, durationMs)
    )
  }

  /** A mean of samples that all lie in (lo, hi) lies in (lo, hi) too. */
  lemma MeanBounded(s: seq<int>, lo: int, hi: int)
    requires |s| > 0
    requires forall k :: 0 <= k < |s| ==> lo < s[k] < hi
    ensures Mean(s).Some?
    ensures lo as real < Mean(s).value < hi as real
  {
    SumBounds(s, lo, hi);
    var n := |s| as real;
    var total := Sum(s) as real;
    assert (lo as real) * n < total < (hi as real) * n;
    var q := total / n;
    assert q * n == total;
  }

  /** With a time-sorted group the duration is last minus first. */
  lemma DurationIsSpan(grp: seq<KeyEvent>)
    requires TimeSorted(grp)
    requires |grp| >= 2
    ensures DurationMs(grp) == grp[|grp| - 1].timeMs - grp[0].timeMs
  {
    var lo, hi := MinTime(grp), MaxTime(grp);
    TimeSortedMillis(grp);
    MinTimeIsMin(grp);
    MaxTimeIsMax(grp);
    var a :| 0 <= a < |grp| && grp[a].timeMs == lo;
    var b :| 0 <= b < |grp| && grp[b].timeMs == hi;
    assert grp[0].timeMs <= grp[a].timeMs;
    assert grp[b].timeMs <= grp[|grp| - 1].timeMs;
  }

  /** The row of a group with the samples that pairing produces for it. */
  function GroupMetrics(grp: seq<KeyEvent>): Metrics
  {
    Aggregate(grp, Durations(Holds(grp)), Gaps(grp))
  }

  /** What pairing guarantees about a group's row: sample counts bounded by
      the keydown count, means present exactly when samples exist and then
      strictly positive and below the discard ceilings. */
  lemma GroupMetricsProperties(grp: seq<KeyEvent>)
    ensures |Holds(grp)| <= GroupMetrics(grp).nKeydowns
    ensures |Holds(grp)| <= Count(grp, IsKeyUp)
    ensures GroupMetrics(grp).pauseCount200 <= |Gaps(grp)| <= GroupMetrics(grp).nKeydowns
    ensures GroupMetrics(grp).meanKhdMs.Some? <==> |Holds(grp)| > 0
    ensures GroupMetrics(grp).meanKhdMs.Some? ==> 0.0 < GroupMetrics(grp).meanKhdMs.value < MaxHoldMs as real
    ensures GroupMetrics(grp).meanIkiMs.Some? <==> |Gaps(grp)| > 0
    ensures GroupMetrics(grp).meanIkiMs.Some? ==> 0.0 < GroupMetrics(grp).meanIkiMs.value < MaxGapMs as real
  {
    HoldsCountBounds(grp);
    GapsAtMostKeyDowns(grp);
    var khd := Durations(Holds(grp));
    var iki := Gaps(grp);
    if |khd| > 0 {
      HoldDurationsBounded(grp);
      assert forall k :: 0 <= k < |khd| ==> khd[k] in khd;
      MeanBounded(khd, 0, MaxHoldMs);
    }
    if |iki| > 0 {
      GapsBounded(grp);
      assert forall k :: 0 <= k < |iki| ==> iki[k] in iki;
      MeanBounded(iki, 0, MaxGapMs);
    }
  }
}

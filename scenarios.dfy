/** Small worked logs and the rows the model computes for them. */
module Scenarios {
  import opened Util
  import opened Events
  import opened Pairing
  import opened Aggregation
  import opened Rollup

  /** An event of session "s1", test "free", field "q1", at `ns` nanoseconds. */
  function At(kind: EventType, key: string, ns: int): KeyEvent { KeyEvent("s1", "free", Some("q1"), kind, key, ns) }

  /** Events on a whole millisecond `ms`. */
  function Down(key: string, ms: int): KeyEvent { At(KeyDown, key, ms * 1000000) }

  function Up(key: string, ms: int): KeyEvent { At(KeyUp, key, ms * 1000000) }

  /** A 100 ms press of one key is one hold sample, so the group's mean hold
      time is 100 ms. */
  lemma SinglePressHold()
    ensures Holds([Down("a", 0), Up("a", 100)]) == [Hold("a", 100)]
    ensures GroupMetrics([Down("a", 0), Up("a", 100)]).meanKhdMs == Some(100.0)
  {
    var es := [Down("a", 0), Up("a", 100)];
    assert HoldAt(es, 0) == Some(Hold("a", 100));
    assert Durations(Holds(es)) == [100];
  }

  /** Sorting uses the full-resolution time: a keyup at 100.3 ms listed after
      a keydown at 100.7 ms is moved before it, so the keydown pairs with the
      keyup at 300 ms, a hold of 200 ms on the millisecond values. */
  lemma SubMillisecondOrder()
    ensures SortByTime([At(KeyDown, "a", 100700000), At(KeyUp, "a", 100300000), Up("a", 300)]) ==
      [At(KeyUp, "a", 100300000), At(KeyDown, "a", 100700000), Up("a", 300)]
    ensures Holds(SortByTime([At(KeyDown, "a", 100700000), At(KeyUp, "a", 100300000), Up("a", 300)])) == [Hold("a", 200)]
  {
    var d, u, u2 := At(KeyDown, "a", 100700000), At(KeyUp, "a", 100300000), Up("a", 300);
    var log := [d, u, u2];
    assert log[..2][..1] == [d];
    assert SortByTime([d]) == [d];
    assert [d][..0] == [];
    assert InsertByTime([d], u) == [u, d];
    assert log[..2][1] == u;
    assert SortByTime(log[..2]) == [u, d];
    assert InsertByTime([u, d], u2) == [u, d, u2];
    var sorted := [u, d, u2];
    assert SortByTime(log) == sorted;
    assert HoldAt(sorted, 0) == None;
    assert NextSameKey(sorted, "a", 2) == Some(2);
    assert HoldAt(sorted, 1) == Some(Hold("a", 200));
  }

  /** A key held for 2.5 s is a stuck key: no sample. */
  lemma StuckKeyDiscarded()
    ensures Holds([Down("a", 0), Up("a", 2500)]) == []
  {
    var es := [Down("a", 0), Up("a", 2500)];
    assert HoldAt(es, 0) == None;
  }

  /** Releasing `a` at 80 ms and pressing `b` at 110 ms is a 30 ms interval. */
  lemma TwoPressesGap()
    ensures Gaps([Down("a", 0), Up("a", 80), Down("b", 110), Up("b", 190)]) == [30]
  {
    var es := [Down("a", 0), Up("a", 80), Down("b", 110), Up("b", 190)];
    assert ScanGapsUpTo(es, 1) == GapScan([], None);
    assert ScanGapsUpTo(es, 2) == GapScan([], Some(80));
    assert ScanGapsUpTo(es, 3) == GapScan([30], None);
    assert ScanGapsUpTo(es, 4) == GapScan([30], Some(190));
  }

  /** A single event has no duration and therefore no typing speed. */
  lemma SingleEventRow()
    ensures GroupMetrics([Down("a", 0)]).durationMs == 0
    ensures GroupMetrics([Down("a", 0)]).cpm.None?
  {
  }

  /** Five keydowns over one minute, one of them a backspace: the backspace
      rate is 0.2 and the corrected speed is 4 characters per minute. */
  lemma CorrectionRate()
    ensures GroupMetrics([Down("a", 0), Down("b", 15000), Down(BackspaceKey, 30000), Down("c", 45000), Down("d", 60000)]).backspaceRate == 0.2
    ensures GroupMetrics([Down("a", 0), Down("b", 15000), Down(BackspaceKey, 30000), Down("c", 45000), Down("d", 60000)]).cpm == Some(4.0)
  {
    var a, b, x, c, d := Down("a", 0), Down("b", 15000), Down(BackspaceKey, 30000), Down("c", 45000), Down("d", 60000);
    var es := [a, b, x, c, d];
    assert es[..4] == [a, b, x, c] && es[..4][..3] == [a, b, x] && [a, b, x][..2] == [a, b] && [a, b][..1] == [a];
    assert Count([a], IsKeyDown) == 1 && Count([a], IsBackspaceDown) == 0;
    assert Count([a, b], IsKeyDown) == 2 && Count([a, b], IsBackspaceDown) == 0;
    assert Count([a, b, x], IsKeyDown) == 3 && Count([a, b, x], IsBackspaceDown) == 1;
    assert Count([a, b, x, c], IsKeyDown) == 4 && Count([a, b, x, c], IsBackspaceDown) == 1;
    assert Count(es, IsKeyDown) == 5 && Count(es, IsBackspaceDown) == 1;
    assert MinTime([a, b]) == 0 && MaxTime([a, b]) == 15000;
    assert MinTime([a, b, x]) == 0 && MaxTime([a, b, x]) == 30000;
    assert MinTime([a, b, x, c]) == 0 && MaxTime([a, b, x, c]) == 45000;
    assert MinTime(es) == 0 && MaxTime(es) == 60000;
    assert DurationMs(es) == 60000;
  }

  /** A whitespace-only field name gets no per-field row. */
  lemma BlankFieldSkipped(agg: seq<KeyEvent> -> Metrics, starts: map<GroupKey, int>)
    ensures FieldRowOf(agg, starts, Group(GroupKey("s1", "free", Some(" \t")), [Down("a", 0)])) == []
  {
  }

  /** A field first typed in 1.5 s after its test began has a latency of 1500 ms. */
  lemma FieldLatency(agg: seq<KeyEvent> -> Metrics)
    ensures FieldRowOf(agg, map[GroupKey("s1", "free", None) := 500], Group(GroupKey("s1", "free", Some("q1")), [Down("a", 2000)])) ==
      [MetricsRow(GroupKey("s1", "free", Some("q1")), agg([Down("a", 2000)]), Some(1500))]
  {
    assert !IsBlank("q1") by {
      assert !IsPythonSpace("q1"[0]);
    }
  }
}

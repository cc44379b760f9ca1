/** The three rollup passes: one row per (session, test), one "overall" row
    per session over all of its events, and one row per (session, test,
    field) for named fields, with the field's first-key latency relative to
    the start of its test. Each pass is a loop method proved equal to a
    specification function; the lemmas state what every emitted row satisfies. */
module Rollup {
  import opened Util
  import opened Events
  import opened Pairing
  import opened Aggregation

  /** One output row. Only per-field rows carry a first-key latency. */
  datatype MetricsRow = MetricsRow(key: GroupKey, metrics: Metrics, firstKeyLatencyMs: Option<int>)

  /** Pairs one group's events and aggregates them. */
  method ComputeGroupMetrics(grp: seq<KeyEvent>) returns (m: Metrics)
    ensures m == GroupMetrics(grp)
  {
    var holds := PairHoldDurations(grp);
    var gaps := PairInterKeyIntervals(grp);
    m := Aggregate(grp, Durations(holds), gaps);
  }

  // ---------------------------------------------------------------------
  // Per-test and overall rows
  // ---------------------------------------------------------------------

  function GroupRow(agg: seq<KeyEvent> -> Metrics, gr: Group): MetricsRow
  {
    MetricsRow(gr.key, agg(gr.events), None)
  }

  /** The rows of the groups `gs`, in that order. */
  function RowsFor(agg: seq<KeyEvent> -> Metrics, gs: seq<Group>): (rows: seq<MetricsRow>)
    ensures |rows| == |gs|
  {
    if |gs| == 0 then [] else RowsFor(agg, gs[..|gs| - 1]) + [GroupRow(agg, gs[|gs| - 1])]
  }

  /** The metrics table: per-test rows followed by the sessions' overall rows,
      each aggregated by `agg` (the model's aggregate is `GroupMetrics`). */
  function MetricsTable(agg: seq<KeyEvent> -> Metrics, es: seq<KeyEvent>): seq<MetricsRow>
  {
    RowsFor(agg, GroupBy(ByTest, es)) + RowsFor(agg, GroupBy(BySession, es))
  }

  /** One pass over the groups of a `groupby`, appending a row per group. */
  method RollupPass(gs: seq<Group>) returns (rows: seq<MetricsRow>)
    ensures rows == RowsFor(GroupMetrics, gs)
  {
    rows := [];
    for i := 0 to |gs|
      invariant rows == RowsFor(GroupMetrics, gs[..i])
    {
      assert gs[..i + 1][..i] == gs[..i];
      var m := ComputeGroupMetrics(gs[i].events);
      rows := rows + [MetricsRow(gs[i].key, m, None)];
    }
    assert gs[..|gs|] == gs;
  }

  /** `compute_keystroke_metrics`. */
  method ComputeKeystrokeMetrics(es: seq<KeyEvent>) returns (rows: seq<MetricsRow>)
    ensures rows == MetricsTable(GroupMetrics, SortByTime(es))
  {
    var sorted := SortByTime(es);
    var perTest := RollupPass(GroupBy(ByTest, sorted));
    var overall := RollupPass(GroupBy(BySession, sorted));
    rows := perTest + overall;
  }

  /** Once the log is sorted, every group is in time order, as the per-group
      `sort_values("pressed_at")` leaves it. */
  lemma GroupsTimeSorted(g: Grouping, es: seq<KeyEvent>)
    ensures forall i :: 0 <= i < |GroupBy(g, SortByTime(es))| ==> TimeSorted(GroupBy(g, SortByTime(es))[i].events)
  {
    var sorted := SortByTime(es);
    SortByTimeCorrect(es);
    GroupByCharacterized(g, sorted);
    forall i | 0 <= i < |GroupBy(g, sorted)| ensures TimeSorted(GroupBy(g, sorted)[i].events) {
      MembersSorted(g, sorted, Keys(g, sorted)[i]);
    }
  }

  /** Row `i` of a pass is the row of group `i`. */
  lemma {:induction false} RowsForIndex(agg: seq<KeyEvent> -> Metrics, gs: seq<Group>)
    ensures forall i :: 0 <= i < |gs| ==>
      RowsFor(agg, gs)[i].key == gs[i].key &&
      RowsFor(agg, gs)[i].metrics == agg(gs[i].events) &&
      RowsFor(agg, gs)[i].firstKeyLatencyMs.None?
    decreases |gs|
  {
    if |gs| > 0 {
      RowsForIndex(agg, gs[..|gs| - 1]);
    }
  }

  /** Session groups carry the literal test label "overall". */
  lemma SessionGroupsOverall(es: seq<KeyEvent>)
    ensures forall i :: 0 <= i < |GroupBy(BySession, es)| ==> GroupBy(BySession, es)[i].key.test == OverallLabel
  {
    var sg := GroupBy(BySession, es);
    GroupByCharacterized(BySession, es);
    KeysCharacterized(BySession, es);
    forall i | 0 <= i < |sg| ensures sg[i].key.test == OverallLabel {
      assert Keys(BySession, es)[i] in Keys(BySession, es);
      var e :| e in es && KeyOf(BySession, e) == Keys(BySession, es)[i];
    }
  }

  /** Two passes written one after the other: the first pass's rows come
      first, then row `i` of the second pass at offset `|first|`. */
  lemma PassesConcatenated(agg: seq<KeyEvent> -> Metrics, first: seq<Group>, second: seq<Group>)
    ensures |RowsFor(agg, first) + RowsFor(agg, second)| == |first| + |second|
    ensures forall i :: 0 <= i < |first| ==>
      (RowsFor(agg, first) + RowsFor(agg, second))[i].key == first[i].key &&
      (RowsFor(agg, first) + RowsFor(agg, second))[i].firstKeyLatencyMs.None?
    ensures forall i :: 0 <= i < |second| ==>
      (RowsFor(agg, first) + RowsFor(agg, second))[|first| + i].key == second[i].key &&
      (RowsFor(agg, first) + RowsFor(agg, second))[|first| + i].firstKeyLatencyMs.None?
  {
    var a: seq<MetricsRow>, b: seq<MetricsRow> := RowsFor(agg, first), RowsFor(agg, second);
    forall i | 0 <= i < |first|
      ensures (a + b)[i].key == first[i].key && (a + b)[i].firstKeyLatencyMs.None?
    {
      RowsForIndex(agg, first);
      assert (a + b)[i] == a[i];
    }
    forall i | 0 <= i < |second|
      ensures (a + b)[|first| + i].key == second[i].key && (a + b)[|first| + i].firstKeyLatencyMs.None?
    {
      RowsForIndex(agg, second);
      assert (a + b)[|a| + i] == b[i];
    }
  }

  /** The metrics table has one row per (session, test) group, in group order,
      then one per session, labelled "overall"; none carries a latency. */
  lemma MetricsTableShape(agg: seq<KeyEvent> -> Metrics, es: seq<KeyEvent>)
    ensures |MetricsTable(agg, es)| == |GroupBy(ByTest, es)| + |GroupBy(BySession, es)|
    ensures forall i :: 0 <= i < |GroupBy(ByTest, es)| ==>
      MetricsTable(agg, es)[i].key == GroupBy(ByTest, es)[i].key &&
      MetricsTable(agg, es)[i].firstKeyLatencyMs.None?
    ensures forall i :: 0 <= i < |GroupBy(BySession, es)| ==>
      MetricsTable(agg, es)[|GroupBy(ByTest, es)| + i].key == GroupBy(BySession, es)[i].key &&
      MetricsTable(agg, es)[|GroupBy(ByTest, es)| + i].firstKeyLatencyMs.None? &&
      MetricsTable(agg, es)[|GroupBy(ByTest, es)| + i].key.test == OverallLabel
  {
    var tg, sg := GroupBy(ByTest, es), GroupBy(BySession, es);
    var t := MetricsTable(agg, es);
    PassesConcatenated(agg, tg, sg);
    SessionGroupsOverall(es);
    forall i | 0 <= i < |sg| ensures t[|tg| + i].key == sg[i].key && sg[i].key.test == OverallLabel {
    }
  }

  // ---------------------------------------------------------------------
  // Per-field rows
  // ---------------------------------------------------------------------

  /** `test_start_ms`: the earliest time of every (session, test) group. */
  function TestStarts(es: seq<KeyEvent>): map<GroupKey, int>
  {
    map k | k in Keys(ByTest, es) && |Members(ByTest, es, k)| > 0 :: MinTime(Members(ByTest, es, k))
  }

  /** `test_start_ms` has an entry for every (session, test) of the log and
      no other, and that entry is the earliest time of the test's events. */
  lemma TestStartsCharacterized(es: seq<KeyEvent>)
    ensures forall k :: k in TestStarts(es) <==> k in Keys(ByTest, es)
    ensures forall e :: e in es ==> KeyOf(ByTest, e) in TestStarts(es) && TestStarts(es)[KeyOf(ByTest, e)] <= e.timeMs
    ensures forall k :: k in TestStarts(es) ==> exists e :: e in es && KeyOf(ByTest, e) == k && e.timeMs == TestStarts(es)[k]
  {
    var starts := TestStarts(es);
    KeysCharacterized(ByTest, es);
    forall k | k in Keys(ByTest, es) ensures k in starts {
      KeysHaveMembers(ByTest, es, k);
    }
    forall e | e in es ensures KeyOf(ByTest, e) in starts && starts[KeyOf(ByTest, e)] <= e.timeMs {
      var k := KeyOf(ByTest, e);
      var m := Members(ByTest, es, k);
      MembersCharacterized(ByTest, es, k);
      assert e in m;
      var a :| 0 <= a < |m| && m[a] == e;
      MinTimeIsMin(m);
    }
    forall k | k in starts ensures exists e :: e in es && KeyOf(ByTest, e) == k && e.timeMs == starts[k] {
      var m := Members(ByTest, es, k);
      MembersCharacterized(ByTest, es, k);
      MinTimeIsMin(m);
      var a :| 0 <= a < |m| && m[a].timeMs == MinTime(m);
      assert m[a] in m;
    }
  }

  /** The (session, test) group a field group lies in. */
  function TestKeyOf(k: GroupKey): GroupKey
  {
    GroupKey(k.session, k.test, None)
  }

  /** Missing (NaN) or whitespace-only field names get no row. */
  predicate SkipsField(k: GroupKey)
  {
    k.field.None? || IsBlank(k.field.value)
  }

  /** The row of one field group, or none. The test start falls back to the
      field's own start when the test is absent from `starts`, as `.get` does. */
  function FieldRowOf(agg: seq<KeyEvent> -> Metrics, starts: map<GroupKey, int>, gr: Group): (rows: seq<MetricsRow>)
    ensures |rows| <= 1
  {
    if SkipsField(gr.key) || |gr.events| == 0 then []
    else
      var first := MinTime(gr.events);
      var start := if TestKeyOf(gr.key) in starts then starts[TestKeyOf(gr.key)] else first;
      [MetricsRow(gr.key, agg(gr.events), Some(first - start))]
  }

  function FieldRowsFor(agg: seq<KeyEvent> -> Metrics, starts: map<GroupKey, int>, gs: seq<Group>): (rows: seq<MetricsRow>)
    ensures |rows| <= |gs|
  {
    if |gs| == 0 then [] else FieldRowsFor(agg, starts, gs[..|gs| - 1]) + FieldRowOf(agg, starts, gs[|gs| - 1])
  }

  /** The per-field metrics table. */
  function FieldTable(es: seq<KeyEvent>): seq<MetricsRow>
  {
    FieldRowsFor(GroupMetrics, TestStarts(es), GroupBy(ByField, es))
  }

  /** The body of the per-field loop for one group: skip it, or emit its row. */
  method FieldRow(starts: map<GroupKey, int>, gr: Group) returns (row: seq<MetricsRow>)
    ensures row == FieldRowOf(GroupMetrics, starts, gr)
  {
    if gr.key.field.None? || IsBlank(gr.key.field.value) {
      return [];
    }
    if |gr.events| == 0 {
      return [];
    }
    var m := ComputeGroupMetrics(gr.events);
    var first := MinTime(gr.events);
    var start := if TestKeyOf(gr.key) in starts then starts[TestKeyOf(gr.key)] else first;
    row := [MetricsRow(gr.key, m, Some(first - start))];
  }

  /** `compute_keystroke_metrics_by_field`. */
  method ComputeKeystrokeMetricsByField(es: seq<KeyEvent>) returns (rows: seq<MetricsRow>)
    ensures rows == FieldTable(SortByTime(es))
  {
    var sorted := SortByTime(es);
    rows := FieldPass(TestStarts(sorted), GroupBy(ByField, sorted));
  }

  /** One more group adds that group's row, if any, at the end. */
  lemma FieldRowsForStep(agg: seq<KeyEvent> -> Metrics, starts: map<GroupKey, int>, gs: seq<Group>, i: nat)
    requires i < |gs|
    ensures FieldRowsFor(agg, starts, gs[..i + 1]) == FieldRowsFor(agg, starts, gs[..i]) + FieldRowOf(agg, starts, gs[i])
  {
    assert gs[..i + 1][..i] == gs[..i];
  }

  /** The per-field loop over the field groups. */
  method FieldPass(starts: map<GroupKey, int>, gs: seq<Group>) returns (rows: seq<MetricsRow>)
    ensures rows == FieldRowsFor(GroupMetrics, starts, gs)
  {
    rows := [];
    for i := 0 to |gs|
      invariant rows == FieldRowsFor(GroupMetrics, starts, gs[..i])
    {
      FieldRowsForStep(GroupMetrics, starts, gs, i);
      var row := FieldRow(starts, gs[i]);
      rows := rows + row;
    }
    assert gs[..|gs|] == gs;
  }

  /** Every row of a per-field pass is the row of one of its groups, and every
      group with a named field and some events has its row there. */
  lemma {:induction false} FieldRowsForMembers(agg: seq<KeyEvent> -> Metrics, starts: map<GroupKey, int>, gs: seq<Group>)
    ensures forall r :: r in FieldRowsFor(agg, starts, gs) ==>
      exists i :: 0 <= i < |gs| && FieldRowOf(agg, starts, gs[i]) == [r]
    ensures forall i :: 0 <= i < |gs| && !SkipsField(gs[i].key) && |gs[i].events| > 0 ==>
      FieldRowOf(agg, starts, gs[i])[0] in FieldRowsFor(agg, starts, gs)
    decreases |gs|
  {
    if |gs| > 0 {
      var init := gs[..|gs| - 1];
      var last := FieldRowOf(agg, starts, gs[|gs| - 1]);
      FieldRowsForMembers(agg, starts, init);
      var rows := FieldRowsFor(agg, starts, gs);
      assert rows == FieldRowsFor(agg, starts, init) + last;
      forall r | r in rows ensures exists i :: 0 <= i < |gs| && FieldRowOf(agg, starts, gs[i]) == [r] {
        if r in last {
          assert last == [r];
        } else {
          var i :| 0 <= i < |init| && FieldRowOf(agg, starts, init[i]) == [r];
          assert gs[i] == init[i];
        }
      }
      forall i | 0 <= i < |gs| && !SkipsField(gs[i].key) && |gs[i].events| > 0
        ensures FieldRowOf(agg, starts, gs[i])[0] in rows
      {
        if i < |init| {
          assert gs[i] == init[i];
        }
      }
    }
  }

  /** A field group lies inside its (session, test) group, whose start is in
      the map and is no later than the field's start. */
  lemma FieldGroupInsideTest(es: seq<KeyEvent>, i: nat)
    requires i < |GroupBy(ByField, es)|
    ensures |GroupBy(ByField, es)[i].events| > 0
    ensures |Members(ByTest, es, TestKeyOf(GroupBy(ByField, es)[i].key))| > 0
    ensures TestKeyOf(GroupBy(ByField, es)[i].key) in TestStarts(es)
    ensures TestStarts(es)[TestKeyOf(GroupBy(ByField, es)[i].key)] ==
      MinTime(Members(ByTest, es, TestKeyOf(GroupBy(ByField, es)[i].key)))
    ensures TestStarts(es)[TestKeyOf(GroupBy(ByField, es)[i].key)] <= MinTime(GroupBy(ByField, es)[i].events)
  {
    GroupByCharacterized(ByField, es);
    var k := GroupBy(ByField, es)[i].key;
    var grp := GroupBy(ByField, es)[i].events;
    assert grp == Members(ByField, es, k);
    MembersCharacterized(ByField, es, k);
    KeysCharacterized(ByTest, es);
    var tk := TestKeyOf(k);
    MinTimeIsMin(grp);
    var a :| 0 <= a < |grp| && grp[a].timeMs == MinTime(grp);
    var e := grp[a];
    assert e in grp;
    assert KeyOf(ByTest, e) == tk;
    assert tk in Keys(ByTest, es);
    var tgrp := Members(ByTest, es, tk);
    MembersCharacterized(ByTest, es, tk);
    KeysHaveMembers(ByTest, es, tk);
    assert e in tgrp;
    var b :| 0 <= b < |tgrp| && tgrp[b] == e;
    MinTimeIsMin(tgrp);
    assert MinTime(tgrp) <= tgrp[b].timeMs;
  }

  /** The row of field group `i`, when it has one: the aggregate of the field's
      events and latency (field's earliest time) - (test's earliest time),
      never negative. */
  lemma FieldRowOfGroup(agg: seq<KeyEvent> -> Metrics, es: seq<KeyEvent>, i: nat)
    requires i < |GroupBy(ByField, es)|
    ensures var k := GroupBy(ByField, es)[i].key;
      GroupBy(ByField, es)[i].events == Members(ByField, es, k) &&
      |Members(ByField, es, k)| > 0 && |Members(ByTest, es, TestKeyOf(k))| > 0 &&
      FieldRowOf(agg, TestStarts(es), GroupBy(ByField, es)[i]) == (if SkipsField(k) then [] else
        [MetricsRow(k, agg(Members(ByField, es, k)),
          Some(MinTime(Members(ByField, es, k)) - MinTime(Members(ByTest, es, TestKeyOf(k)))))]) &&
      MinTime(Members(ByField, es, k)) - MinTime(Members(ByTest, es, TestKeyOf(k))) >= 0
  {
    FieldGroupInsideTest(es, i);
    GroupByCharacterized(ByField, es);
  }

  /** What every per-field row satisfies: it names a non-blank field of the
      log, aggregates that field's events, and carries latency (the field's
      earliest time) - (its test's earliest time), which is never negative. */
  predicate SoundFieldRow(agg: seq<KeyEvent> -> Metrics, es: seq<KeyEvent>, r: MetricsRow)
  {
    r.key in Keys(ByField, es) &&
    r.key.field.Some? && !IsBlank(r.key.field.value) &&
    |Members(ByField, es, r.key)| > 0 && |Members(ByTest, es, TestKeyOf(r.key))| > 0 &&
    r.metrics == agg(Members(ByField, es, r.key)) &&
    r.firstKeyLatencyMs ==
      Some(MinTime(Members(ByField, es, r.key)) - MinTime(Members(ByTest, es, TestKeyOf(r.key)))) &&
    r.firstKeyLatencyMs.value >= 0
  }

  lemma FieldRowSoundAt(agg: seq<KeyEvent> -> Metrics, es: seq<KeyEvent>, i: nat, r: MetricsRow)
    requires i < |GroupBy(ByField, es)|
    requires FieldRowOf(agg, TestStarts(es), GroupBy(ByField, es)[i]) == [r]
    ensures SoundFieldRow(agg, es, r)
  {
    FieldRowOfGroup(agg, es, i);
    GroupByCharacterized(ByField, es);
    var k := GroupBy(ByField, es)[i].key;
    assert !SkipsField(k);
    var lat := MinTime(Members(ByField, es, k)) - MinTime(Members(ByTest, es, TestKeyOf(k)));
    assert [r] == [MetricsRow(k, agg(Members(ByField, es, k)), Some(lat))];
    assert r == MetricsRow(k, agg(Members(ByField, es, k)), Some(lat));
    assert Keys(ByField, es)[i] == k;
  }

  /** Every per-field row is sound. */
  lemma FieldRowsSound(agg: seq<KeyEvent> -> Metrics, es: seq<KeyEvent>)
    ensures forall r :: r in FieldRowsFor(agg, TestStarts(es), GroupBy(ByField, es)) ==> SoundFieldRow(agg, es, r)
  {
    var gs := GroupBy(ByField, es);
    var starts := TestStarts(es);
    FieldRowsForMembers(agg, starts, gs);
    forall r | r in FieldRowsFor(agg, starts, gs) ensures SoundFieldRow(agg, es, r) {
      var i :| 0 <= i < |gs| && FieldRowOf(agg, starts, gs[i]) == [r];
      FieldRowSoundAt(agg, es, i, r);
    }
  }

  /** The event's field, when it has a non-blank name, has a per-field row. */
  lemma FieldRowForEvent(agg: seq<KeyEvent> -> Metrics, es: seq<KeyEvent>, e: KeyEvent)
    requires e in es && e.field.Some? && !IsBlank(e.field.value)
    ensures exists r :: r in FieldRowsFor(agg, TestStarts(es), GroupBy(ByField, es)) && r.key == KeyOf(ByField, e)
  {
    var gs := GroupBy(ByField, es);
    var starts := TestStarts(es);
    GroupByCharacterized(ByField, es);
    var i :| 0 <= i < |gs| && gs[i].key == KeyOf(ByField, e);
    FieldRowOfGroup(agg, es, i);
    assert !SkipsField(gs[i].key);
    FieldRowsForMembers(agg, starts, gs);
    var r := FieldRowOf(agg, starts, gs[i])[0];
    assert r in FieldRowsFor(agg, starts, gs);
    assert r.key == KeyOf(ByField, e);
  }

  /** Every non-blank field name that occurs in the log gets a row. */
  lemma FieldRowsComplete(agg: seq<KeyEvent> -> Metrics, es: seq<KeyEvent>)
    ensures forall e :: e in es && e.field.Some? && !IsBlank(e.field.value) ==>
      exists r :: r in FieldRowsFor(agg, TestStarts(es), GroupBy(ByField, es)) && r.key == KeyOf(ByField, e)
  {
    forall e | e in es && e.field.Some? && !IsBlank(e.field.value)
      ensures exists r :: r in FieldRowsFor(agg, TestStarts(es), GroupBy(ByField, es)) && r.key == KeyOf(ByField, e)
    {
      FieldRowForEvent(agg, es, e);
    }
  }

  /** Groups without a field name produce no per-field rows. */
  lemma {:induction false} UnnamedGroupsNoRows(agg: seq<KeyEvent> -> Metrics, starts: map<GroupKey, int>, gs: seq<Group>)
    requires forall i :: 0 <= i < |gs| ==> gs[i].key.field.None?
    ensures FieldRowsFor(agg, starts, gs) == []
    decreases |gs|
  {
    if |gs| > 0 {
      UnnamedGroupsNoRows(agg, starts, gs[..|gs| - 1]);
    }
  }

  /** A log without any field names yields an empty per-field table (the
      source's "no field_name column" case). */
  lemma NoFieldNamesNoRows(agg: seq<KeyEvent> -> Metrics, es: seq<KeyEvent>)
    requires forall k :: 0 <= k < |es| ==> es[k].field.None?
    ensures FieldRowsFor(agg, TestStarts(es), GroupBy(ByField, es)) == []
  {
    var gs := GroupBy(ByField, es);
    GroupByCharacterized(ByField, es);
    KeysCharacterized(ByField, es);
    forall i | 0 <= i < |gs| ensures gs[i].key.field.None? {
      assert Keys(ByField, es)[i] in Keys(ByField, es);
      var e :| e in es && KeyOf(ByField, e) == Keys(ByField, es)[i];
    }
    UnnamedGroupsNoRows(agg, TestStarts(es), gs);
  }
}

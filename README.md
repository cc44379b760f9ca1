# Keystroke metrics model

This project models in Dafny the keystroke-metrics core of
`analysis/keystroke_stress_analysis.py`. Its input is a log of keydown and
keyup events. Each event carries a session, a test type, an optional form
field, a key and its `pressed_at` time in nanoseconds. The `pressed_at_ms`
column is derived from that time by floor division, as the code does. The core has three layers:

- **Event pairing** is modelled once as two scans over a group's
  time-ordered events. The source writes each scan three times.
  - Key-hold durations (KHD): each keydown scans forward to the first later
    event with the same key. A keyup there yields `t_up - t_down` when that
    lies strictly between 0 and 2000 ms. A keydown there ends the scan
    with no sample.
  - Inter-key intervals (IKI): a single pass tracks the latest pending keyup.
    A keydown with a pending keyup yields the gap when it lies strictly
    between 0 and 5000 ms. The keydown then clears the pending keyup.
  - Each scan is an imperative method with loop invariants that is proved
    equal to a specification function (`Holds`, `Gaps`). The properties are
    proved about those functions. The interval scan is also proved equal to
    an independent reference definition: the latest keyup before a keydown
    with no keydown between them.
- **Per-group aggregation** (`_agg_row` and its inline copy in the per-field
  pass) is modelled as the function `Aggregate`.
  - Counts, duration, pause counts, backspace count and rate, mean hold and
    mean interval, and corrected characters per minute.
  - Rational values are `real`, and a NaN result is `None`.
- **Rollup** has three passes, each a method with a loop proved equal to a
  specification function.
  - One row per (session, test).
  - One row per session, labelled `"overall"`, over all of that session's
    events.
  - One row per (session, test, field) for named, non-blank fields. Each
    such row carries its first-key latency relative to the start of its test.

Files:

- `util.dfy`: the option type, counting, sums and an injection bound.
- `events.dfy`: the event record, the millisecond conversion and the time sort.
  It also defines the three groupings, which play the part of pandas
  `groupby`.
- `pairing.dfy`: the KHD and IKI scans and their properties.
- `aggregate.dfy`: the aggregate row.
- `rollup.dfy`: the three passes and the table-level properties.
- `scenarios.dfy`: small worked logs with the rows the model computes for them.

Design choices that follow the code:

- The thresholds (2000, 5000, 200 and 500 ms) and the `"Backspace"` key are constants.
- The forward scan never starts at a group's last event, because the outer
  loop runs while `i < len(grp) - 1`. `LastEventEmitsNothing` shows that this
  changes no result.
- Groups come in order of first appearance in the time-sorted log, not in a
  sorted key order. Row order carries no meaning downstream.
- Logs are sorted on the full-resolution `pressed_at` time, and only then
  floored to milliseconds. So two events within the same millisecond keep
  their true order (`Scenarios.SubMillisecondOrder`).

The structural lemmas over the tables take the aggregate (the row computed
for a group's events) as a parameter `agg`. The methods instantiate it with
`GroupMetrics`, which pairs the group's events and then applies `Aggregate`.
So a lemma about row keys, row order or latencies holds whatever that
aggregate computes.

## Model

All source paths are `analysis/keystroke_stress_analysis.py`.

| member | source | states |
|---|---|---|
| Events.NanosToMillis | analysis/keystroke_stress_analysis.py:92 | The millisecond value is the floor of nanoseconds / 10^6: `ms * 10^6 <= ns < (ms + 1) * 10^6`. |
| Events.NanosToMillisMonotone | analysis/keystroke_stress_analysis.py:208 | The floor conversion never reorders two timestamps. |
| Events.SortByTimeCorrect | analysis/keystroke_stress_analysis.py:91 | The sorted log is in ascending time order and is a permutation of the input (same multiset of events). |
| Events.SortByTimeKeepsSorted | analysis/keystroke_stress_analysis.py:99 | Sorting a log that is already in time order leaves it unchanged. |
| Events.TimeSortedMillis | analysis/keystroke_stress_analysis.py:92 | A log sorted on `pressed_at` is also in `pressed_at_ms` order. |
| Events.SortByTime | analysis/keystroke_stress_analysis.py:91 | Definition of `sort_values` on `pressed_at`, a stable insertion sort; it keeps the length, and `SortByTimeCorrect` states its meaning. |
| Events.IsPythonSpace | analysis/keystroke_stress_analysis.py:221 | Definition: the characters `str.strip()` removes; it has no contract of its own. |
| Events.IsBlank | analysis/keystroke_stress_analysis.py:221 | Definition: `field.strip() == ""`, meaning every character is one `strip()` removes; it has no contract of its own. |
| Events.Members | analysis/keystroke_stress_analysis.py:98 | Definition: one group of a `groupby`, in log order; it is no longer than the log, and `MembersCharacterized` and `MembersCounted` state its meaning. |
| Events.Keys | analysis/keystroke_stress_analysis.py:156 | Definition: the distinct group keys in order of first appearance; `KeysCharacterized` states its meaning. |
| Events.KeyOf | analysis/keystroke_stress_analysis.py:150-219 | The grouping key of an event: (session, test) per test type, (session, "overall") per session, and (session, test, field) per field. It keeps the event's session, and only the per-field grouping has a field. |
| Events.GroupBy | analysis/keystroke_stress_analysis.py:150 | Definition: the `(key, group)` pairs of a `groupby`, one per distinct key; `GroupByCharacterized`, `GroupByCounted` and `GroupByTotal` state its meaning. |
| Events.MembersCharacterized | analysis/keystroke_stress_analysis.py:98 | As sets: an event is in a group iff it is in the log and has the group's key. |
| Events.MembersCounted | analysis/keystroke_stress_analysis.py:98 | Counting multiplicity: a group holds each event of its key exactly as many times as the log does, and no other event. Its size (the row's n_events) is the number of log events with that key. |
| Events.UnlistedKeyNoMembers | analysis/keystroke_stress_analysis.py:150 | A key that no event has has an empty group. |
| Events.GroupsOfStep | analysis/keystroke_stress_analysis.py:150 | Appending one event to the log adds exactly one event in total to the groups of distinct keys, and only when its key is among them. |
| Events.GroupByTotal | analysis/keystroke_stress_analysis.py:150-153 | The group sizes add up to the size of the log: no event is lost or counted twice. |
| Events.GroupByCounted | analysis/keystroke_stress_analysis.py:150 | Each group holds every event of its key exactly as often as the log does, and no other event. |
| Events.MembersSorted | analysis/keystroke_stress_analysis.py:157 | Selecting one group from a time-sorted log keeps the time order. |
| Events.KeysCharacterized | analysis/keystroke_stress_analysis.py:150 | The group keys are distinct, and a key is listed iff some event has it. |
| Events.KeysHaveMembers | analysis/keystroke_stress_analysis.py:219 | Every listed group key has at least one event. |
| Events.GroupByCharacterized | analysis/keystroke_stress_analysis.py:150 | Group i has the i-th key and holds `Members` of that key, which is nonempty; keys are distinct; every event falls in some group. With `GroupByCounted` and `GroupByTotal` the groups are an exact partition of the log. |
| Pairing.NextSameKey | analysis/keystroke_stress_analysis.py:109-119 | The index found is the first at or after j whose event is a keyup or keydown of the key; None iff there is no such event. |
| Pairing.ScanForRelease | analysis/keystroke_stress_analysis.py:105-119 | The inner `while j` loop returns exactly the sample `HoldAt(es, i)`. |
| Pairing.HoldAt | analysis/keystroke_stress_analysis.py:105-119 | Definition: the sample emitted by the scan from event i; `HoldAtCharacterized` states its meaning. |
| Pairing.PairHoldDurations | analysis/keystroke_stress_analysis.py:103-120 | The outer `while i` loop returns exactly `Holds(es)`, the samples of the scans started at events 0 .. len-2 in order. |
| Pairing.Durations | analysis/keystroke_stress_analysis.py:113 | The duration list has one entry per hold sample, equal to that sample's milliseconds. |
| Pairing.HoldAtCharacterized | analysis/keystroke_stress_analysis.py:104-119 | Event i emits a sample iff it is a keydown, the first later same-key event j is a keyup, and 0 < t_j - t_i < 2000; the sample is (key, t_j - t_i). |
| Pairing.HoldAtUnterminated | analysis/keystroke_stress_analysis.py:109-119 | A keydown whose key never occurs again emits nothing. |
| Pairing.LastEventEmitsNothing | analysis/keystroke_stress_analysis.py:104 | Skipping the last event as a scan start loses no sample. |
| Pairing.Holds | analysis/keystroke_stress_analysis.py:103-120 | Definition: the KHD samples of a group, one scan per start before the last event; `HoldsSound`, `HoldsComplete` and `HoldsCountBounds` state its meaning. |
| Pairing.HoldsSound | analysis/keystroke_stress_analysis.py:104-120 | Every KHD sample comes from a keydown i and the first later same-key event j, which is a keyup with the same key, and equals t_j - t_i in (0, 2000). |
| Pairing.HoldsComplete | analysis/keystroke_stress_analysis.py:104-118 | A keydown whose first later same-key event is a keyup, with a gap in (0, 2000), has its (key, gap) sample among the holds. |
| Pairing.HoldDurationsBounded | analysis/keystroke_stress_analysis.py:111-113 | Every hold duration lies strictly between 0 and 2000. |
| Pairing.HoldsAtMostKeyDowns | analysis/keystroke_stress_analysis.py:105 | The scans of the first n events emit at most one sample per keydown. |
| Pairing.MatchedStep | analysis/keystroke_stress_analysis.py:104-120 | The emitting events among the first n are those among the first n - 1, plus event n - 1 when it emits. |
| Pairing.HoldsCountIsMatched | analysis/keystroke_stress_analysis.py:104-120 | The number of samples equals the number of emitting keydowns. |
| Pairing.MatchIsInjective | analysis/keystroke_stress_analysis.py:109-119 | Two emitting keydowns never stop on the same event, and the event each stops on is a keyup. |
| Pairing.HoldsAtMostKeyUps | analysis/keystroke_stress_analysis.py:109-119 | There are at most as many KHD samples as keyups. |
| Pairing.HoldsCountBounds | analysis/keystroke_stress_analysis.py:109-119 | The number of KHD samples is at most the number of keydowns and at most the number of keyups. |
| Pairing.GapStep | analysis/keystroke_stress_analysis.py:129-135 | Definition: one iteration of the interval loop; `ScanMatchesReference`, `GapAtCharacterized` and `KeyDownClearsPending` state its meaning. |
| Pairing.PairInterKeyIntervals | analysis/keystroke_stress_analysis.py:127-135 | The `for` loop with the mutable `last_keyup_time` returns exactly `Gaps(es)`. |
| Pairing.ScanMatchesReference | analysis/keystroke_stress_analysis.py:127-135 | After n events the scan's samples equal the reference definition (each keydown's gap to the latest keyup before it with no keydown between), and its pending keyup is that reference's pending keyup. |
| Pairing.GapAtCharacterized | analysis/keystroke_stress_analysis.py:129-134 | A keydown d whose latest pending keyup is u emits t_d - t_u exactly when that is in (0, 5000), and nothing otherwise. |
| Pairing.GapAtNoPending | analysis/keystroke_stress_analysis.py:131 | A keydown without a pending keyup emits nothing. |
| Pairing.Gaps | analysis/keystroke_stress_analysis.py:127-135 | Definition: the IKI samples of a group from one pass with a pending keyup time; `ScanMatchesReference` and `GapsSound` state its meaning. |
| Pairing.GapsSound | analysis/keystroke_stress_analysis.py:127-135 | Every IKI sample equals t_d - t_u for a keydown d and the latest keyup u before it, with no keydown or keyup in between. |
| Pairing.GapsBounded | analysis/keystroke_stress_analysis.py:132-134 | Every IKI sample lies strictly between 0 and 5000. |
| Pairing.GapsAtMostKeyDowns | analysis/keystroke_stress_analysis.py:131-135 | There are at most as many IKI samples as keydowns. |
| Pairing.NoKeyUpsMeansNoGaps | analysis/keystroke_stress_analysis.py:129-131 | A group with no keyup yields no IKI sample. |
| Pairing.KeyDownClearsPending | analysis/keystroke_stress_analysis.py:135 | Any keydown leaves no pending keyup, whether or not its gap was kept. So a later event with no keyup in between emits no gap. |
| Pairing.OverlappingPressesNoGap | analysis/keystroke_stress_analysis.py:128-135 | After a keydown d, a run of events up to n with no keyup among them leaves the scan state exactly as it was after d, with no pending keyup. So overlapping presses add no interval. |
| Aggregation.MinTime | analysis/keystroke_stress_analysis.py:274 | Definition of `times.min()`; `MinTimeIsMin` states its meaning. |
| Aggregation.MaxTime | analysis/keystroke_stress_analysis.py:58 | Definition of `times.max()`; `MaxTimeIsMax` states its meaning. |
| Aggregation.DurationMs | analysis/keystroke_stress_analysis.py:263 | Definition of `duration_ms`: max - min with 2 or more events, else 0. Its `nat` result type requires it to be non-negative, and `DurationIsSpan` states its value on a sorted group. |
| Aggregation.Mean | analysis/keystroke_stress_analysis.py:70 | The mean is absent iff there are no samples; otherwise mean times count equals the sum. |
| Aggregation.MinTimeIsMin | analysis/keystroke_stress_analysis.py:274 | `times.min()` is at most every timestamp of the group and is attained by one of them. |
| Aggregation.MaxTimeIsMax | analysis/keystroke_stress_analysis.py:58 | `times.max()` is at least every timestamp of the group and is attained by one of them. |
| Aggregation.DurationIsSpan | analysis/keystroke_stress_analysis.py:58 | For a time-sorted group of at least 2 events, duration_ms is the last timestamp minus the first. |
| Aggregation.CpmRewrite | analysis/keystroke_stress_analysis.py:80 | `typed / (duration_ms / 60000)` equals `typed * 60000 / duration_ms`. |
| Aggregation.BackspaceRate | analysis/keystroke_stress_analysis.py:79 | The rate is in [0, 1] and is 0 iff there is no backspace. When keydowns exist, rate times keydowns equals the backspace count. |
| Aggregation.Cpm | analysis/keystroke_stress_analysis.py:80 | cpm is absent iff the duration is 0, and otherwise equals `typed * 60000 / duration_ms` and is non-negative. |
| Aggregation.Aggregate | analysis/keystroke_stress_analysis.py:55-81 | n_events is the group size; backspace_count <= n_keydowns <= n_events; duration_ms >= 0, and 0 below 2 events; rate 0 iff no backspace and in [0, 1]; cpm absent iff duration 0, else the corrected-characters formula; pause_500 <= pause_200 <= IKI samples; each mean absent iff its sample list is empty. |
| Aggregation.MeanBounded | analysis/keystroke_stress_analysis.py:70 | The mean of a nonempty sample list whose samples all lie in (lo, hi) is present and lies in (lo, hi). |
| Aggregation.GroupMetrics | analysis/keystroke_stress_analysis.py:150-153 | Definition: aggregate a group with its own KHD and IKI samples; `GroupMetricsProperties` and `Aggregate` state its meaning. |
| Aggregation.GroupMetricsProperties | analysis/keystroke_stress_analysis.py:62-73 | For a group's own paired samples: KHD count <= keydowns and <= keyups; pause_200 <= IKI count <= keydowns; mean KHD present iff samples exist, then in (0, 2000); mean IKI present iff samples exist, then in (0, 5000). |
| Rollup.ComputeGroupMetrics | analysis/keystroke_stress_analysis.py:150-153 | Pairing one group's events and aggregating them gives `GroupMetrics` of the group. |
| Rollup.RollupPass | analysis/keystroke_stress_analysis.py:149-153 | The pass appends one row per group, in group order: exactly `RowsFor(GroupMetrics, gs)`. |
| Rollup.ComputeKeystrokeMetrics | analysis/keystroke_stress_analysis.py:84-192 | The result is the per-test rows of the sorted log followed by its per-session overall rows. |
| Rollup.GroupsTimeSorted | analysis/keystroke_stress_analysis.py:99 | Every group of the sorted log is in time order. |
| Rollup.RowsForIndex | analysis/keystroke_stress_analysis.py:150-153 | Row i of a pass has group i's key, group i's aggregate and no latency. |
| Rollup.SessionGroupsOverall | analysis/keystroke_stress_analysis.py:190 | Every per-session group carries the test label "overall". |
| Rollup.PassesConcatenated | analysis/keystroke_stress_analysis.py:153-190 | In two passes written one after the other, the first pass's rows come first, and row i of the second pass sits at offset \|first\| + i. |
| Rollup.MetricsTable | analysis/keystroke_stress_analysis.py:149-192 | Definition: the per-test rows followed by the per-session overall rows; `MetricsTableShape` states its meaning. |
| Rollup.MetricsTableShape | analysis/keystroke_stress_analysis.py:149-192 | The table has one row per (session, test) group, in order, then one per session; none carries a latency; every session row is labelled "overall". |
| Rollup.TestStarts | analysis/keystroke_stress_analysis.py:211-215 | Definition of `test_start_ms`, the earliest time of each (session, test) group; `TestStartsCharacterized` states its meaning. |
| Rollup.TestStartsCharacterized | analysis/keystroke_stress_analysis.py:211-215 | `test_start_ms` has an entry exactly for each (session, test) of the log. Each entry is at most the time of every event of that test and equals the time of one of them. |
| Rollup.SkipsField | analysis/keystroke_stress_analysis.py:221 | Definition: a field group is skipped when its name is missing or blank; `FieldRowOfGroup` and `UnnamedGroupsNoRows` state its consequences. |
| Rollup.FieldRowOf | analysis/keystroke_stress_analysis.py:219-297 | A field group yields at most one row. |
| Rollup.FieldRow | analysis/keystroke_stress_analysis.py:219-297 | One iteration of the per-field loop gives exactly `FieldRowOf(GroupMetrics, starts, gr)`: nothing for a missing, blank or empty field, otherwise the field's row with latency `min - test start`. |
| Rollup.FieldRowsForStep | analysis/keystroke_stress_analysis.py:297 | One more field group appends that group's row, if it has one, at the end. |
| Rollup.FieldPass | analysis/keystroke_stress_analysis.py:217-297 | The per-field loop collects exactly `FieldRowsFor(GroupMetrics, starts, gs)`. |
| Rollup.ComputeKeystrokeMetricsByField | analysis/keystroke_stress_analysis.py:195-303 | The result is the per-field table of the sorted log. |
| Rollup.FieldRowsForMembers | analysis/keystroke_stress_analysis.py:217-297 | Every emitted row is the row of one field group, and every named, non-blank, nonempty field group has its row among them. |
| Rollup.FieldGroupInsideTest | analysis/keystroke_stress_analysis.py:211-215 | A field group's test is in `test_start_ms`, and that test's start is at most the field's first time. |
| Rollup.FieldRowOfGroup | analysis/keystroke_stress_analysis.py:274-275 | Field group i yields no row when its name is missing or blank. Otherwise it yields its aggregate, with latency equal to the field's earliest time minus its test's earliest time, and that latency is at least 0. |
| Rollup.FieldRowSoundAt | analysis/keystroke_stress_analysis.py:221-297 | A row emitted for field group i names a non-blank field of the log, aggregates exactly that field's events and has a latency >= 0 equal to the field's minimum minus its test's minimum. |
| Rollup.FieldRowsSound | analysis/keystroke_stress_analysis.py:219-297 | Every per-field row satisfies the property of `FieldRowSoundAt`. |
| Rollup.FieldRowForEvent | analysis/keystroke_stress_analysis.py:219-222 | An event whose field name is present and non-blank has its field's row. |
| Rollup.FieldRowsComplete | analysis/keystroke_stress_analysis.py:219-222 | Every non-blank field name occurring in the log has a per-field row. |
| Rollup.FieldTable | analysis/keystroke_stress_analysis.py:217-303 | Definition: the rows of the per-field pass over all field groups, aggregated with `GroupMetrics`. `FieldRowsSound`, `FieldRowsComplete` and `NoFieldNamesNoRows` state its meaning for any aggregate function, and so for this one. |
| Rollup.UnnamedGroupsNoRows | analysis/keystroke_stress_analysis.py:221-222 | Groups without a field name contribute no row. |
| Rollup.NoFieldNamesNoRows | analysis/keystroke_stress_analysis.py:299-301 | A log with no field name at all gives an empty per-field table. |
| Scenarios.SinglePressHold | analysis/keystroke_stress_analysis.py:110-115 | A 100 ms press gives the single hold sample ("a", 100), and its group's mean_khd_ms is 100. |
| Scenarios.SubMillisecondOrder | analysis/keystroke_stress_analysis.py:99-113 | A keyup at 100.3 ms listed after a keydown at 100.7 ms is sorted before it. The keydown then pairs with the keyup at 300 ms, a 200 ms hold. |
| Scenarios.StuckKeyDiscarded | analysis/keystroke_stress_analysis.py:112 | A 2500 ms press gives no hold sample. |
| Scenarios.TwoPressesGap | analysis/keystroke_stress_analysis.py:129-135 | Releasing at 80 ms and pressing at 110 ms gives the single interval 30. |
| Scenarios.SingleEventRow | analysis/keystroke_stress_analysis.py:58 | One event gives duration 0 and an absent cpm. |
| Scenarios.CorrectionRate | analysis/keystroke_stress_analysis.py:79-80 | For a log of five keydowns over 60 s, one of them a backspace, the group's row has rate 0.2 and cpm 4. |
| Scenarios.BlankFieldSkipped | analysis/keystroke_stress_analysis.py:221 | A whitespace-only field name yields no row. |
| Scenarios.FieldLatency | analysis/keystroke_stress_analysis.py:274-275 | A field first typed at 2000 ms in a test that started at 500 ms has latency 1500. |

## Left out

- CSV loading, column normalisation and timestamp parsing are not modelled: they are I/O and library parsing. The model starts from event records whose `pressed_at` is an integer count of nanoseconds. `NanosToMillis` derives `pressed_at_ms` from it.
- The required-column check is not modelled. Neither is the per-field pass's early return when `field_name` is missing as a column: every event record in the model has the field attribute.
- `sd_*` and `cv_*` are not modelled. They need a floating-point square root, and the file mixes sample and population standard deviation.
- Floating-point rounding is not modelled. Means, rates, `duration_sec` and cpm are exact `real` values.
- The stress-table merge, the Pearson correlations, the quantile summaries, all printing and the plotting are not modelled. They are foreign library calls or reporting.
- The `key_list` and `session_test` side lists are not modelled as separate lists. Each hold sample carries its key instead, and every sample is computed inside its own group.
- Per-test pass: the source pairs samples for all groups first and then selects each group's samples by (session, test). The model pairs each group directly. Both give the same samples, because pairing runs group by group.
- SortByTime: events with exactly equal `pressed_at` nanosecond values stay in input order. pandas' default sort does not promise any order for such ties. Events that differ below the millisecond are ordered by their full time, as in the code.
- Row order: groups come in order of first appearance in the sorted log, where pandas lists group keys in sorted key order.
- The empty in-memory tables that the source returns when there are no samples or no field rows are modelled as empty sequences.
- The fallback of `.get` to the field's own minimum is modelled in `FieldRowOf`. `FieldGroupInsideTest` shows that the fallback is never taken.

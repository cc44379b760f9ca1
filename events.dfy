/** The keystroke event log: one record per keydown / keyup, with the session,
    the test it belongs to, an optional form field, the key and its full-resolution
    `pressed_at` time in nanoseconds, from which the millisecond time is derived. Also the three grouping keys the rollup uses. */
module Events {
  import opened Util

  /** `event_type`. Values other than "keydown" and "keyup" are kept, since
      they still count as events, but no pairing rule ever matches them. */
  datatype EventType = KeyDown | KeyUp | Other(name: string)

  datatype KeyEvent = KeyEvent(
    session: string,
    test: string,
    field: Option<string>,   // None stands for a missing (NaN) field_name
    kind: EventType,
    key: string,
    pressedAtNs: int         // pressed_at, in nanoseconds since the epoch
  ) {
    /** The pressed_at_ms column, derived from the full-resolution time. */
    const timeMs: int := NanosToMillis(pressedAtNs)
  }

  /** The key identifier whose keydowns count as corrections. */
  const BackspaceKey: string := "Backspace"

  predicate IsKeyDown(e: KeyEvent) { e.kind == KeyDown }

  predicate IsKeyUp(e: KeyEvent) { e.kind == KeyUp }

  predicate IsBackspaceDown(e: KeyEvent) { e.kind == KeyDown && e.key == BackspaceKey }

  /** Ascending `pressed_at` order, the order every group is processed in. */
  predicate TimeSorted(es: seq<KeyEvent>)
  {
    forall a, b :: 0 <= a < b < |es| ==> es[a].pressedAtNs <= es[b].pressedAtNs
  }

  /** Places `x` after every event of `s` that is not later than it. */
  function InsertByTime(s: seq<KeyEvent>, x: KeyEvent): (r: seq<KeyEvent>)
    ensures |r| == |s| + 1
    decreases |s|
  {
    if |s| == 0 || s[|s| - 1].pressedAtNs <= x.pressedAtNs then s + [x]
    else InsertByTime(s[..|s| - 1], x) + [s[|s| - 1]]
  }

  /** `sort_values("pressed_at")` on the full-resolution time, as a stable
      insertion sort. */
  function SortByTime(es: seq<KeyEvent>): (r: seq<KeyEvent>)
    ensures |r| == |es|
    decreases |es|
  {
    if |es| == 0 then [] else InsertByTime(SortByTime(es[..|es| - 1]), es[|es| - 1])
  }

  lemma {:induction false} InsertByTimePermutes(s: seq<KeyEvent>, x: KeyEvent)
    ensures multiset(InsertByTime(s, x)) == multiset(s) + multiset{x}
    decreases |s|
  {
    if |s| > 0 && s[|s| - 1].pressedAtNs > x.pressedAtNs {
      var init := s[..|s| - 1];
      InsertByTimePermutes(init, x);
      assert s == init + [s[|s| - 1]];
    }
  }

  lemma {:induction false} InsertByTimeSorted(s: seq<KeyEvent>, x: KeyEvent)
    requires TimeSorted(s)
    ensures TimeSorted(InsertByTime(s, x))
    decreases |s|
  {
    if |s| > 0 && s[|s| - 1].pressedAtNs > x.pressedAtNs {
      var init := s[..|s| - 1];
      var last := s[|s| - 1];
      InsertByTimeSorted(init, x);
      var r := InsertByTime(init, x);
      InsertByTimePermutes(init, x);
      forall k | 0 <= k < |r| ensures r[k].pressedAtNs <= last.pressedAtNs {
        assert r[k] in multiset(r);
        assert r[k] == x || r[k] in multiset(init);
        if r[k] != x {
          var a :| 0 <= a < |init| && init[a] == r[k];
        }
      }
    }
  }

  /** The sorted log is in time order and holds exactly the input's events. */
  lemma {:induction false} SortByTimeCorrect(es: seq<KeyEvent>)
    ensures TimeSorted(SortByTime(es))
    ensures multiset(SortByTime(es)) == multiset(es)
    decreases |es|
  {
    if |es| > 0 {
      var init := es[..|es| - 1];
      SortByTimeCorrect(init);
      InsertByTimeSorted(SortByTime(init), es[|es| - 1]);
      InsertByTimePermutes(SortByTime(init), es[|es| - 1]);
      assert es == init + [es[|es| - 1]];
    }
  }

  /** A log already in time order is left as it is. */
  lemma {:induction false} SortByTimeKeepsSorted(es: seq<KeyEvent>)
    requires TimeSorted(es)
    ensures SortByTime(es) == es
    decreases |es|
  {
    if |es| > 0 {
      var init := es[..|es| - 1];
      assert TimeSorted(init);
      SortByTimeKeepsSorted(init);
    }
  }

  /** `pressed_at.astype(np.int64) // 10**6`: nanoseconds since the epoch to
      milliseconds, rounding toward negative infinity. */
  function NanosToMillis(ns: int): (ms: int)
    ensures ms * 1000000 <= ns < (ms + 1) * 1000000
  {
    ns / 1000000
  }

  /** Floor conversion never reorders timestamps. */
  lemma NanosToMillisMonotone(a: int, b: int)
    requires a <= b
    ensures NanosToMillis(a) <= NanosToMillis(b)
  {
  }

  /** A log sorted on `pressed_at` is in millisecond order too, though events
      a millisecond apart or less may share one `pressed_at_ms` value. */
  lemma TimeSortedMillis(es: seq<KeyEvent>)
    requires TimeSorted(es)
    ensures forall a, b :: 0 <= a < b < |es| ==> es[a].timeMs <= es[b].timeMs
  {
    forall a, b | 0 <= a < b < |es| ensures es[a].timeMs <= es[b].timeMs {
      NanosToMillisMonotone(es[a].pressedAtNs, es[b].pressedAtNs);
    }
  }

  /** Characters Python's `str.strip()` removes (those `str.isspace()` accepts). */
  predicate IsPythonSpace(c: char)
  {
    c == ' ' || ('\t' <= c <= '\r') || ('\U{1C}' <= c <= '\U{1F}') ||
    c == '\U{85}' || c == '\U{A0}' || c == '\U{1680}' ||
    ('\U{2000}' <= c <= '\U{200A}') || c == '\U{2028}' || c == '\U{2029}' ||
    c == '\U{202F}' || c == '\U{205F}' || c == '\U{3000}'
  }

  /** `field.strip() == ""`: the name is empty or whitespace only. */
  predicate IsBlank(s: string)
  {
    forall k :: 0 <= k < |s| ==> IsPythonSpace(s[k])
  }

  /** The three granularities of the rollup. */
  datatype Grouping = ByTest | BySession | ByField

  /** A group's identity. Session groups carry the literal test label "overall";
      only field groups carry a field. */
  datatype GroupKey = GroupKey(session: string, test: string, field: Option<string>)

  const OverallLabel: string := "overall"

  function KeyOf(g: Grouping, e: KeyEvent): (k: GroupKey)
    ensures k.session == e.session
    ensures k.field.Some? ==> g == ByField
  {
    match g
    case ByTest => GroupKey(e.session, e.test, None)
    case BySession => GroupKey(e.session, OverallLabel, None)
    case ByField => GroupKey(e.session, e.test, e.field)
  }

  /** The events of one group, in input order (`df.groupby(...)` followed by
      the group's own time sort, given a time-sorted input). */
  function Members(g: Grouping, es: seq<KeyEvent>, k: GroupKey): (r: seq<KeyEvent>)
    ensures |r| <= |es|
    decreases |es|
  {
    if |es| == 0 then []
    else
      var last := es[|es| - 1];
      Members(g, es[..|es| - 1], k) + (if KeyOf(g, last) == k then [last] else [])
  }

  /** A group holds exactly the events with its key. */
  lemma {:induction false} MembersCharacterized(g: Grouping, es: seq<KeyEvent>, k: GroupKey)
    ensures forall e :: e in Members(g, es, k) <==> e in es && KeyOf(g, e) == k
    decreases |es|
  {
    if |es| > 0 {
      var init := es[..|es| - 1];
      MembersCharacterized(g, init, k);
      assert es == init + [es[|es| - 1]];
    }
  }

  /** A group holds each event with its key as many times as the log does,
      and nothing else, so its size is the number of events with that key. */
  lemma MembersCounted(g: Grouping, es: seq<KeyEvent>, k: GroupKey)
    ensures forall e :: multiset(Members(g, es, k))[e] == if KeyOf(g, e) == k then multiset(es)[e] else 0
    ensures |Members(g, es, k)| == Count(es, (e: KeyEvent) => KeyOf(g, e) == k)
  {
    MembersMultiset(g, es, k);
    MembersSize(g, es, k);
  }

  lemma {:induction false} MembersMultiset(g: Grouping, es: seq<KeyEvent>, k: GroupKey)
    ensures forall e :: multiset(Members(g, es, k))[e] == if KeyOf(g, e) == k then multiset(es)[e] else 0
    decreases |es|
  {
    if |es| > 0 {
      var init := es[..|es| - 1];
      var last := es[|es| - 1];
      MembersMultiset(g, init, k);
      assert es == init + [last];
      assert multiset(es) == multiset(init) + multiset{last};
      var tail := if KeyOf(g, last) == k then [last] else [];
      assert Members(g, es, k) == Members(g, init, k) + tail;
      assert multiset(Members(g, es, k)) == multiset(Members(g, init, k)) + multiset(tail);
    }
  }

  lemma {:induction false} MembersSize(g: Grouping, es: seq<KeyEvent>, k: GroupKey)
    ensures |Members(g, es, k)| == Count(es, (e: KeyEvent) => KeyOf(g, e) == k)
    decreases |es|
  {
    if |es| > 0 {
      MembersSize(g, es[..|es| - 1], k);
    }
  }

  /** Selecting a group keeps the time order. */
  lemma {:induction false} MembersSorted(g: Grouping, es: seq<KeyEvent>, k: GroupKey)
    requires TimeSorted(es)
    ensures TimeSorted(Members(g, es, k))
    decreases |es|
  {
    if |es| > 0 {
      var init := es[..|es| - 1];
      assert TimeSorted(init);
      MembersSorted(g, init, k);
      MembersCharacterized(g, init, k);
      var last := es[|es| - 1];
      if KeyOf(g, last) == k {
        var m := Members(g, init, k);
        forall a | 0 <= a < |m| ensures m[a].pressedAtNs <= last.pressedAtNs {
          assert m[a] in init;
        }
      }
    }
  }

  /** The distinct group keys, in order of first appearance. */
  function Keys(g: Grouping, es: seq<KeyEvent>): seq<GroupKey>
    decreases |es|
  {
    if |es| == 0 then []
    else
      var ks := Keys(g, es[..|es| - 1]);
      var k := KeyOf(g, es[|es| - 1]);
      if k in ks then ks else ks + [k]
  }

  /** The key list has no duplicates, lists the key of every event, and lists
      nothing else. */
  lemma {:induction false} KeysCharacterized(g: Grouping, es: seq<KeyEvent>)
    ensures forall a, b :: 0 <= a < b < |Keys(g, es)| ==> Keys(g, es)[a] != Keys(g, es)[b]
    ensures forall k :: k in Keys(g, es) <==> exists e :: e in es && KeyOf(g, e) == k
    decreases |es|
  {
    if |es| > 0 {
      var init := es[..|es| - 1];
      KeysCharacterized(g, init);
      assert es == init + [es[|es| - 1]];
    }
  }

  /** Every listed group has at least one event. */
  lemma KeysHaveMembers(g: Grouping, es: seq<KeyEvent>, k: GroupKey)
    requires k in Keys(g, es)
    ensures |Members(g, es, k)| > 0
  {
    KeysCharacterized(g, es);
    MembersCharacterized(g, es, k);
    var e :| e in es && KeyOf(g, e) == k;
    assert e in Members(g, es, k);
  }

  /** One `(key, group)` pair of `df.groupby(...)`. */
  datatype Group = Group(key: GroupKey, events: seq<KeyEvent>)

  /** The groups of the keys `ks`, in that order. */
  function GroupsOf(g: Grouping, es: seq<KeyEvent>, ks: seq<GroupKey>): (gs: seq<Group>)
    ensures |gs| == |ks|
  {
    if |ks| == 0 then [] else GroupsOf(g, es, ks[..|ks| - 1]) + [Group(ks[|ks| - 1], Members(g, es, ks[|ks| - 1]))]
  }

  /** Every group of the grouping, one per distinct key. */
  function GroupBy(g: Grouping, es: seq<KeyEvent>): (gs: seq<Group>)
    ensures |gs| == |Keys(g, es)|
  {
    GroupsOf(g, es, Keys(g, es))
  }

  lemma {:induction false} GroupsOfIndex(g: Grouping, es: seq<KeyEvent>, ks: seq<GroupKey>)
    ensures forall i :: 0 <= i < |ks| ==> GroupsOf(g, es, ks)[i] == Group(ks[i], Members(g, es, ks[i]))
    decreases |ks|
  {
    if |ks| > 0 {
      GroupsOfIndex(g, es, ks[..|ks| - 1]);
    }
  }

  /** A key that is not listed has an empty group. */
  lemma {:induction false} UnlistedKeyNoMembers(g: Grouping, es: seq<KeyEvent>, k: GroupKey)
    requires k !in Keys(g, es)
    ensures Members(g, es, k) == []
    decreases |es|
  {
    if |es| > 0 {
      UnlistedKeyNoMembers(g, es[..|es| - 1], k);
    }
  }

  /** Total number of events over the groups `gs`. */
  function TotalEvents(gs: seq<Group>): nat
  {
    if |gs| == 0 then 0 else TotalEvents(gs[..|gs| - 1]) + |gs[|gs| - 1].events|
  }

  /** Adding one event to the log adds one event in total to the groups of
      the distinct keys `ks` when its key is among them, and none otherwise. */
  lemma {:induction false} GroupsOfStep(g: Grouping, es: seq<KeyEvent>, ks: seq<GroupKey>)
    requires |es| > 0
    requires forall a, b :: 0 <= a < b < |ks| ==> ks[a] != ks[b]
    ensures TotalEvents(GroupsOf(g, es, ks)) ==
      TotalEvents(GroupsOf(g, es[..|es| - 1], ks)) + (if KeyOf(g, es[|es| - 1]) in ks then 1 else 0)
    decreases |ks|
  {
    if |ks| > 0 {
      var init := ks[..|ks| - 1];
      var k := ks[|ks| - 1];
      var pre := es[..|es| - 1];
      var key := KeyOf(g, es[|es| - 1]);
      assert forall a :: 0 <= a < |init| ==> init[a] == ks[a];
      GroupsOfStep(g, es, init);
      LastGroupStep(g, es, k);
      var gs := GroupsOf(g, es, ks);
      var gp := GroupsOf(g, pre, ks);
      assert gs[..|ks| - 1] == GroupsOf(g, es, init);
      assert gp[..|ks| - 1] == GroupsOf(g, pre, init);
      assert TotalEvents(gs) == TotalEvents(GroupsOf(g, es, init)) + |Members(g, es, k)|;
      assert TotalEvents(gp) == TotalEvents(GroupsOf(g, pre, init)) + |Members(g, pre, k)|;
      assert (key in ks) == (key in init || key == k) by { assert ks == init + [k]; }
      assert key == k ==> key !in init;
    }
  }

  /** The last event of a log adds one member to the group of its key. */
  lemma LastGroupStep(g: Grouping, es: seq<KeyEvent>, k: GroupKey)
    requires |es| > 0
    ensures |Members(g, es, k)| == |Members(g, es[..|es| - 1], k)| + (if KeyOf(g, es[|es| - 1]) == k then 1 else 0)
  {
  }

  /** No event is lost or counted twice: the group sizes add up to the size
      of the log (`n_events` summed over the groups). */
  lemma {:induction false} GroupByTotal(g: Grouping, es: seq<KeyEvent>)
    ensures TotalEvents(GroupBy(g, es)) == |es|
    decreases |es|
  {
    if |es| > 0 {
      var init := es[..|es| - 1];
      var k := KeyOf(g, es[|es| - 1]);
      GroupByTotal(g, init);
      KeysCharacterized(g, es);
      KeysCharacterized(g, init);
      var ks, ks0 := Keys(g, es), Keys(g, init);
      assert k in ks by {
        assert es[|es| - 1] in es;
      }
      GroupsOfStep(g, es, ks);
      if k !in ks0 {
        assert ks == ks0 + [k];
        UnlistedKeyNoMembers(g, init, k);
        assert GroupsOf(g, init, ks)[..|ks0|] == GroupsOf(g, init, ks0);
      }
    }
  }

  /** The groups partition the log: group `i` has the `i`-th key and holds
      exactly the events with that key, at least one; keys are distinct; and
      every event falls in some group. */
  lemma GroupByCharacterized(g: Grouping, es: seq<KeyEvent>)
    ensures forall i :: 0 <= i < |GroupBy(g, es)| ==>
      GroupBy(g, es)[i].key == Keys(g, es)[i] &&
      GroupBy(g, es)[i].events == Members(g, es, Keys(g, es)[i]) &&
      |GroupBy(g, es)[i].events| > 0
    ensures forall i, j :: 0 <= i < j < |GroupBy(g, es)| ==> GroupBy(g, es)[i].key != GroupBy(g, es)[j].key
    ensures forall e :: e in es ==> exists i :: 0 <= i < |GroupBy(g, es)| && GroupBy(g, es)[i].key == KeyOf(g, e)
  {
    var ks := Keys(g, es);
    var gs := GroupBy(g, es);
    GroupsOfIndex(g, es, ks);
    KeysCharacterized(g, es);
    forall i | 0 <= i < |gs| ensures |gs[i].events| > 0 {
      KeysHaveMembers(g, es, ks[i]);
    }
    forall e | e in es ensures exists i :: 0 <= i < |gs| && gs[i].key == KeyOf(g, e) {
      assert KeyOf(g, e) in ks;
      var i :| 0 <= i < |ks| && ks[i] == KeyOf(g, e);
      assert gs[i].key == KeyOf(g, e);
    }
  }

  /** Each group holds every event of its key exactly as often as the log
      does; with `GroupByCharacterized` (distinct keys, every event in some
      group) and `GroupByTotal` this makes the groups an exact partition. */
  lemma GroupByCounted(g: Grouping, es: seq<KeyEvent>)
    ensures forall i, e :: 0 <= i < |GroupBy(g, es)| ==>
      multiset(GroupBy(g, es)[i].events)[e] == if KeyOf(g, e) == GroupBy(g, es)[i].key then multiset(es)[e] else 0
  {
    var gs := GroupBy(g, es);
    GroupByCharacterized(g, es);
    forall i | 0 <= i < |gs| ensures forall e :: multiset(gs[i].events)[e] == if KeyOf(g, e) == gs[i].key then multiset(es)[e] else 0 {
      MembersCounted(g, es, Keys(g, es)[i]);
    }
  }
}

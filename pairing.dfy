/** Event pairing for one group of events: key-hold durations (KHD), each a
    keydown matched to the first later event of the same key when that event
    is a keyup, and inter-key intervals (IKI), each the gap from the most
    recent pending keyup to the next keydown. Each scan is a method with the
    source's loops, proved equal to a specification function; the lemmas
    below give the specification functions their meaning. */
module Pairing {
  import opened Util
  import opened Events

  /** A hold of this length or longer is a stuck key and is discarded. */
  const MaxHoldMs: int := 2000
  /** A gap of this length or longer is a break and is discarded. */
  const MaxGapMs: int := 5000

  /** One key-hold sample: the key and its hold time in milliseconds. */
  datatype Hold = Hold(key: string, ms: int)

  // ---------------------------------------------------------------------
  // Key-hold durations
  // ---------------------------------------------------------------------

  /** An event that ends the forward scan started by a keydown of `key`. */
  predicate EndsScan(e: KeyEvent, key: string)
  {
    (e.kind == KeyDown || e.kind == KeyUp) && e.key == key
  }

  /** `j` is the first event after `i` that ends the scan of `i`'s key. */
  ghost predicate FirstAfter(es: seq<KeyEvent>, i: nat, j: nat)
  {
    i < j < |es| && EndsScan(es[j], es[i].key) &&
    forall k :: i < k < j ==> !EndsScan(es[k], es[i].key)
  }

  /** Index of the first event at or after `j` that ends a scan for `key`. */
  function NextSameKey(es: seq<KeyEvent>, key: string, j: nat): (r: Option<nat>)
    ensures r.Some? ==> j <= r.value < |es| && EndsScan(es[r.value], key)
    ensures r.Some? ==> forall k :: j <= k < r.value ==> !EndsScan(es[k], key)
    ensures r.None? ==> forall k :: j <= k < |es| ==> !EndsScan(es[k], key)
    decreases |es| - j
  {
    if j >= |es| then None
    else if EndsScan(es[j], key) then Some(j)
    else NextSameKey(es, key, j + 1)
  }

  /** The sample, if any, that the scan started at event `i` emits. */
  function HoldAt(es: seq<KeyEvent>, i: nat): Option<Hold>
    requires i < |es|
  {
    if es[i].kind != KeyDown then None
    else
      match NextSameKey(es, es[i].key, i + 1)
      case None => None
      case Some(j) =>
        var khd := es[j].timeMs - es[i].timeMs;
        if es[j].kind == KeyUp && 0 < khd < MaxHoldMs then Some(Hold(es[i].key, khd)) else None
  }

  function OptionSeq<T>(o: Option<T>): seq<T>
  {
    match o
    case None => []
    case Some(x) => [x]
  }

  /** Samples of the scans started at events `0 .. n-1`, in that order. */
  function HoldsUpTo(es: seq<KeyEvent>, n: nat): seq<Hold>
    requires n <= |es|
  {
    if n == 0 then [] else HoldsUpTo(es, n - 1) + OptionSeq(HoldAt(es, n - 1))
  }

  /** The outer loop runs while `i < len(grp) - 1`: the last event never starts a scan. */
  function ScanLimit(es: seq<KeyEvent>): nat
  {
    if |es| == 0 then 0 else |es| - 1
  }

  /** All key-hold samples of a group. */
  function Holds(es: seq<KeyEvent>): seq<Hold>
  {
    HoldsUpTo(es, ScanLimit(es))
  }

  function Durations(hs: seq<Hold>): (ds: seq<int>)
    ensures |ds| == |hs|
    ensures forall k :: 0 <= k < |hs| ==> ds[k] == hs[k].ms
  {
    if |hs| == 0 then [] else Durations(hs[..|hs| - 1]) + [hs[|hs| - 1].ms]
  }

  /** The inner `while j` loop: scan forward from a keydown for the first
      event of the same key, and emit its hold time if it is a keyup in range. */
  method ScanForRelease(es: seq<KeyEvent>, i: nat) returns (sample: Option<Hold>)
    requires i < |es| && es[i].kind == KeyDown
    ensures sample == HoldAt(es, i)
  {
    var key := es[i].key;
    var tDown := es[i].timeMs;
    sample := None;
    var j := i + 1;
    while j < |es|
      invariant i + 1 <= j <= |es|
      invariant NextSameKey(es, key, i + 1) == NextSameKey(es, key, j)
    {
      if es[j].kind == KeyUp && es[j].key == key {
        var khd := es[j].timeMs - tDown;
        if 0 < khd < MaxHoldMs {
          sample := Some(Hold(key, khd));
        }
        return;
      }
      if es[j].kind == KeyDown && es[j].key == key {
        return;
      }
      j := j + 1;
    }
  }

  /** The outer `while i` loop of the source, appending each scan's sample. */
  method PairHoldDurations(es: seq<KeyEvent>) returns (holds: seq<Hold>)
    ensures holds == Holds(es)
  {
    holds := [];
    var i := 0;
    while i < |es| - 1
      invariant 0 <= i <= ScanLimit(es)
      invariant holds == HoldsUpTo(es, i)
    {
      if es[i].kind == KeyDown {
        var sample := ScanForRelease(es, i);
        holds := holds + OptionSeq(sample);
      }
      i := i + 1;
    }
  }

  /** What a scan emits, stated without the scan: a keydown emits exactly when
      the first later event of its key is a keyup whose time gap lies in
      (0, MaxHoldMs), and the sample is that gap. */
  lemma HoldAtCharacterized(es: seq<KeyEvent>, i: nat, j: nat)
    requires FirstAfter(es, i, j)
    ensures HoldAt(es, i).Some? <==>
      IsKeyDown(es[i]) && IsKeyUp(es[j]) && 0 < es[j].timeMs - es[i].timeMs < MaxHoldMs
    ensures HoldAt(es, i).Some? ==> HoldAt(es, i).value == Hold(es[i].key, es[j].timeMs - es[i].timeMs)
  {
    if IsKeyDown(es[i]) {
      var r := NextSameKey(es, es[i].key, i + 1);
      assert r.Some? && r.value == j;
    }
  }

  /** A keydown whose key never occurs again as a keydown or keyup emits nothing. */
  lemma HoldAtUnterminated(es: seq<KeyEvent>, i: nat)
    requires i < |es|
    requires forall j :: i < j < |es| ==> !EndsScan(es[j], es[i].key)
    ensures HoldAt(es, i) == None
  {
    if IsKeyDown(es[i]) {
      assert NextSameKey(es, es[i].key, i + 1).None?;
    }
  }

  /** Skipping the last event as a scan start loses nothing. */
  lemma LastEventEmitsNothing(es: seq<KeyEvent>)
    requires |es| > 0
    ensures HoldAt(es, |es| - 1) == None
    ensures Holds(es) == HoldsUpTo(es, |es|)
  {
  }

  /** Every key-hold sample comes from a keydown `i` and the first later event
      `j` of the same key, which is a keyup, and lies strictly between 0 and
      MaxHoldMs. */
  lemma {:induction false} HoldsSound(es: seq<KeyEvent>, n: nat)
    requires n <= |es|
    ensures forall h :: h in HoldsUpTo(es, n) ==>
      0 < h.ms < MaxHoldMs &&
      exists i: nat, j: nat :: i < n && FirstAfter(es, i, j) && IsKeyDown(es[i]) && IsKeyUp(es[j]) &&
        h == Hold(es[i].key, es[j].timeMs - es[i].timeMs)
  {
    if n > 0 {
      HoldsSound(es, n - 1);
      var i := n - 1;
      var r := HoldAt(es, i);
      if r.Some? {
        var j := NextSameKey(es, es[i].key, i + 1).value;
        assert FirstAfter(es, i, j);
      }
    }
  }

  /** A scan that emits leaves its sample in every later prefix of samples. */
  lemma {:induction false} HoldsUpToKeeps(es: seq<KeyEvent>, n: nat, i: nat)
    requires i < n <= |es|
    requires HoldAt(es, i).Some?
    ensures HoldAt(es, i).value in HoldsUpTo(es, n)
    decreases n
  {
    var prev := HoldsUpTo(es, n - 1);
    assert HoldsUpTo(es, n) == prev + OptionSeq(HoldAt(es, n - 1));
    if i < n - 1 {
      HoldsUpToKeeps(es, n - 1, i);
      assert HoldAt(es, i).value in prev;
    } else {
      assert OptionSeq(HoldAt(es, i)) == [HoldAt(es, i).value];
    }
  }

  /** Every keydown whose first later event of the same key is a keyup, with a
      gap in (0, MaxHoldMs), has its hold among the samples. */
  lemma HoldsComplete(es: seq<KeyEvent>, i: nat, j: nat)
    requires FirstAfter(es, i, j) && IsKeyDown(es[i]) && IsKeyUp(es[j])
    requires 0 < es[j].timeMs - es[i].timeMs < MaxHoldMs
    ensures Hold(es[i].key, es[j].timeMs - es[i].timeMs) in Holds(es)
  {
    HoldAtCharacterized(es, i, j);
    HoldsUpToKeeps(es, ScanLimit(es), i);
  }

  /** Every hold duration lies strictly between 0 and MaxHoldMs. */
  lemma HoldDurationsBounded(es: seq<KeyEvent>)
    ensures forall d :: d in Durations(Holds(es)) ==> 0 < d < MaxHoldMs
  {
    HoldsSound(es, ScanLimit(es));
    var hs := Holds(es);
    forall d | d in Durations(hs) ensures 0 < d < MaxHoldMs {
      var k :| 0 <= k < |hs| && Durations(hs)[k] == d;
      assert hs[k] in hs;
    }
  }

  /** At most one sample per keydown. */
  lemma {:induction false} HoldsAtMostKeyDowns(es: seq<KeyEvent>, n: nat)
    requires n <= |es|
    ensures |HoldsUpTo(es, n)| <= Count(es[..n], IsKeyDown)
  {
    if n > 0 {
      HoldsAtMostKeyDowns(es, n - 1);
      assert es[..n][..n - 1] == es[..n - 1];
    }
  }

  /** The keydowns whose scan emits a sample, among the first `n` events. */
  ghost function Matched(es: seq<KeyEvent>, n: nat): set<nat>
    requires n <= |es|
  {
    set i: nat | i < n && HoldAt(es, i).Some?
  }

  lemma MatchedStep(es: seq<KeyEvent>, n: nat)
    requires 0 < n <= |es|
    ensures Matched(es, n) == Matched(es, n - 1) + (if HoldAt(es, n - 1).Some? then {n - 1} else {})
    ensures n - 1 !in Matched(es, n - 1)
  {
  }

  lemma {:induction false} HoldsCountIsMatched(es: seq<KeyEvent>, n: nat)
    requires n <= |es|
    ensures |HoldsUpTo(es, n)| == |Matched(es, n)|
  {
    if n > 0 {
      HoldsCountIsMatched(es, n - 1);
      MatchedStep(es, n);
    }
  }

  /** The keyup that the scan of `i` stopped on (0 when there is none). */
  function MatchIndex(es: seq<KeyEvent>, i: nat): nat
  {
    if i < |es| then
      match NextSameKey(es, es[i].key, i + 1)
      case Some(j) => j
      case None => 0
    else 0
  }

  /** Each keyup is matched by at most one keydown. */
  lemma MatchIsInjective(es: seq<KeyEvent>, x: nat, y: nat)
    requires x < |es| && y < |es|
    requires HoldAt(es, x).Some? && HoldAt(es, y).Some?
    requires MatchIndex(es, x) == MatchIndex(es, y)
    ensures x == y
    ensures IsKeyUp(es[MatchIndex(es, x)])
  {
    var j := MatchIndex(es, x);
    if x < y {
      assert EndsScan(es[j], es[y].key);
      assert EndsScan(es[y], es[x].key);
    } else if y < x {
      assert EndsScan(es[j], es[x].key);
      assert EndsScan(es[x], es[y].key);
    }
  }

  /** Since the keydown-to-keyup matching is injective, there are at most as
      many key-hold samples as keyups. */
  lemma HoldsAtMostKeyUps(es: seq<KeyEvent>)
    ensures |Holds(es)| <= Count(es, IsKeyUp)
  {
    var n := ScanLimit(es);
    var f := (i: nat) => MatchIndex(es, i);
    var ups := IndexSet(es, IsKeyUp);
    forall x | x in Matched(es, n) ensures f(x) in ups {
      MatchIsInjective(es, x, x);
    }
    forall x, y | x in Matched(es, n) && y in Matched(es, n) && f(x) == f(y) ensures x == y {
      MatchIsInjective(es, x, y);
    }
    InjectionBound(Matched(es, n), ups, f);
    HoldsCountIsMatched(es, n);
    CountIsIndexSetSize(es, IsKeyUp);
  }

  /** The number of key-hold samples is bounded by both keydowns and keyups. */
  lemma HoldsCountBounds(es: seq<KeyEvent>)
    ensures |Holds(es)| <= Count(es, IsKeyDown)
    ensures |Holds(es)| <= Count(es, IsKeyUp)
  {
    var n := ScanLimit(es);
    HoldsAtMostKeyDowns(es, n);
    CountPrefixBound(es, n, IsKeyDown);
    HoldsAtMostKeyUps(es);
  }

  /** A prefix has no more matching elements than the whole sequence. */
  lemma {:induction false} CountPrefixBound<T>(s: seq<T>, n: nat, p: T -> bool)
    requires n <= |s|
    ensures Count(s[..n], p) <= Count(s, p)
    decreases |s|
  {
    if n < |s| {
      var init := s[..|s| - 1];
      assert s[..n] == init[..n];
      CountPrefixBound(init, n, p);
    } else {
      assert s[..n] == s;
    }
  }

  // ---------------------------------------------------------------------
  // Inter-key intervals
  // ---------------------------------------------------------------------

  /** The state of the interval scan: samples so far and `last_keyup_time`. */
  datatype GapScan = GapScan(gaps: seq<int>, pending: Option<int>)

  /** One iteration of the interval loop. A keydown with a pending keyup
      clears it whether or not its gap is kept. */
  function GapStep(s: GapScan, e: KeyEvent): GapScan
  {
    if e.kind == KeyUp then GapScan(s.gaps, Some(e.timeMs))
    else if e.kind == KeyDown && s.pending.Some? then
      var iki := e.timeMs - s.pending.value;
      GapScan(if 0 < iki < MaxGapMs then s.gaps + [iki] else s.gaps, None)
    else s
  }

  /** The scan state after the first `n` events. */
  function ScanGapsUpTo(es: seq<KeyEvent>, n: nat): GapScan
    requires n <= |es|
  {
    if n == 0 then GapScan([], None) else GapStep(ScanGapsUpTo(es, n - 1), es[n - 1])
  }

  /** All inter-key interval samples of a group. */
  function Gaps(es: seq<KeyEvent>): seq<int>
  {
    ScanGapsUpTo(es, |es|).gaps
  }

  /** The single `for i in range(len(grp))` loop of the source. */
  method PairInterKeyIntervals(es: seq<KeyEvent>) returns (gaps: seq<int>)
    ensures gaps == Gaps(es)
  {
    gaps := [];
    var lastKeyUp: Option<int> := None;
    for i := 0 to |es|
      invariant GapScan(gaps, lastKeyUp) == ScanGapsUpTo(es, i)
    {
      if es[i].kind == KeyUp {
        lastKeyUp := Some(es[i].timeMs);
      } else if es[i].kind == KeyDown && lastKeyUp.Some? {
        var iki := es[i].timeMs - lastKeyUp.value;
        if 0 < iki < MaxGapMs {
          gaps := gaps + [iki];
        }
        lastKeyUp := None;
      }
    }
  }

  /** `u` is the most recent keyup before `d` with no keydown after it: no
      keydown or keyup lies strictly between them. */
  ghost predicate LatestUp(es: seq<KeyEvent>, u: nat, d: nat)
    requires d <= |es|
  {
    u < d && IsKeyUp(es[u]) && forall k :: u < k < d ==> !IsKeyDown(es[k]) && !IsKeyUp(es[k])
  }

  /** Reference definition: the keyup still pending when event `d` is reached,
      found by looking backwards from `d`. */
  function PendingUp(es: seq<KeyEvent>, d: nat): (r: Option<nat>)
    requires d <= |es|
    ensures r.Some? ==> LatestUp(es, r.value, d)
    ensures r.None? ==> forall u :: 0 <= u < d && IsKeyUp(es[u]) ==> exists k :: u < k < d && IsKeyDown(es[k])
    decreases d
  {
    if d == 0 then None
    else if IsKeyUp(es[d - 1]) then Some(d - 1)
    else if IsKeyDown(es[d - 1]) then None
    else PendingUp(es, d - 1)
  }

  /** Reference definition: the gap a keydown at `d` contributes. */
  function GapAt(es: seq<KeyEvent>, d: nat): seq<int>
    requires d < |es|
  {
    if IsKeyDown(es[d]) && PendingUp(es, d).Some? then
      var iki := es[d].timeMs - es[PendingUp(es, d).value].timeMs;
      if 0 < iki < MaxGapMs then [iki] else []
    else []
  }

  /** Reference definition: the gaps of the keydowns among the first `n` events. */
  function GapsRef(es: seq<KeyEvent>, n: nat): seq<int>
    requires n <= |es|
  {
    if n == 0 then [] else GapsRef(es, n - 1) + GapAt(es, n - 1)
  }

  function PendingTime(es: seq<KeyEvent>, n: nat): Option<int>
    requires n <= |es|
  {
    match PendingUp(es, n)
    case None => None
    case Some(u) => Some(es[u].timeMs)
  }

  /** The one-pass scan with its mutable `last_keyup_time` computes exactly the
      reference definition, and its pending time is the latest pending keyup. */
  lemma {:induction false} ScanMatchesReference(es: seq<KeyEvent>, n: nat)
    requires n <= |es|
    ensures ScanGapsUpTo(es, n).gaps == GapsRef(es, n)
    ensures ScanGapsUpTo(es, n).pending == PendingTime(es, n)
  {
    if n > 0 {
      ScanMatchesReference(es, n - 1);
    }
  }

  /** A keydown emits a gap exactly when there is a latest pending keyup `u`
      before it and the gap lies in (0, MaxGapMs); the sample is that gap. */
  lemma GapAtCharacterized(es: seq<KeyEvent>, d: nat, u: nat)
    requires d < |es|
    requires LatestUp(es, u, d)
    ensures GapAt(es, d) != [] <==>
      IsKeyDown(es[d]) && 0 < es[d].timeMs - es[u].timeMs < MaxGapMs
    ensures GapAt(es, d) != [] ==> GapAt(es, d) == [es[d].timeMs - es[u].timeMs]
  {
    var r := PendingUp(es, d);
    assert r.Some? && r.value == u;
  }

  /** Without a pending keyup a keydown emits nothing. */
  lemma GapAtNoPending(es: seq<KeyEvent>, d: nat)
    requires d < |es|
    requires forall u :: 0 <= u < d ==> !LatestUp(es, u, d)
    ensures GapAt(es, d) == []
  {
  }

  /** Every interval sample lies strictly between 0 and MaxGapMs. */
  lemma {:induction false} GapsRefBounded(es: seq<KeyEvent>, n: nat)
    requires n <= |es|
    ensures forall g :: g in GapsRef(es, n) ==> 0 < g < MaxGapMs
  {
    if n > 0 {
      GapsRefBounded(es, n - 1);
    }
  }

  lemma GapsBounded(es: seq<KeyEvent>)
    ensures forall g :: g in Gaps(es) ==> 0 < g < MaxGapMs
  {
    ScanMatchesReference(es, |es|);
    GapsRefBounded(es, |es|);
  }

  /** Every interval sample of the reference comes from a keydown `d` and the
      latest pending keyup `u` before it. */
  lemma {:induction false} GapsRefSound(es: seq<KeyEvent>, n: nat)
    requires n <= |es|
    ensures forall g :: g in GapsRef(es, n) ==>
      exists d: nat, u: nat :: d < n && IsKeyDown(es[d]) && LatestUp(es, u, d) &&
        g == es[d].timeMs - es[u].timeMs
  {
    if n > 0 {
      GapsRefSound(es, n - 1);
      var d := n - 1;
      if GapAt(es, d) != [] {
        var u := PendingUp(es, d).value;
        assert LatestUp(es, u, d);
      }
    }
  }

  /** Every interval sample is `t_d - t_u` for a keydown `d` and the latest
      keyup `u` before it with no keydown in between. */
  lemma GapsSound(es: seq<KeyEvent>)
    ensures forall g :: g in Gaps(es) ==>
      exists d: nat, u: nat :: d < |es| && IsKeyDown(es[d]) && LatestUp(es, u, d) &&
        g == es[d].timeMs - es[u].timeMs
  {
    ScanMatchesReference(es, |es|);
    GapsRefSound(es, |es|);
  }

  /** At most one interval sample per keydown. */
  lemma {:induction false} GapsRefAtMostKeyDowns(es: seq<KeyEvent>, n: nat)
    requires n <= |es|
    ensures |GapsRef(es, n)| <= Count(es[..n], IsKeyDown)
  {
    if n > 0 {
      GapsRefAtMostKeyDowns(es, n - 1);
      assert es[..n][..n - 1] == es[..n - 1];
    }
  }

  lemma GapsAtMostKeyDowns(es: seq<KeyEvent>)
    ensures |Gaps(es)| <= Count(es, IsKeyDown)
  {
    ScanMatchesReference(es, |es|);
    GapsRefAtMostKeyDowns(es, |es|);
    assert es[..|es|] == es;
  }

  /** A sequence with no keyup never has a pending keyup, so yields no gaps. */
  lemma {:induction false} NoKeyUpNoGaps(es: seq<KeyEvent>, n: nat)
    requires n <= |es|
    requires forall k :: 0 <= k < n ==> !IsKeyUp(es[k])
    ensures ScanGapsUpTo(es, n) == GapScan([], None)
  {
    if n > 0 {
      NoKeyUpNoGaps(es, n - 1);
    }
  }

  lemma NoKeyUpsMeansNoGaps(es: seq<KeyEvent>)
    requires forall k :: 0 <= k < |es| ==> !IsKeyUp(es[k])
    ensures Gaps(es) == []
  {
    NoKeyUpNoGaps(es, |es|);
  }

  /** A keydown clears the pending keyup even when its own gap is discarded:
      a later keydown with no keyup in between emits nothing. */
  lemma KeyDownClearsPending(es: seq<KeyEvent>, d: nat, d2: nat)
    requires d < d2 < |es|
    requires IsKeyDown(es[d])
    requires forall k :: d < k < d2 ==> !IsKeyUp(es[k])
    ensures ScanGapsUpTo(es, d + 1).pending == None
    ensures GapAt(es, d2) == []
  {
    ScanMatchesReference(es, d + 1);
    ScanMatchesReference(es, d2);
  }

  /** Overlapping presses: after any keydown, a run of further presses with
      no release among them leaves the scan exactly as that keydown left it,
      so the run adds no interval at all. */
  lemma {:induction false} OverlappingPressesNoGap(es: seq<KeyEvent>, d: nat, n: nat)
    requires d < n <= |es|
    requires IsKeyDown(es[d])
    requires forall k :: d < k < n ==> !IsKeyUp(es[k])
    ensures ScanGapsUpTo(es, n) == ScanGapsUpTo(es, d + 1)
    ensures ScanGapsUpTo(es, n).pending == None
    decreases n
  {
    if n > d + 1 {
      OverlappingPressesNoGap(es, d, n - 1);
    }
  }
}

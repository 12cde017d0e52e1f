/**
 * The time-interval extractor of the weather skill: it turns the time slots
 * recognised by the NLU engine into merged, sorted `{from, to}` intervals in
 * milliseconds, and flags requests that leave the supported forecast window.
 *
 * The ambient clock (local midnight of today and tomorrow, `Date.now()`) is a
 * `Clock` value and the millisecond constants are a `Constants` value, both
 * passed in by the caller.
 */
module Time {
  import opened Wrappers

  // ---------------------------------------------------------------------------
  // Data model
  // ---------------------------------------------------------------------------

  /** Precision of a recognised instant, as the NLU engine enumerates it. */
  datatype Grain = Year | Quarter | Month | Week | Day | Hour | Minute | Second

  /** The two kinds of time slot value. */
  datatype SlotValue =
    | Instant(ts: int, grain: Grain)
    | Range(from: Option<int>, to: Option<int>)

  /** A recognised slot: its value and the text it was recognised from. */
  datatype TimeSlot = TimeSlot(value: SlotValue, rawValue: string)

  /** A time interval in milliseconds; `rawValue` is absent for the default day. */
  datatype TimeInterval = TimeInterval(from: int, to: int, rawValue: Option<string>)

  /** HOUR_MILLISECONDS, DAY_MILLISECONDS and FORECAST_DAYS_LIMIT. */
  datatype Constants = Constants(hourMs: int, dayMs: int, forecastDaysLimit: int)

  /** Local midnight of today, local midnight of tomorrow, and the current instant. */
  datatype Clock = Clock(startOfToday: int, startOfTomorrow: int, now: int)

  /** `a` contains `b`: every bound of `b` lies within those of `a`. */
  predicate Covers(a: TimeInterval, b: TimeInterval) {
    a.from <= b.from && b.to <= a.to
  }

  predicate WellFormed(iv: TimeInterval) {
    iv.from <= iv.to
  }

  predicate InInterval(t: int, iv: TimeInterval) {
    iv.from <= t <= iv.to
  }

  // ---------------------------------------------------------------------------
  // Overlap and calendar-day predicates
  // ---------------------------------------------------------------------------

  /** Two intervals intersect; intervals that only touch at an endpoint do too. */
  predicate Intersect(a: TimeInterval, b: TimeInterval) {
    a.from <= b.to && a.to >= b.from
  }

  lemma IntersectSymmetric(a: TimeInterval, b: TimeInterval)
    ensures Intersect(a, b) <==> Intersect(b, a)
  {
  }

  /** Touching at an endpoint counts as intersecting. */
  lemma TouchingIntersect(a: TimeInterval, b: TimeInterval)
    requires WellFormed(a) && WellFormed(b)
    requires a.to == b.from
    ensures Intersect(a, b) && Intersect(b, a)
  {
  }

  /** On well-formed intervals, intersecting means sharing a common instant. */
  lemma IntersectIffCommonInstant(a: TimeInterval, b: TimeInterval)
    requires WellFormed(a) && WellFormed(b)
    ensures Intersect(a, b) <==> exists t :: InInterval(t, a) && InInterval(t, b)
  {
    if Intersect(a, b) {
      var t := if a.from < b.from then b.from else a.from;
      assert InInterval(t, a) && InInterval(t, b);
    }
  }

  /** `date` lies in today's calendar day, both midnights included. */
  predicate IsToday(date: int, clock: Clock, c: Constants) {
    date >= clock.startOfToday && date <= clock.startOfToday + c.dayMs
  }

  /** `date` lies in tomorrow's calendar day, both midnights included. */
  predicate IsTomorrow(date: int, clock: Clock, c: Constants) {
    date >= clock.startOfTomorrow && date <= clock.startOfTomorrow + c.dayMs
  }

  /** Both midnights belong to the day, and nothing outside them does. */
  lemma CalendarDaysInclusive(clock: Clock, c: Constants, date: int)
    requires c.dayMs >= 0
    ensures IsToday(clock.startOfToday, clock, c) && IsToday(clock.startOfToday + c.dayMs, clock, c)
    ensures IsTomorrow(clock.startOfTomorrow, clock, c) && IsTomorrow(clock.startOfTomorrow + c.dayMs, clock, c)
    ensures date < clock.startOfToday || date > clock.startOfToday + c.dayMs ==> !IsToday(date, clock, c)
    ensures date < clock.startOfTomorrow || date > clock.startOfTomorrow + c.dayMs ==> !IsTomorrow(date, clock, c)
  {
  }

  /**
   * When tomorrow starts one day after today, the inclusive bounds make the
   * midnight between them the one instant that is both today and tomorrow.
   */
  lemma TodayAndTomorrowShareMidnight(clock: Clock, c: Constants, date: int)
    requires c.dayMs > 0
    requires clock.startOfTomorrow == clock.startOfToday + c.dayMs
    ensures IsToday(date, clock, c) && IsTomorrow(date, clock, c) <==> date == clock.startOfTomorrow
  {
  }

  // ---------------------------------------------------------------------------
  // Candidate interval of one slot
  // ---------------------------------------------------------------------------

  /** How far an instant of the given grain extends. */
  function GrainWidth(g: Grain, c: Constants): (r: int) {
    match g
    case Week => c.dayMs * 7
    case Day => c.dayMs
    case Hour => c.hourMs
    case _ => 0
  }

  /**
   * A range bound: a given timestamp, or `now` when it is absent. A timestamp
   * of 0 (the epoch) is falsy in the source and is replaced by `now` as well.
   */
  function ResolveBound(b: Option<int>, now: int): (r: int)
    ensures b.Some? && b.value != 0 ==> r == b.value
    ensures b.None? || b.value == 0 ==> r == now
  {
    if b.Some? && b.value != 0 then b.value else now
  }

  /** The interval a slot asks for, before merging; it carries the slot's text. */
  function Candidate(slot: TimeSlot, now: int, c: Constants): (r: TimeInterval)
    ensures r.rawValue == Some(slot.rawValue)
  {
    match slot.value
    case Instant(ts, grain) => TimeInterval(ts, ts + GrainWidth(grain, c), Some(slot.rawValue))
    case Range(from, to) => TimeInterval(ResolveBound(from, now), ResolveBound(to, now), Some(slot.rawValue))
  }

  /** An instant is widened by its grain: a week, a day, an hour, or not at all. */
  lemma InstantCandidateWidth(ts: int, grain: Grain, raw: string, now: int, c: Constants)
    ensures var r := Candidate(TimeSlot(Instant(ts, grain), raw), now, c);
      && r.from == ts
      && (grain == Week ==> r.to - r.from == 7 * c.dayMs)
      && (grain == Day ==> r.to - r.from == c.dayMs)
      && (grain == Hour ==> r.to - r.from == c.hourMs)
      && (grain !in {Week, Day, Hour} ==> r.to == r.from)
  {
  }

  /** With non-negative constants an instant's candidate is well formed and starts at it. */
  lemma InstantCandidateContainsInstant(ts: int, grain: Grain, raw: string, now: int, c: Constants)
    requires c.hourMs >= 0 && c.dayMs >= 0
    ensures var r := Candidate(TimeSlot(Instant(ts, grain), raw), now, c);
      WellFormed(r) && InInterval(ts, r)
  {
  }

  /** A range copies its given bounds and fills the missing ones with `now`. */
  lemma RangeCandidateBounds(from: Option<int>, to: Option<int>, raw: string, now: int, c: Constants)
    ensures var r := Candidate(TimeSlot(Range(from, to), raw), now, c);
      && (from.Some? && from.value != 0 ==> r.from == from.value)
      && (from.None? ==> r.from == now)
      && (to.Some? && to.value != 0 ==> r.to == to.value)
      && (to.None? ==> r.to == now)
      && (from == Some(0) ==> r.from == now)
      && (to == Some(0) ==> r.to == now)
  {
  }

  // ---------------------------------------------------------------------------
  // Supported window and truncation
  // ---------------------------------------------------------------------------

  /**
   * The upper end of the supported window. FORECAST_DAYS_LIMIT is added as a
   * raw number of milliseconds, exactly as the source does.
   */
  function UpperLimit(clock: Clock, c: Constants): (r: int) {
    clock.startOfToday + c.forecastDaysLimit + c.dayMs
  }

  /** The candidate starts before today or ends after the upper limit. */
  predicate OutOfRange(iv: TimeInterval, clock: Clock, c: Constants) {
    iv.from < clock.startOfToday || iv.to > UpperLimit(clock, c)
  }

  /** Some slot's candidate leaves the supported window. */
  predicate AnyOutOfRange(slots: seq<TimeSlot>, clock: Clock, c: Constants) {
    exists i :: 0 <= i < |slots| && OutOfRange(Candidate(slots[i], clock.now, c), clock, c)
  }

  // ---------------------------------------------------------------------------
  // First-match merge
  // ---------------------------------------------------------------------------

  /** The index of the first interval the candidate intersects, or |ivs| if none. */
  function FirstMatch(ivs: seq<TimeInterval>, cand: TimeInterval): (k: nat)
    ensures k <= |ivs|
    ensures forall j :: 0 <= j < k ==> !Intersect(ivs[j], cand)
    ensures k < |ivs| ==> Intersect(ivs[k], cand)
  {
    if ivs == [] then 0
    else if Intersect(ivs[0], cand) then 0
    else 1 + FirstMatch(ivs[1..], cand)
  }

  /**
   * `iv` widened to take in `cand`: the smallest interval containing both
   * whose bounds are bounds of one of them; `iv` keeps its raw text.
   */
  function Absorb(iv: TimeInterval, cand: TimeInterval): (r: TimeInterval)
    ensures Covers(r, iv) && Covers(r, cand)
    ensures r.from == iv.from || r.from == cand.from
    ensures r.to == iv.to || r.to == cand.to
    ensures r.rawValue == iv.rawValue
  {
    TimeInterval(
      if cand.from < iv.from then cand.from else iv.from,
      if cand.to > iv.to then cand.to else iv.to,
      iv.rawValue)
  }

  /** One step of the accumulation: widen the first intersecting interval, or append. */
  function Merge(ivs: seq<TimeInterval>, cand: TimeInterval): (r: seq<TimeInterval>) {
    var k := FirstMatch(ivs, cand);
    if k < |ivs| then ivs[k := Absorb(ivs[k], cand)] else ivs + [cand]
  }

  /**
   * When `ivs[k]` is the first interval the candidate intersects, only that
   * one is widened (even if later ones intersect too) and nothing is added.
   */
  lemma MergeIntoFirstMatch(ivs: seq<TimeInterval>, cand: TimeInterval, k: nat)
    requires k < |ivs| && Intersect(ivs[k], cand)
    requires forall j :: 0 <= j < k ==> !Intersect(ivs[j], cand)
    ensures |Merge(ivs, cand)| == |ivs|
    ensures Merge(ivs, cand)[k] == Absorb(ivs[k], cand)
    ensures forall j :: 0 <= j < |ivs| && j != k ==> Merge(ivs, cand)[j] == ivs[j]
  {
  }

  /** When the candidate intersects nothing, exactly it is appended. */
  lemma MergeAppendsDisjoint(ivs: seq<TimeInterval>, cand: TimeInterval)
    requires forall j :: 0 <= j < |ivs| ==> !Intersect(ivs[j], cand)
    ensures Merge(ivs, cand) == ivs + [cand]
  {
  }

  /** A merge never shrinks an interval, adds at most one, and keeps the candidate. */
  lemma MergeWidens(ivs: seq<TimeInterval>, cand: TimeInterval)
    ensures var r := Merge(ivs, cand);
      && |ivs| <= |r| <= |ivs| + 1
      && (forall j :: 0 <= j < |ivs| ==> Covers(r[j], ivs[j]) && r[j].rawValue == ivs[j].rawValue)
      && (exists j :: 0 <= j < |r| && Covers(r[j], cand))
  {
    var r := Merge(ivs, cand);
    var k := FirstMatch(ivs, cand);
    if k < |ivs| {
      assert Covers(r[k], cand);
    } else {
      assert r[|ivs|] == cand;
    }
  }

  // ---------------------------------------------------------------------------
  // Accumulation over the slots
  // ---------------------------------------------------------------------------

  /** The intervals after folding every slot's candidate in, in slot order. */
  function Accumulate(slots: seq<TimeSlot>, now: int, c: Constants): (r: seq<TimeInterval>)
    ensures |r| <= |slots|
    ensures |slots| > 0 ==> |r| >= 1
  {
    if slots == [] then []
    else
      var prefix := Accumulate(slots[..|slots| - 1], now, c);
      var cand := Candidate(slots[|slots| - 1], now, c);
      MergeWidens(prefix, cand);
      Merge(prefix, cand)
  }

  /** Every slot's candidate, out of range or not, is contained unclipped in some interval. */
  lemma {:induction false} AccumulateCoversCandidates(slots: seq<TimeSlot>, now: int, c: Constants, i: nat)
    requires i < |slots|
    ensures exists j ::
      0 <= j < |Accumulate(slots, now, c)| && Covers(Accumulate(slots, now, c)[j], Candidate(slots[i], now, c))
  {
    var n := |slots| - 1;
    var prefix := Accumulate(slots[..n], now, c);
    var cand := Candidate(slots[n], now, c);
    var r := Accumulate(slots, now, c);
    assert r == Merge(prefix, cand);
    MergeWidens(prefix, cand);
    if i < n {
      AccumulateCoversCandidates(slots[..n], now, c, i);
      assert slots[..n][i] == slots[i];
      var j :| 0 <= j < |prefix| && Covers(prefix[j], Candidate(slots[i], now, c));
      assert Covers(r[j], prefix[j]);
    }
  }

  /** Every bound of an accumulated interval is a bound of some slot's candidate. */
  lemma {:induction false} AccumulateBoundsFromCandidates(slots: seq<TimeSlot>, now: int, c: Constants, j: nat)
    requires j < |Accumulate(slots, now, c)|
    ensures exists i :: 0 <= i < |slots| && Accumulate(slots, now, c)[j].from == Candidate(slots[i], now, c).from
    ensures exists i :: 0 <= i < |slots| && Accumulate(slots, now, c)[j].to == Candidate(slots[i], now, c).to
    ensures exists i :: 0 <= i < |slots| && Accumulate(slots, now, c)[j].rawValue == Some(slots[i].rawValue)
  {
    var n := |slots| - 1;
    var prefix := Accumulate(slots[..n], now, c);
    var cand := Candidate(slots[n], now, c);
    var r := Accumulate(slots, now, c);
    assert r == Merge(prefix, cand);
    var k := FirstMatch(prefix, cand);
    if j < |prefix| {
      AccumulateBoundsFromCandidates(slots[..n], now, c, j);
      var i1 :| 0 <= i1 < n && prefix[j].from == Candidate(slots[..n][i1], now, c).from;
      var i2 :| 0 <= i2 < n && prefix[j].to == Candidate(slots[..n][i2], now, c).to;
      var i3 :| 0 <= i3 < n && prefix[j].rawValue == Some(slots[..n][i3].rawValue);
      assert slots[..n][i1] == slots[i1] && slots[..n][i2] == slots[i2] && slots[..n][i3] == slots[i3];
      if j == k {
        assert r[j] == Absorb(prefix[j], cand);
        if r[j].from != prefix[j].from {
          assert r[j].from == Candidate(slots[n], now, c).from;
        }
        if r[j].to != prefix[j].to {
          assert r[j].to == Candidate(slots[n], now, c).to;
        }
      } else {
        assert r[j] == prefix[j];
      }
    } else {
      assert r[j] == cand;
    }
  }

  /** If every candidate is well formed, so is every accumulated interval. */
  lemma {:induction false} AccumulateWellFormed(slots: seq<TimeSlot>, now: int, c: Constants)
    requires forall i :: 0 <= i < |slots| ==> WellFormed(Candidate(slots[i], now, c))
    ensures forall j :: 0 <= j < |Accumulate(slots, now, c)| ==> WellFormed(Accumulate(slots, now, c)[j])
  {
    if slots != [] {
      var n := |slots| - 1;
      var prefix := Accumulate(slots[..n], now, c);
      var cand := Candidate(slots[n], now, c);
      forall i | 0 <= i < n ensures WellFormed(Candidate(slots[..n][i], now, c)) {
        assert slots[..n][i] == slots[i];
      }
      AccumulateWellFormed(slots[..n], now, c);
      assert WellFormed(cand);
    }
  }

  // ---------------------------------------------------------------------------
  // Sorting by start
  // ---------------------------------------------------------------------------

  predicate SortedByFrom(s: seq<TimeInterval>) {
    forall i, j :: 0 <= i < j < |s| ==> s[i].from <= s[j].from
  }

  /** The intervals of `s` that start at `k`, in their order in `s`. */
  function WithFrom(s: seq<TimeInterval>, k: int): (r: seq<TimeInterval>) {
    if s == [] then []
    else (if s[0].from == k then [s[0]] else []) + WithFrom(s[1..], k)
  }

  /** Inserts `x` before the first element that does not start before it. */
  function InsertByFrom(x: TimeInterval, s: seq<TimeInterval>): (r: seq<TimeInterval>)
    ensures multiset(r) == multiset(s) + multiset{x}
    ensures |r| == |s| + 1
    ensures r[0] == x || (s != [] && r[0] == s[0])
  {
    if s == [] then [x]
    else if x.from <= s[0].from then [x] + s
    else
      var rest := InsertByFrom(x, s[1..]);
      assert s == [s[0]] + s[1..];
      [s[0]] + rest
  }

  /** Inserting into a list sorted by `from` keeps it sorted. */
  lemma {:induction false} InsertByFromSorted(x: TimeInterval, s: seq<TimeInterval>)
    requires SortedByFrom(s)
    ensures SortedByFrom(InsertByFrom(x, s))
  {
    if s != [] && x.from > s[0].from {
      var rest := InsertByFrom(x, s[1..]);
      InsertByFromSorted(x, s[1..]);
      var r := [s[0]] + rest;
      assert InsertByFrom(x, s) == r;
      forall j | 0 < j < |r| ensures s[0].from <= r[j].from {
        assert r[j] in multiset(rest);
        assert r[j] in multiset(s[1..]) + multiset{x};
        if r[j] != x {
          assert r[j] in s[1..];
        }
      }
    }
  }

  /** A stable sort by `from`, as `intervals.sort((i1, i2) => i1.from - i2.from)`. */
  function SortByFrom(s: seq<TimeInterval>): (r: seq<TimeInterval>)
    ensures SortedByFrom(r)
    ensures multiset(r) == multiset(s)
    ensures |r| == |s|
  {
    if s == [] then []
    else
      assert s == [s[0]] + s[1..];
      InsertByFromSorted(s[0], SortByFrom(s[1..]));
      InsertByFrom(s[0], SortByFrom(s[1..]))
  }

  /** The intervals of `[y] + t` that start at `k`. */
  lemma WithFromCons(y: TimeInterval, t: seq<TimeInterval>, k: int)
    ensures WithFrom([y] + t, k) == (if y.from == k then [y] else []) + WithFrom(t, k)
  {
    assert ([y] + t)[0] == y && ([y] + t)[1..] == t;
  }

  lemma {:induction false} InsertByFromStable(x: TimeInterval, s: seq<TimeInterval>, k: int)
    ensures WithFrom(InsertByFrom(x, s), k) == (if x.from == k then [x] else []) + WithFrom(s, k)
  {
    if s == [] {
      WithFromCons(x, [], k);
      assert [x] + [] == [x];
    } else if x.from <= s[0].from {
      WithFromCons(x, s, k);
    } else {
      var rest := InsertByFrom(x, s[1..]);
      assert InsertByFrom(x, s) == [s[0]] + rest;
      assert s == [s[0]] + s[1..];
      WithFromCons(s[0], rest, k);
      WithFromCons(s[0], s[1..], k);
      InsertByFromStable(x, s[1..], k);
      if x.from == k {
        // s[0] starts before x, so it does not start at k
        assert WithFrom(s, k) == WithFrom(s[1..], k);
        assert WithFrom(InsertByFrom(x, s), k) == WithFrom(rest, k);
      } else {
        assert WithFrom(rest, k) == WithFrom(s[1..], k);
      }
    }
  }

  /** The sort keeps equal-start intervals in their original relative order. */
  lemma {:induction false} SortByFromStable(s: seq<TimeInterval>, k: int)
    ensures WithFrom(SortByFrom(s), k) == WithFrom(s, k)
  {
    if s != [] {
      SortByFromStable(s[1..], k);
      InsertByFromStable(s[0], SortByFrom(s[1..]), k);
    }
  }

  // ---------------------------------------------------------------------------
  // The extractor
  // ---------------------------------------------------------------------------

  /** The whole current day, used when no slot was recognised. */
  function TodayInterval(clock: Clock, c: Constants): (r: TimeInterval) {
    TimeInterval(clock.startOfToday, clock.startOfToday + c.dayMs, None)
  }

  /**
   * Folds one candidate into the intervals: `intervals.some(...)` widens the
   * first interval the candidate intersects and stops there; when none does,
   * the candidate is appended.
   */
  method FoldCandidate(intervals: seq<TimeInterval>, candidate: TimeInterval)
    returns (merged: seq<TimeInterval>)
    ensures merged == Merge(intervals, candidate)
  {
    merged := intervals;
    if |merged| == 0 {
      merged := merged + [TimeInterval(candidate.from, candidate.to, candidate.rawValue)];
      return;
    }
    var intersected := false;
    var k := 0;
    while k < |merged|
      invariant 0 <= k <= |merged|
      invariant merged == intervals
      invariant forall j :: 0 <= j < k ==> !Intersect(intervals[j], candidate)
    {
      if Intersect(merged[k], candidate) {
        var interval := merged[k];
        if candidate.from < interval.from {
          interval := interval.(from := candidate.from);
        }
        if candidate.to > interval.to {
          interval := interval.(to := candidate.to);
        }
        merged := merged[k := interval];
        intersected := true;
        break;
      }
      k := k + 1;
    }
    assert intersected ==> k == FirstMatch(intervals, candidate);
    if !intersected {
      merged := merged + [TimeInterval(candidate.from, candidate.to, candidate.rawValue)];
    }
  }

  /** Extending the slot prefix by one slot folds in that slot's candidate. */
  lemma AccumulateStep(slots: seq<TimeSlot>, n: nat, now: int, c: Constants)
    requires n < |slots|
    ensures Accumulate(slots[..n + 1], now, c) == Merge(Accumulate(slots[..n], now, c), Candidate(slots[n], now, c))
  {
    assert slots[..n + 1][..n] == slots[..n];
    assert slots[..n + 1][n] == slots[n];
  }

  /**
   * Widens each slot into a candidate, flags candidates that leave the
   * supported window, folds each into the first interval it intersects (or
   * appends it), and returns the intervals sorted by start.
   */
  method ExtractTimeIntervals(slots: seq<TimeSlot>, clock: Clock, c: Constants)
    returns (intervals: seq<TimeInterval>, truncated: bool)
    ensures |slots| == 0 ==> intervals == [TodayInterval(clock, c)] && !truncated
    ensures |slots| > 0 ==> intervals == SortByFrom(Accumulate(slots, clock.now, c))
    ensures truncated <==> AnyOutOfRange(slots, clock, c)
    ensures SortedByFrom(intervals)
    ensures 1 <= |intervals| && (|slots| > 0 ==> |intervals| <= |slots|)
  {
    var today := clock.startOfToday;
    if |slots| < 1 {
      return [TimeInterval(today, today + c.dayMs, None)], false;
    }
    var limitsMin := today;
    var limitsMax := today + c.forecastDaysLimit + c.dayMs;

    intervals := [];
    truncated := false;
    for n := 0 to |slots|
      invariant intervals == Accumulate(slots[..n], clock.now, c)
      invariant truncated <==> exists i :: 0 <= i < n && OutOfRange(Candidate(slots[i], clock.now, c), clock, c)
    {
      var slot := slots[n];
      var candidate := Candidate(slot, clock.now, c);

      if candidate.from < limitsMin || candidate.to > limitsMax {
        truncated := true;
      }

      intervals := FoldCandidate(intervals, candidate);
      AccumulateStep(slots, n, clock.now, c);
    }
    assert slots[..|slots|] == slots;
    intervals := SortByFrom(intervals);
  }

  /**
   * The earliest interval together with the truncation flag. The source's
   * `null` result is modelled as `None`; it never occurs.
   */
  method ExtractTimeInterval(slots: seq<TimeSlot>, clock: Clock, c: Constants)
    returns (r: Option<(TimeInterval, bool)>)
    ensures r.Some?
    ensures |slots| == 0 ==> r == Some((TodayInterval(clock, c), false))
    ensures |slots| > 0 ==> r.value.0 == SortByFrom(Accumulate(slots, clock.now, c))[0]
    ensures r.value.1 <==> AnyOutOfRange(slots, clock, c)
    ensures |slots| > 0 ==> forall iv :: iv in Accumulate(slots, clock.now, c) ==> r.value.0.from <= iv.from
  {
    var result, truncated := ExtractTimeIntervals(slots, clock, c);
    if |result| > 0 {
      r := Some((result[0], truncated));
      if |slots| > 0 {
        forall iv | iv in Accumulate(slots, clock.now, c) ensures result[0].from <= iv.from {
          assert iv in multiset(result);
          var j :| 0 <= j < |result| && result[j] == iv;
        }
      }
    } else {
      r := None;
    }
  }
}

/**
 * Concrete scenarios that pin the extractor's behaviour, including its two
 * quirks: the first-match merge without cascading, and the horizon that adds
 * FORECAST_DAYS_LIMIT as raw milliseconds.
 */
module TimeExamples {
  import opened Wrappers
  import opened Time

  /** Local midnight of 2019-02-22 (UTC) and the following midnights. */
  const D0: int := 1550793600000
  const DayMs: int := 86400000

  function Days(n: int): int { D0 + n * DayMs }

  function Span(from: int, to: int, raw: string): TimeSlot {
    TimeSlot(Range(Some(from), Some(to)), raw)
  }

  /** Two ranges that only touch at a midnight become one interval. */
  lemma TouchingRangesMerge(now: int, c: Constants)
    ensures Accumulate([Span(Days(0), Days(1), "a"), Span(Days(1), Days(2), "b")], now, c)
      == [TimeInterval(Days(0), Days(2), Some("a"))]
  {
  }

  /** Disjoint ranges stay separate and come out sorted, whatever their order. */
  lemma DisjointRangesSorted(now: int, c: Constants)
    ensures SortByFrom(Accumulate([Span(Days(5), Days(6), "a"), Span(Days(0), Days(1), "b")], now, c))
      == [TimeInterval(Days(0), Days(1), Some("b")), TimeInterval(Days(5), Days(6), Some("a"))]
  {
  }

  /**
   * The third range bridges the first two but is merged only into the first,
   * so the result holds two intervals that intersect each other.
   */
  lemma FirstMatchDoesNotCascade(now: int, c: Constants)
    ensures var r := Accumulate([Span(Days(0), Days(1), "a"), Span(Days(5), Days(6), "b"), Span(Days(1), Days(5), "c")], now, c);
      && r == [TimeInterval(Days(0), Days(5), Some("a")), TimeInterval(Days(5), Days(6), Some("b"))]
      && Intersect(r[0], r[1])
  {
    var slots := [Span(Days(0), Days(1), "a"), Span(Days(5), Days(6), "b"), Span(Days(1), Days(5), "c")];
    assert slots[..2] == [Span(Days(0), Days(1), "a"), Span(Days(5), Days(6), "b")];
    assert Accumulate(slots[..2], now, c) == [TimeInterval(Days(0), Days(1), Some("a")), TimeInterval(Days(5), Days(6), Some("b"))];
  }

  /**
   * Widening an earlier interval can give it the same start as a later one;
   * the stable sort then keeps them in insertion order.
   */
  lemma EqualStartsKeepInsertionOrder(now: int, c: Constants)
    ensures SortByFrom(Accumulate([Span(Days(3), Days(4), "a"), Span(Days(0), Days(1), "b"), Span(Days(0), Days(3), "c")], now, c))
      == [TimeInterval(Days(0), Days(4), Some("a")), TimeInterval(Days(0), Days(1), Some("b"))]
  {
    var slots := [Span(Days(3), Days(4), "a"), Span(Days(0), Days(1), "b"), Span(Days(0), Days(3), "c")];
    assert slots[..2] == [Span(Days(3), Days(4), "a"), Span(Days(0), Days(1), "b")];
    assert Accumulate(slots[..2], now, c) == [TimeInterval(Days(3), Days(4), Some("a")), TimeInterval(Days(0), Days(1), Some("b"))];
    assert Accumulate(slots, now, c) == [TimeInterval(Days(0), Days(4), Some("a")), TimeInterval(Days(0), Days(1), Some("b"))];
  }

  /** A week-grain instant spans seven days and lies inside a one-interval result. */
  lemma WeekInstant(now: int, c: Constants)
    ensures Accumulate([TimeSlot(Instant(D0, Week), "this week")], now, c)
      == [TimeInterval(D0, D0 + 7 * c.dayMs, Some("this week"))]
  {
  }

  /** A range with no bounds at all is the empty interval at `now`. */
  lemma OpenRangeIsNow(now: int, c: Constants)
    ensures Accumulate([TimeSlot(Range(None, None), "now")], now, c) == [TimeInterval(now, now, Some("now"))]
  {
  }

  /** A range ending past the window sets the flag; one inside leaves it clear. */
  lemma TruncationAtUpperLimit(clock: Clock, c: Constants)
    requires clock.startOfToday > 0 && c.dayMs > 0 && c.forecastDaysLimit >= 0
    ensures var limit := UpperLimit(clock, c);
      && AnyOutOfRange([Span(clock.startOfToday, limit + 1, "too far")], clock, c)
      && !AnyOutOfRange([Span(clock.startOfToday, limit, "just in")], clock, c)
  {
    var limit := UpperLimit(clock, c);
    var far := [Span(clock.startOfToday, limit + 1, "too far")];
    assert Candidate(far[0], clock.now, c).to == limit + 1;
    assert OutOfRange(Candidate(far[0], clock.now, c), clock, c);
  }

  /**
   * Because FORECAST_DAYS_LIMIT is added as milliseconds, asking for tomorrow
   * (a day-grain instant at the next midnight) is flagged as truncated exactly
   * when FORECAST_DAYS_LIMIT is smaller than one day's worth of milliseconds.
   */
  lemma TomorrowTruncatedByRawHorizon(clock: Clock, c: Constants)
    requires clock.startOfTomorrow == clock.startOfToday + c.dayMs && c.dayMs > 0
    ensures AnyOutOfRange([TimeSlot(Instant(clock.startOfTomorrow, Day), "tomorrow")], clock, c)
      <==> c.forecastDaysLimit < c.dayMs
  {
    var slots := [TimeSlot(Instant(clock.startOfTomorrow, Day), "tomorrow")];
    var cand := Candidate(slots[0], clock.now, c);
    assert cand.from == clock.startOfTomorrow && cand.to == clock.startOfToday + 2 * c.dayMs;
    if c.forecastDaysLimit < c.dayMs {
      assert OutOfRange(cand, clock, c);
    }
  }
}

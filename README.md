# Time-interval extractor of the Snips weather action

This project is a Dafny model of `src/utils/time.ts`. That file turns the time slots recognised by the NLU engine into a list of `{from, to}` intervals in milliseconds, plus a `truncated` flag. A slot is either an *instant* with a grain or a *range* with optional bounds. The algorithm:

1. An instant is widened by its grain: a week, a day or an hour. Any other grain leaves it a single point. A missing range bound becomes "now".
2. `truncated` is set when a candidate starts before today or ends after `startOfToday + FORECAST_DAYS_LIMIT + DAY_MILLISECONDS`. The candidate is still kept, unclipped.
3. Each candidate is folded into the *first* interval it intersects, and the scan stops there. Touching at an endpoint counts as intersecting. If it intersects nothing, it is appended.
4. The result is sorted by `from`.

With no slots at all, the result is the whole current day.

Files:

- `wrappers.dfy`: module `Wrappers`, the `Option` type.
- `time.dfy`: module `Time`. It holds the data model, the pure predicates (`Intersect`, `IsToday`, `IsTomorrow`), the specification functions (`Candidate`, `FirstMatch`, `Absorb`, `Merge`, `Accumulate`, `SortByFrom`), the lemmas about them, and the two extractor entry points as methods.
- `time_examples.dfy`: module `TimeExamples`, concrete scenarios that pin the behaviour down. They include the two quirks: the merge does not cascade, and the horizon limit is added as raw milliseconds.

The ambient clock is a `Clock(startOfToday, startOfTomorrow, now)` value. The constants `HOUR_MILLISECONDS`, `DAY_MILLISECONDS` and `FORECAST_DAYS_LIMIT` are a `Constants` value. Both are passed in by the caller.

`ExtractTimeIntervals` is a method because the source is a loop. The `forEach` over the slots is a `for` loop, and it updates `truncated` and the interval list. It is proved equal to `SortByFrom(Accumulate(...))`. The `some` scan is its own method, `FoldCandidate`. It is a `while` loop that widens the first intersecting interval in place and then breaks, and it is proved equal to `Merge`.

Three behaviours of the code are easy to misread:

- `from <= to` is not an invariant of the intervals: a range with a given start after "now" and no end gives `from > to`. The model proves only the conditional form, `AccumulateWellFormed`.
- The code replaces a bound with "now" whenever the bound is falsy, and that includes a timestamp of 0 (the epoch). The model treats `Some(0)` like `None`.
- The truncation test checks only `from < min` and `to > max`, as the code does. It does not check whether either bound lies outside the window in general.

## Model

| member | source | states |
|---|---|---|
| `Time.IntersectSymmetric` | src/utils/time.ts:7-12 | The overlap test gives the same answer whichever interval comes first. |
| `Time.TouchingIntersect` | src/utils/time.ts:7-12 | Two intervals that only share an endpoint intersect, so they are merged. |
| `Time.IntersectIffCommonInstant` | src/utils/time.ts:7-12 | For well-formed intervals, `from1 <= to2 && to1 >= from2` holds iff the two share at least one instant. |
| `Time.CalendarDaysInclusive` | src/utils/time.ts:15-35 | `isToday` and `isTomorrow` include both midnights of their day and exclude every instant outside them. |
| `Time.TodayAndTomorrowShareMidnight` | src/utils/time.ts:15-35 | When tomorrow starts one day after today, the only instant that is both today and tomorrow is tomorrow's midnight. |
| `Time.ResolveBound` | src/utils/time.ts:94-95 | A given non-zero bound is copied unchanged; an absent bound or the epoch 0 becomes `now`. |
| `Time.Candidate` | src/utils/time.ts:65-96 | The candidate carries the slot's raw text, which is what gets stored if it is appended. |
| `Time.InstantCandidateWidth` | src/utils/time.ts:82-90 | An instant's candidate starts at the instant. `to - from` is 7 days for week, 1 day for day, 1 hour for hour, and 0 for every other grain. |
| `Time.InstantCandidateContainsInstant` | src/utils/time.ts:82-90 | With non-negative constants, an instant's candidate is well formed and contains the instant. |
| `Time.RangeCandidateBounds` | src/utils/time.ts:92-96 | A range's candidate copies each given non-zero bound and replaces each missing bound, and each bound of 0, with `now`. |
| `Time.FirstMatch` | src/utils/time.ts:106-116 | The least index whose interval intersects the candidate, or the list length if none does. |
| `Time.Absorb` | src/utils/time.ts:107-114 | The widened interval contains both the old interval and the candidate. Each bound is one of theirs, i.e. it is `[min from, max to]`. It keeps the old interval's raw text. |
| `Time.MergeIntoFirstMatch` | src/utils/time.ts:106-116 | When interval k is the first to intersect the candidate, only k is widened, even if later intervals intersect too. Nothing is added and every other interval is unchanged. |
| `Time.MergeAppendsDisjoint` | src/utils/time.ts:103-119 | A candidate that intersects no interval is appended as exactly one new interval. This covers the empty list. |
| `Time.MergeWidens` | src/utils/time.ts:103-119 | A merge never shrinks an interval and never changes its raw text. It adds at most one interval, and some interval contains the candidate. |
| `Time.Accumulate` | src/utils/time.ts:61-121 | The accumulated list is never longer than the slot list, and it is non-empty when there is at least one slot. |
| `Time.AccumulateCoversCandidates` | src/utils/time.ts:98-119 | Every slot's candidate, out of range or not, lies unclipped inside some accumulated interval. |
| `Time.AccumulateBoundsFromCandidates` | src/utils/time.ts:103-119 | Every accumulated interval's `from`, `to` and raw text come from some slot's candidate. |
| `Time.AccumulateWellFormed` | src/utils/time.ts:103-119 | If every candidate has `from <= to`, so does every accumulated interval. |
| `Time.InsertByFrom` | src/utils/time.ts:124 | Insertion adds exactly the element, and the result starts with the element or with the list's old head. |
| `Time.InsertByFromSorted` | src/utils/time.ts:124 | Inserting into a list sorted by `from` keeps it sorted. |
| `Time.SortByFrom` | src/utils/time.ts:124 | The result is sorted ascending by `from` and is a permutation of the input. |
| `Time.InsertByFromStable` | src/utils/time.ts:124 | Insertion places the new element before every element with the same start. |
| `Time.SortByFromStable` | src/utils/time.ts:124 | For every start value, the intervals with that start keep their original relative order. |
| `Time.FoldCandidate` | src/utils/time.ts:103-120 | The `some` scan with its in-place widening, or the push, yields exactly `Merge` of the intervals and the candidate. |
| `Time.ExtractTimeIntervals` | src/utils/time.ts:44-127 | No slots yields exactly `[startOfToday, startOfToday + DAY]` and `false`. Otherwise the result is the sorted accumulation. `truncated` holds iff some candidate leaves the window. The result is sorted, non-empty and at most as long as the slot list. |
| `Time.ExtractTimeInterval` | src/utils/time.ts:37-42 | The result is never `null`. It is the first sorted interval with the same flag, and no accumulated interval starts earlier. |
| `TimeExamples.TouchingRangesMerge` | src/utils/time.ts:7-12 | `[day0, day1]` and `[day1, day2]` merge into `[day0, day2]`, keeping the first slot's text. |
| `TimeExamples.DisjointRangesSorted` | src/utils/time.ts:117-124 | `[day5, day6]` then `[day0, day1]` stay separate and come out in ascending order. |
| `TimeExamples.FirstMatchDoesNotCascade` | src/utils/time.ts:106-116 | A range bridging two intervals widens only the first, so the result holds two intervals that intersect each other. |
| `TimeExamples.EqualStartsKeepInsertionOrder` | src/utils/time.ts:106-124 | Widening can give two intervals the same start; the stable sort keeps them in insertion order. |
| `TimeExamples.WeekInstant` | src/utils/time.ts:83-85 | A week-grain instant yields one interval seven days long. |
| `TimeExamples.OpenRangeIsNow` | src/utils/time.ts:94-95 | A range with neither bound is the point interval at `now`. |
| `TimeExamples.TruncationAtUpperLimit` | src/utils/time.ts:56-101 | A range ending one millisecond past the upper limit is flagged. One ending exactly at the limit is not. |
| `TimeExamples.TomorrowTruncatedByRawHorizon` | src/utils/time.ts:56-101 | Because the limit is added as raw milliseconds, a day-grain instant for tomorrow is flagged iff `FORECAST_DAYS_LIMIT < DAY_MILLISECONDS`. |

## Left out

- `tests/httpMocks/index.ts`: HTTP stubs for the weather API, sample loading and the patched global `Date`. It is test plumbing with no logic of the extractor.
- Date handling: `new Date(...)` parsing, `getTime()` and the local-timezone `setHours(0, 0, 0, 0)` are not modelled. Their results enter as the integers of `Clock` and as the integer timestamps of slots. A string that fails to parse (NaN) is not modelled.
- The source reads `Date.now()` afresh for each missing bound. The model uses one `now` for every range slot of a call, so it does not capture the clock advancing between those reads. `startOfToday` comes from yet another clock read (`new Date()` at the start of the call), and `Clock` leaves it unrelated to `now`: the model does not promise that `now` falls within today.
- The `hermes-javascript` slot types are replaced by local datatypes. `Grain` lists the engine's eight grains.
- The values of `HOUR_MILLISECONDS`, `DAY_MILLISECONDS` and `FORECAST_DAYS_LIMIT` live in `src/constants`, which is not part of this model. They are parameters.
- JavaScript numbers are IEEE doubles. The model uses unbounded integers, which agree with them for timestamps below 2^53 milliseconds.
- `Time.SortByFrom`: `Array.prototype.sort` is library code that sorts in place. It is modelled as a stable insertion sort on values, matching the stability that ECMAScript 2019 requires. Engines before that requirement could order equal-start intervals differently.
- The interval objects that `some` mutates in place are values in a sequence. No other reference to those objects exists in the source, so no aliasing is lost.

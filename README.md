# Ranking race: a verified model of the data pipeline and playback cursor

The page `src/app/page.tsx` draws a racing bar chart of brand valuations.
The Dafny model covers its pipeline and its playback:

- decoded records (timestamp, name, category, value) are rolled up into one
  snapshot per date, each holding the value of every brand on that date;
- the snapshots are sorted by date;
- brands are ranked by value with ranks clamped at 15;
- ten interpolated keyframes are built per pair of consecutive snapshots;
- a cursor steps through the keyframes, driven by an interval and restarted
  by the "Start Replay" button.

| file | module | source |
|---|---|---|
| `aggregation.dfy` | `Aggregation` | `dateValues` rollup and sort, `companyNames` |
| `ranking.dfy` | `Ranking` | `rank` |
| `keyframes.dfy` | `Keyframes` | `keyframes` builder |
| `playback.dfy` | `Playback` | `keyFrameIndex`, `resetIndex`, the Start Replay handler |

How the source's types and behaviours are represented:

- **Dates** are `int` millisecond timestamps. Values are `real`, so interpolation at `t = i / 10` is exact.
- **Interpolated dates.** `new Date(x)` keeps the integral part of `x`, rounding toward zero; `Trunc` models this.
- **Name order.** A JavaScript `Set` and the `InternMap` of `d3.rollup` iterate in first-appearance order; `FirstAppearance` models this.
- **Stable sort.** `Array.prototype.sort` is stable. The model sorts with an insertion sort and proves two things:
  - the insertion sort is stable;
  - every descending sort that keeps ties in input order gives the same result.

  So the ranking does not depend on which stable sort the engine uses.
- **Interpolation formula.** The interpolation `a * (1 - t) + b * t` is computed one tenth of `b - a` at a time (`Tween`). `TweenIsLerp` proves it equal to the source's formula.
- **The rank callback.** The keyframe memo depends on `rank`, so `BuildKeyframes` takes it as an argument. The page's callback is `RankOver(names)`.
  - The two closures the builder passes to it (values interpolated at frame `i`, and a snapshot's own values) are represented as data, the `Valuation` datatype.
  - Facts about frame dates and positions hold for any callback; facts about entry values are stated for the page's.
- **Playback.** It is a sequential state machine. Intervals are numbered handles, and `live` is the set of handles not yet cleared.

Behaviour worth noting:

- the rollup reducer `([d]) => d.value` keeps the first record of each
  (date, name) group (src/app/page.tsx:48);
- with fewer than two snapshots `d3.pairs` yields no pair, so the keyframe
  sequence is empty (src/app/page.tsx:83);
- "Start Replay" does not check for an empty sequence, and `canReplay` is
  never cleared (src/app/page.tsx:238-246).

## Model

| member | source | states |
|---|---|---|
| Aggregation.FirstAppearance | src/app/page.tsx:59 | the result is duplicate-free, contains every element of the input, and only elements of the input |
| Aggregation.FirstAppearanceOrder | src/app/page.tsx:59 | set order is order of first appearance: an earlier name in the set occurs in the input before any occurrence of a later one |
| Aggregation.CompanyNames | src/app/page.tsx:58-61 | the name universe holds each record name exactly once, nothing else, in order of first appearance |
| Aggregation.Group | src/app/page.tsx:49-50 | a group holds exactly the records with that date and that name |
| Aggregation.Reduce | src/app/page.tsx:48 | definition of the reducer; its contract is `Aggregation.RollupKeepsFirst` |
| Aggregation.Rollup | src/app/page.tsx:46-51 | definition of the nested `d3.rollup`; its contracts are `Aggregation.RollupKeepsFirst` and `Aggregation.RollupEntriesFacts` |
| Aggregation.RollupKeepsFirst | src/app/page.tsx:46-51 | the outer keys are exactly the record dates and the names under a date exactly the names recorded on it; the value stored for the pair of every first record is that record's value, and every stored entry belongs to the first record of its (date, name) pair, so later records of a pair are ignored |
| Aggregation.RollupFirstValue | src/app/page.tsx:48 | for a record with no earlier record of its (date, name) pair, the rollup stores that pair with the record's value |
| Aggregation.RollupEntryHasFirst | src/app/page.tsx:46-51 | every (date, name) pair the rollup stores has a first record in the input |
| Aggregation.RollupEntriesFacts | src/app/page.tsx:45-53 | the entries of the rollup have distinct dates, are exactly the record dates, and each holds the rollup of its date |
| Aggregation.RollupEntries | src/app/page.tsx:45-53 | definition of `Array.from` over the rollup; its contract is `Aggregation.RollupEntriesFacts` |
| Aggregation.SortByDate | src/app/page.tsx:54 | the sort is a permutation of its input |
| Aggregation.SortByDateOrdered | src/app/page.tsx:54 | the sort's output ascends by date |
| Aggregation.SortByDateIncreasing | src/app/page.tsx:54 | with no repeated date, the output is strictly ascending |
| Aggregation.SortKeepsDates | src/app/page.tsx:54 | sorting neither adds nor loses a date |
| Aggregation.DateValues | src/app/page.tsx:43-56 | `dateValues` is strictly ascending by date, carries exactly the record dates, and each snapshot holds its date's rollup |
| Ranking.Score | src/app/page.tsx:65-68 | definition of the scored universe; its contract is part of `Ranking.RankIsClampedStableRanking` (one entry per name, carrying its value) |
| Ranking.SortDesc | src/app/page.tsx:69 | the descending sort is a permutation of its input |
| Ranking.InsertDescValued | src/app/page.tsx:69 | one insertion step puts the new element in front of every element of equal value that came after it in the input |
| Ranking.SortDescIsStableSort | src/app/page.tsx:69 | the output is non-increasing by value and equal values keep their input order |
| Ranking.StableSortIsUnique | src/app/page.tsx:69 | any non-increasing sequence that keeps ties in input order equals the model's sort, so every stable sort ranks the same way |
| Ranking.Rank | src/app/page.tsx:63-78 | definition of `rank`; its contract is `Ranking.RankIsClampedStableRanking` |
| Ranking.RankIsClampedStableRanking | src/app/page.tsx:63-78 | one entry per name of the universe, each carrying its value; non-increasing by value with ties in set order; entry 0 holds the maximum; rank is the position below 15 and exactly 15 from position 15 on; ranks never decrease |
| Ranking.RankNamesDistinct | src/app/page.tsx:65-68 | with a duplicate-free universe, no name is ranked twice |
| Keyframes.ValueOf | src/app/page.tsx:88-93 | definition of the two value closures, a missing name counting as 0; its contracts are `Keyframes.InterpolatedValues` and `Keyframes.LastFrameIsLastSnapshot` |
| Keyframes.RankOver | src/app/page.tsx:88 | definition of the page's `rank` callback over a valuation; its contracts are `Keyframes.InterpolatedValues` and `Keyframes.LastFrameIsLastSnapshot` |
| Keyframes.Trunc | src/app/page.tsx:87 | the date of a frame is the integral part of the interpolated timestamp, rounded toward zero |
| Keyframes.Tween | src/app/page.tsx:88 | definition of the interpolated value at step `i`; its contracts are `Keyframes.TweenIsLerp` and `Keyframes.TweenOrder` |
| Keyframes.TweenIsLerp | src/app/page.tsx:85-88 | the stepwise interpolation equals `a * (1 - t) + b * t` with `t = i / 10` |
| Keyframes.TweenOrder | src/app/page.tsx:85-88 | for `a <= b` and `i <= j <= 10` the interpolation lies between `a` and `b` and grows with `i`; the descending case of entry values is covered by `Keyframes.InterpolatedValues` |
| Keyframes.FrameDate | src/app/page.tsx:87 | definition of the date of frame `i`; its contracts are `Keyframes.FrameDateIsLerp` and `Keyframes.FrameDateOrder` |
| Keyframes.FrameDateIsLerp | src/app/page.tsx:87 | the frame date is `new Date(ka * (1 - t) + kb * t)` |
| Keyframes.InterpolatedFrame | src/app/page.tsx:86-89 | definition of interpolated frame `i`; its contracts are `Keyframes.FrameDateIsLerp`, `Keyframes.FirstFrameOfPairIsSnapshot` and `Keyframes.InterpolatedValues` |
| Keyframes.SnapshotFrame | src/app/page.tsx:93 | definition of the last snapshot's own frame; its contract is `Keyframes.LastFrameIsLastSnapshot` |
| Keyframes.KeyframeSequence | src/app/page.tsx:80-98 | definition of the keyframe sequence; its contracts are `Keyframes.KeyframesShape`, `Keyframes.KeyframeAt` and `Keyframes.KeyframeDatesNonDecreasing` |
| Keyframes.BuildKeyframes | src/app/page.tsx:80-98 | the nested loops produce exactly the keyframe sequence `KeyframeSequence` |
| Keyframes.KeyframesShape | src/app/page.tsx:83-95 | the sequence is empty exactly when there are fewer than two snapshots; otherwise it has `10 * (n - 1) + 1` frames and ends with the last snapshot's own frame |
| Keyframes.KeyframeAt | src/app/page.tsx:83-90 | frame `i` of pair `p` sits at position `10 * p + i` |
| Keyframes.InterpolatedAt | src/app/page.tsx:83-90 | the first `n` pairs give ten frames each, in pair order |
| Keyframes.PairFramesAt | src/app/page.tsx:84-89 | the pair's frames are frame 0, 1, ... in push order |
| Keyframes.FirstFrameOfPairIsSnapshot | src/app/page.tsx:85-88 | at `t = 0` the interpolated frame is the earlier snapshot's own frame |
| Keyframes.PairStartsAtSnapshot | src/app/page.tsx:84-89 | the first frame of every pair reproduces the pair's earlier snapshot exactly |
| Keyframes.InterpolatedValues | src/app/page.tsx:88 | each entry's value is `a(name) * (1 - t) + b(name) * t`, a missing name counting as 0, and lies between the two values |
| Keyframes.LastFrameIsLastSnapshot | src/app/page.tsx:92-94 | the final frame has the last snapshot's date and its raw values, a missing name counting as 0 |
| Keyframes.FrameDateOrder | src/app/page.tsx:87 | within a pair whose dates ascend, frame dates never decrease and stay between the two dates |
| Keyframes.AdjacentDates | src/app/page.tsx:83-95 | consecutive frames never go back in time when the snapshots ascend |
| Keyframes.KeyframeDatesNonDecreasing | src/app/page.tsx:83-95 | frame dates are non-decreasing over the whole sequence |
| Playback.Tick | src/app/page.tsx:128-136 | definition of one call of `resetIndex`; its contract is `Playback.TickStep` |
| Playback.Run | src/app/page.tsx:128-136 | definition of a run of ticks; its contracts are `Playback.RunFromStart` and `Playback.RunStaysInBounds` |
| Playback.TickStep | src/app/page.tsx:128-136 | a tick keeps the cursor in bounds and never moves it back; it advances by exactly one and stays armed exactly when the cursor is below the last index, and otherwise keeps the cursor and clears the interval |
| Playback.RunFromStart | src/app/page.tsx:128-136 | from a fresh start the cursor shows frame `n` after `n` ticks while `n` is below the frame count; the tick after it reaches the last frame clears the interval, leaving it on the last frame |
| Playback.RunStaysInBounds | src/app/page.tsx:128-136 | any number of ticks keeps the cursor a valid frame index, or 0 when there are no frames, and never moves it back |
| Playback.Scheduler.constructor | src/app/page.tsx:111-126 | the cursor starts at 0 (line 111), replay is not requested (line 124) and the interval ref is empty (line 126) |
| Playback.Scheduler.Start | src/app/page.tsx:238-246 | the interval in the ref is cleared before a new one is armed, so exactly one interval is live afterwards; the cursor is back at 0 |
| Playback.Scheduler.OnTick | src/app/page.tsx:128-136 | the new cursor and armed flag are one pure `Tick` of the old ones; the cursor never decreases and stays in bounds |

## Left out

- JSON parsing and `new Date(string)` (src/app/page.tsx:33-40): the model starts from decoded records. The `valuation-data` module that supplies them is not part of this model.
- IEEE-754 rounding of the interpolation and of `Date` arithmetic: the model computes with exact `real` values.
- D3 scales, the axis, year formatting and all rendering (src/app/page.tsx:100-122, 151-253); `src/components/bar-text-value.tsx` is not part of this model. The `console.log` in the Start Replay handler (src/app/page.tsx:239) is dropped as well.
- React memoisation and real timers: `setInterval` and `clearInterval` become handles in a set, and a tick is a call of `Scheduler.OnTick` by a live handle.
- The effect at src/app/page.tsx:138-147 also arms an interval whenever `canReplay` turns true. On the first click it overwrites the ref set by the handler, leaving an interval that can never be cleared. This concurrency between two intervals is not modelled; the model has the handler's single interval.
- Rendering with fewer than two snapshots: the sequence is then empty, so `keyframes[keyFrameIndex]` (src/app/page.tsx:114) is `undefined`, and reading `currentKeyFrame[1][0]` at src/app/page.tsx:121 throws. The model keeps the cursor at 0 and does not model that failure.
- The `category` field is carried in `Record` but no operation reads it.

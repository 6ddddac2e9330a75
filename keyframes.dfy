/**
 * The keyframe interpolator of the ranking-race page: for every consecutive
 * pair of date snapshots it emits `N_KEYFRAMES_PER_POINT` frames whose date
 * and per-name values are interpolated linearly at `t = i / 10`, each frame
 * re-ranked; after the last pair it appends the last snapshot itself.
 *
 * Like the page's memo, which depends on `dateValues` and `rank`, the builder
 * takes the ranking callback as an argument; the page's own callback is
 * `RankOver(names)`. The facts about frame dates and positions hold for any
 * callback, those about entry values for the page's.
 */
module Keyframes {
  import opened Aggregation
  import opened Ranking

  /** `N_KEYFRAMES_PER_POINT`: frames emitted per pair of consecutive snapshots. */
  const KeyframesPerPoint: nat := 10

  /** One animation frame: a date (millisecond timestamp) and the ranked entries. */
  datatype Keyframe = Keyframe(date: int, entries: seq<Entry>)

  /**
   * The value functions the builder hands to `rank`, as data: the values of
   * two snapshots interpolated at frame `step` of their pair, or the values of
   * one snapshot as they are.
   */
  datatype Valuation =
    | Between(from: map<string, real>, to: map<string, real>, step: nat)
    | At(values: map<string, real>)

  /** The value a valuation gives `name`. */
  function ValueOf(v: Valuation, name: string): real {
    match v
    case Between(from, to, step) => Tween(Get(from, name), Get(to, name), step)
    case At(values) => Get(values, name)
  }

  /** The `rank` callback the builder is given: ranks the name universe under a valuation. */
  type Ranker = Valuation -> seq<Entry>

  /** The page's `rank` over the name universe `names`. */
  function RankOver(names: seq<string>): Ranker {
    (v: Valuation) => Rank(names, name => ValueOf(v, name))
  }

  /** `m.get(name) || 0`: a name missing from a snapshot counts as 0. */
  function Get(m: map<string, real>, name: string): real
  {
    if name in m then m[name] else 0.0
  }

  /**
   * `new Date(x)` keeps the integral part of a millisecond count, rounding
   * toward zero.
   */
  function Trunc(x: real): (n: int)
    ensures 0.0 <= x ==> n as real <= x < n as real + 1.0
    ensures x < 0.0 ==> n as real - 1.0 < x <= n as real
  {
    if x >= 0.0 then x.Floor else -((-x).Floor)
  }

  lemma TruncMonotone(x: real, y: real)
    requires x <= y
    ensures Trunc(x) <= Trunc(y)
  {
  }

  lemma TruncOfInteger(k: int)
    ensures Trunc(k as real) == k
  {
  }

  /** `t = i / N_KEYFRAMES_PER_POINT`. */
  function Fraction(i: nat): (t: real)
    ensures i <= KeyframesPerPoint ==> 0.0 <= t <= 1.0
  {
    i as real / KeyframesPerPoint as real
  }

  /** `a * (1 - t) + b * t`. */
  function Lerp(a: real, b: real, t: real): real {
    a * (1.0 - t) + b * t
  }

  /** For `0 <= t <= 1` the interpolation lies between its two ends. */
  lemma LerpBetween(a: real, b: real, t: real)
    requires 0.0 <= t <= 1.0
    ensures a <= b ==> a <= Lerp(a, b, t) <= b
    ensures b <= a ==> b <= Lerp(a, b, t) <= a
  {
    assert Lerp(a, b, t) == a + (b - a) * t;
    assert Lerp(a, b, t) == b + (a - b) * (1.0 - t);
    if a <= b {
      NonNegativeProduct(b - a, t);
      NonNegativeProduct(b - a, 1.0 - t);
    } else {
      NonNegativeProduct(a - b, t);
      NonNegativeProduct(a - b, 1.0 - t);
    }
  }

  /** With `a <= b` the interpolation grows with `t`. */
  lemma LerpMonotone(a: real, b: real, s: real, t: real)
    requires a <= b && s <= t
    ensures Lerp(a, b, s) <= Lerp(a, b, t)
  {
    assert Lerp(a, b, t) - Lerp(a, b, s) == (b - a) * (t - s);
    NonNegativeProduct(b - a, t - s);
  }

  lemma NonNegativeProduct(x: real, y: real)
    requires 0.0 <= x && 0.0 <= y
    ensures 0.0 <= x * y
  {
  }

  /**
   * The interpolation at `t = i / 10`, built up one tenth of `b - a` at a
   * time; `TweenIsLerp` shows it is `Lerp(a, b, i / 10)`.
   */
  function Tween(a: real, b: real, i: nat): real {
    if i == 0 then a else Tween(a, b, i - 1) + (b - a) / KeyframesPerPoint as real
  }

  lemma {:induction false} TweenIsLerp(a: real, b: real, i: nat)
    ensures Tween(a, b, i) == Lerp(a, b, Fraction(i))
  {
    if i == 0 {
      assert Lerp(a, b, 0.0) == a;
    } else {
      TweenIsLerp(a, b, i - 1);
      var d := (b - a) / KeyframesPerPoint as real;
      assert Lerp(a, b, Fraction(i - 1)) == a + (i - 1) as real * d;
      assert Lerp(a, b, Fraction(i)) == a + i as real * d;
    }
  }

  /** Between its two ends, and growing with `i` when `a <= b`. */
  lemma TweenOrder(a: real, b: real, i: nat, j: nat)
    requires a <= b && i <= j <= KeyframesPerPoint
    ensures a <= Tween(a, b, i) <= Tween(a, b, j) <= b
  {
    TweenIsLerp(a, b, i);
    TweenIsLerp(a, b, j);
    LerpBetween(a, b, Fraction(i));
    LerpBetween(a, b, Fraction(j));
    LerpMonotone(a, b, Fraction(i), Fraction(j));
  }

  /** The date of frame `i` between the timestamps `ka` and `kb`: `new Date(ka * (1 - t) + kb * t)`. */
  function FrameDate(ka: int, kb: int, i: nat): int {
    Trunc(Tween(ka as real, kb as real, i))
  }

  /** The frame date is `new Date(ka * (1 - t) + kb * t)` with `t = i / 10`. */
  lemma FrameDateIsLerp(ka: int, kb: int, i: nat)
    ensures FrameDate(ka, kb, i) == Trunc(Lerp(ka as real, kb as real, Fraction(i)))
  {
    TweenIsLerp(ka as real, kb as real, i);
  }

  /** Frame `i` of the pair `(a, b)`: date and values interpolated at `t = i / 10`, then ranked. */
  function InterpolatedFrame(a: Snapshot, b: Snapshot, rank: Ranker, i: nat): Keyframe {
    Keyframe(FrameDate(a.date, b.date, i), rank(Between(a.values, b.values, i)))
  }

  /** The frame of a snapshot itself: its date and its raw values, ranked. */
  function SnapshotFrame(b: Snapshot, rank: Ranker): Keyframe {
    Keyframe(b.date, rank(At(b.values)))
  }

  /** The first `n` frames of the pair `(a, b)`, at `t = 0, 0.1, ..., (n - 1) / 10`. */
  function PairFrames(a: Snapshot, b: Snapshot, rank: Ranker, n: nat): (fs: seq<Keyframe>)
    ensures |fs| == n
  {
    if n == 0 then [] else PairFrames(a, b, rank, n - 1) + [InterpolatedFrame(a, b, rank, n - 1)]
  }

  /** The frames of the first `n` pairs, in order. */
  function Interpolated(snaps: seq<Snapshot>, rank: Ranker, n: nat): seq<Keyframe>
    requires n < |snaps|
  {
    if n == 0 then []
    else Interpolated(snaps, rank, n - 1) + PairFrames(snaps[n - 1], snaps[n], rank, KeyframesPerPoint)
  }

  /**
   * What the builder produces: nothing for fewer than two snapshots (there is
   * no pair); otherwise ten interpolated frames per pair, in order, followed
   * by the frame of the last snapshot.
   */
  function KeyframeSequence(snaps: seq<Snapshot>, rank: Ranker): seq<Keyframe> {
    if |snaps| < 2 then []
    else Interpolated(snaps, rank, |snaps| - 1) + [SnapshotFrame(snaps[|snaps| - 1], rank)]
  }

  /**
   * The `keyframes` builder: `d3.pairs` over the snapshots, ten pushes per
   * pair, and one push of the raw last snapshot after the last pair.
   */
  method BuildKeyframes(snaps: seq<Snapshot>, rank: Ranker) returns (frames: seq<Keyframe>)
    ensures frames == KeyframeSequence(snaps, rank)
  {
    frames := [];
    var index := 0;
    while index + 1 < |snaps|
      invariant index == 0 || index < |snaps|
      invariant index == 0 ==> frames == []
      invariant 0 < index == |snaps| - 1 ==> frames == KeyframeSequence(snaps, rank)
      invariant index + 1 < |snaps| ==> frames == Interpolated(snaps, rank, index)
    {
      var a, b := snaps[index], snaps[index + 1];
      ghost var done := frames;
      var i := 0;
      while i < KeyframesPerPoint
        invariant 0 <= i <= KeyframesPerPoint
        invariant frames == done + PairFrames(a, b, rank, i)
      {
        var frame := InterpolatedFrame(a, b, rank, i);
        PairFramesPush(done, a, b, rank, i);
        frames := frames + [frame];
        i := i + 1;
      }
      InterpolatedPush(snaps, rank, index);
      if index == |snaps| - 2 {
        KeyframesEnd(snaps, rank);
        frames := frames + [SnapshotFrame(b, rank)];
      }
      index := index + 1;
    }
  }

  /** One push of the inner loop extends the pair's frames by frame `i`. */
  lemma PairFramesPush(done: seq<Keyframe>, a: Snapshot, b: Snapshot, rank: Ranker, i: nat)
    ensures done + PairFrames(a, b, rank, i + 1) == (done + PairFrames(a, b, rank, i)) + [InterpolatedFrame(a, b, rank, i)]
  {
    AppendAssociates(done, PairFrames(a, b, rank, i), InterpolatedFrame(a, b, rank, i));
  }

  /** Ten pushes for pair `n` extend the frames of the first `n` pairs to those of the first `n + 1`. */
  lemma InterpolatedPush(snaps: seq<Snapshot>, rank: Ranker, n: nat)
    requires n + 1 < |snaps|
    ensures Interpolated(snaps, rank, n + 1) == Interpolated(snaps, rank, n) + PairFrames(snaps[n], snaps[n + 1], rank, KeyframesPerPoint)
  {
  }

  /** The builder's output is the interpolated frames followed by the last snapshot's frame. */
  lemma KeyframesEnd(snaps: seq<Snapshot>, rank: Ranker)
    requires |snaps| >= 2
    ensures KeyframeSequence(snaps, rank) == Interpolated(snaps, rank, |snaps| - 1) + [SnapshotFrame(snaps[|snaps| - 1], rank)]
  {
  }

  lemma AppendAssociates<T>(x: seq<T>, y: seq<T>, z: T)
    ensures (x + y) + [z] == x + (y + [z])
  {
  }

  /** Frame `i` of the pair sits at position `i`. */
  lemma {:induction false} PairFramesAt(a: Snapshot, b: Snapshot, rank: Ranker, n: nat, i: nat)
    requires i < n
    ensures PairFrames(a, b, rank, n)[i] == InterpolatedFrame(a, b, rank, i)
  {
    if i < n - 1 {
      PairFramesAt(a, b, rank, n - 1, i);
    }
  }

  /** The first `n` pairs give ten frames each, frame `i` of pair `p` at position `10 * p + i`. */
  lemma {:induction false} InterpolatedAt(snaps: seq<Snapshot>, rank: Ranker, n: nat, p: nat, i: nat)
    requires n < |snaps|
    requires p < n && i < KeyframesPerPoint
    ensures |Interpolated(snaps, rank, n)| == KeyframesPerPoint * n
    ensures Interpolated(snaps, rank, n)[KeyframesPerPoint * p + i] == InterpolatedFrame(snaps[p], snaps[p + 1], rank, i)
  {
    InterpolatedLength(snaps, rank, n - 1);
    var front := Interpolated(snaps, rank, n - 1);
    var pair := PairFrames(snaps[n - 1], snaps[n], rank, KeyframesPerPoint);
    assert Interpolated(snaps, rank, n) == front + pair;
    if p == n - 1 {
      PairFramesAt(snaps[n - 1], snaps[n], rank, KeyframesPerPoint, i);
      assert (front + pair)[KeyframesPerPoint * p + i] == pair[i];
    } else {
      InterpolatedAt(snaps, rank, n - 1, p, i);
      assert (front + pair)[KeyframesPerPoint * p + i] == front[KeyframesPerPoint * p + i];
    }
  }

  lemma {:induction false} InterpolatedLength(snaps: seq<Snapshot>, rank: Ranker, n: nat)
    requires n < |snaps|
    ensures |Interpolated(snaps, rank, n)| == KeyframesPerPoint * n
  {
    if n > 0 {
      InterpolatedLength(snaps, rank, n - 1);
    }
  }

  /**
   * The shape of the builder's output: empty exactly when there is no pair;
   * otherwise `10 * (snapshots - 1) + 1` frames with the last snapshot's own
   * frame last.
   */
  lemma KeyframesShape(snaps: seq<Snapshot>, rank: Ranker)
    ensures KeyframeSequence(snaps, rank) == [] <==> |snaps| < 2
    ensures |snaps| >= 2 ==> |KeyframeSequence(snaps, rank)| == KeyframesPerPoint * (|snaps| - 1) + 1
    ensures |snaps| >= 2 ==> KeyframeSequence(snaps, rank)[|KeyframeSequence(snaps, rank)| - 1] == SnapshotFrame(snaps[|snaps| - 1], rank)
  {
    if |snaps| >= 2 {
      InterpolatedLength(snaps, rank, |snaps| - 1);
    }
  }

  /** Frame `i` of pair `p` sits at position `10 * p + i` of the builder's output. */
  lemma KeyframeAt(snaps: seq<Snapshot>, rank: Ranker, p: nat, i: nat)
    requires p + 1 < |snaps| && i < KeyframesPerPoint
    ensures KeyframesPerPoint * p + i < |KeyframeSequence(snaps, rank)|
    ensures KeyframeSequence(snaps, rank)[KeyframesPerPoint * p + i] == InterpolatedFrame(snaps[p], snaps[p + 1], rank, i)
  {
    InterpolatedAt(snaps, rank, |snaps| - 1, p, i);
    var front := Interpolated(snaps, rank, |snaps| - 1);
    assert (front + [SnapshotFrame(snaps[|snaps| - 1], rank)])[KeyframesPerPoint * p + i] == front[KeyframesPerPoint * p + i];
  }

  /** Two functions that agree on every name of the universe rank it identically. */
  lemma RankDependsOnlyOnValues(names: seq<string>, f: string -> real, g: string -> real)
    requires forall n :: n in names ==> f(n) == g(n)
    ensures Rank(names, f) == Rank(names, g)
  {
    assert Score(names, f) == Score(names, g);
  }

  /** At `t = 0` the interpolation reproduces the earlier snapshot exactly. */
  lemma FirstFrameOfPairIsSnapshot(a: Snapshot, b: Snapshot, names: seq<string>)
    ensures InterpolatedFrame(a, b, RankOver(names), 0) == SnapshotFrame(a, RankOver(names))
  {
    TruncOfInteger(a.date);
    RankDependsOnlyOnValues(names,
      name => ValueOf(Between(a.values, b.values, 0), name),
      name => ValueOf(At(a.values), name));
  }

  /** Every pair's frames start with the earlier snapshot of that pair, unchanged. */
  lemma PairStartsAtSnapshot(snaps: seq<Snapshot>, names: seq<string>, p: nat)
    requires p + 1 < |snaps|
    ensures KeyframesPerPoint * p < |KeyframeSequence(snaps, RankOver(names))|
    ensures KeyframeSequence(snaps, RankOver(names))[KeyframesPerPoint * p] == SnapshotFrame(snaps[p], RankOver(names))
  {
    KeyframeAt(snaps, RankOver(names), p, 0);
    FirstFrameOfPairIsSnapshot(snaps[p], snaps[p + 1], names);
  }

  /**
   * Inside a frame of a pair, every entry's value is `Lerp` of the name's two
   * snapshot values (missing counting as 0) at `t = i / 10`, and lies between them.
   */
  lemma InterpolatedValues(a: Snapshot, b: Snapshot, names: seq<string>, i: nat)
    requires i <= KeyframesPerPoint
    ensures forall e :: e in InterpolatedFrame(a, b, RankOver(names), i).entries ==>
              && e.value == Lerp(Get(a.values, e.name), Get(b.values, e.name), Fraction(i))
              && (Get(a.values, e.name) <= Get(b.values, e.name) ==> Get(a.values, e.name) <= e.value <= Get(b.values, e.name))
              && (Get(b.values, e.name) <= Get(a.values, e.name) ==> Get(b.values, e.name) <= e.value <= Get(a.values, e.name))
  {
    var f := InterpolatedFrame(a, b, RankOver(names), i);
    RankIsClampedStableRanking(names, name => ValueOf(Between(a.values, b.values, i), name));
    forall e | e in f.entries
      ensures e.value == Lerp(Get(a.values, e.name), Get(b.values, e.name), Fraction(i))
      ensures Get(a.values, e.name) <= Get(b.values, e.name) ==> Get(a.values, e.name) <= e.value <= Get(b.values, e.name)
      ensures Get(b.values, e.name) <= Get(a.values, e.name) ==> Get(b.values, e.name) <= e.value <= Get(a.values, e.name)
    {
      var k :| 0 <= k < |f.entries| && f.entries[k] == e;
      TweenIsLerp(Get(a.values, e.name), Get(b.values, e.name), i);
      LerpBetween(Get(a.values, e.name), Get(b.values, e.name), Fraction(i));
    }
  }

  /** The last frame carries the last snapshot's date and its raw values. */
  lemma LastFrameIsLastSnapshot(snaps: seq<Snapshot>, names: seq<string>)
    requires |snaps| >= 2
    ensures var frames := KeyframeSequence(snaps, RankOver(names));
      && frames[|frames| - 1].date == snaps[|snaps| - 1].date
      && forall e :: e in frames[|frames| - 1].entries ==> e.value == Get(snaps[|snaps| - 1].values, e.name)
  {
    KeyframesShape(snaps, RankOver(names));
    var last := snaps[|snaps| - 1];
    var f := SnapshotFrame(last, RankOver(names));
    RankIsClampedStableRanking(names, name => ValueOf(At(last.values), name));
    forall e | e in f.entries ensures e.value == Get(last.values, e.name) {
      var k :| 0 <= k < |f.entries| && f.entries[k] == e;
    }
  }

  /** Within a pair whose dates ascend, frame dates never decrease and stay between the two dates. */
  lemma FrameDateOrder(ka: int, kb: int, i: nat, j: nat)
    requires ka <= kb
    requires i <= j <= KeyframesPerPoint
    ensures ka <= FrameDate(ka, kb, i) <= FrameDate(ka, kb, j) <= kb
  {
    var ra, rb := ka as real, kb as real;
    TweenOrder(ra, rb, i, j);
    TruncMonotone(ra, Tween(ra, rb, i));
    TruncMonotone(Tween(ra, rb, i), Tween(ra, rb, j));
    TruncMonotone(Tween(ra, rb, j), rb);
    TruncOfInteger(ka);
    TruncOfInteger(kb);
  }

  /** The date of frame `i` of pair `p`. */
  lemma FrameDateAt(snaps: seq<Snapshot>, rank: Ranker, p: nat, i: nat)
    requires p + 1 < |snaps| && i < KeyframesPerPoint
    ensures KeyframesPerPoint * p + i < |KeyframeSequence(snaps, rank)|
    ensures KeyframeSequence(snaps, rank)[KeyframesPerPoint * p + i].date == FrameDate(snaps[p].date, snaps[p + 1].date, i)
  {
    KeyframeAt(snaps, rank, p, i);
  }

  /** The date of the last frame. */
  lemma LastFrameDate(snaps: seq<Snapshot>, rank: Ranker)
    requires |snaps| >= 2
    ensures |KeyframeSequence(snaps, rank)| == KeyframesPerPoint * (|snaps| - 1) + 1
    ensures KeyframeSequence(snaps, rank)[KeyframesPerPoint * (|snaps| - 1)].date == snaps[|snaps| - 1].date
  {
    KeyframesShape(snaps, rank);
  }

  /** Every frame position is frame `i` of some pair `p`. */
  lemma PairPosition(k: nat) returns (p: nat, i: nat)
    ensures k == KeyframesPerPoint * p + i && i < KeyframesPerPoint
  {
    p, i := k / KeyframesPerPoint, k % KeyframesPerPoint;
  }

  /** Consecutive frames never go back in time when the snapshots ascend by date. */
  lemma AdjacentDates(snaps: seq<Snapshot>, rank: Ranker, k: nat)
    requires DatesNonDecreasing(snaps)
    requires k + 1 < |KeyframeSequence(snaps, rank)|
    ensures KeyframeSequence(snaps, rank)[k].date <= KeyframeSequence(snaps, rank)[k + 1].date
  {
    KeyframesShape(snaps, rank);
    var p, i := PairPosition(k);
    if i + 1 < KeyframesPerPoint {
      StepWithinPair(snaps, rank, p, i);
    } else if p + 2 < |snaps| {
      StepAcrossPairs(snaps, rank, p);
    } else {
      StepIntoLast(snaps, rank);
    }
  }

  lemma StepWithinPair(snaps: seq<Snapshot>, rank: Ranker, p: nat, i: nat)
    requires DatesNonDecreasing(snaps)
    requires p + 1 < |snaps| && i + 1 < KeyframesPerPoint
    ensures KeyframesPerPoint * p + i + 1 < |KeyframeSequence(snaps, rank)|
    ensures KeyframeSequence(snaps, rank)[KeyframesPerPoint * p + i].date <= KeyframeSequence(snaps, rank)[KeyframesPerPoint * p + i + 1].date
  {
    FrameDateAt(snaps, rank, p, i);
    FrameDateAt(snaps, rank, p, i + 1);
    FrameDateOrder(snaps[p].date, snaps[p + 1].date, i, i + 1);
  }

  lemma StepAcrossPairs(snaps: seq<Snapshot>, rank: Ranker, p: nat)
    requires DatesNonDecreasing(snaps)
    requires p + 2 < |snaps|
    ensures KeyframesPerPoint * p + KeyframesPerPoint < |KeyframeSequence(snaps, rank)|
    ensures KeyframeSequence(snaps, rank)[KeyframesPerPoint * p + KeyframesPerPoint - 1].date
         <= KeyframeSequence(snaps, rank)[KeyframesPerPoint * p + KeyframesPerPoint].date
  {
    var last := KeyframesPerPoint - 1;
    FrameDateAt(snaps, rank, p, last);
    FrameDateAt(snaps, rank, p + 1, 0);
    assert KeyframesPerPoint * p + KeyframesPerPoint == KeyframesPerPoint * (p + 1) + 0;
    FrameDateOrder(snaps[p].date, snaps[p + 1].date, last, last);
    FrameDateOrder(snaps[p + 1].date, snaps[p + 2].date, 0, 0);
  }

  lemma StepIntoLast(snaps: seq<Snapshot>, rank: Ranker)
    requires DatesNonDecreasing(snaps)
    requires |snaps| >= 2
    ensures |KeyframeSequence(snaps, rank)| == KeyframesPerPoint * (|snaps| - 1) + 1
    ensures KeyframeSequence(snaps, rank)[KeyframesPerPoint * (|snaps| - 1) - 1].date
         <= KeyframeSequence(snaps, rank)[KeyframesPerPoint * (|snaps| - 1)].date
  {
    var p, last := |snaps| - 2, KeyframesPerPoint - 1;
    LastFrameDate(snaps, rank);
    FrameDateAt(snaps, rank, p, last);
    assert KeyframesPerPoint * (|snaps| - 1) - 1 == KeyframesPerPoint * p + last;
    FrameDateOrder(snaps[p].date, snaps[p + 1].date, last, last);
  }

  /** A sequence of frames whose consecutive dates never decrease is ordered by date throughout. */
  lemma {:induction false} StepwiseOrderIsOrder(frames: seq<Keyframe>, j: nat, k: nat)
    requires forall m :: 0 <= m && m + 1 < |frames| ==> frames[m].date <= frames[m + 1].date
    requires j <= k < |frames|
    ensures frames[j].date <= frames[k].date
    decreases k - j
  {
    if j < k {
      StepwiseOrderIsOrder(frames, j + 1, k);
    }
  }

  /** Frame dates are non-decreasing over the whole sequence. */
  lemma KeyframeDatesNonDecreasing(snaps: seq<Snapshot>, rank: Ranker)
    requires DatesNonDecreasing(snaps)
    ensures var frames := KeyframeSequence(snaps, rank);
      forall j, k :: 0 <= j <= k < |frames| ==> frames[j].date <= frames[k].date
  {
    var frames := KeyframeSequence(snaps, rank);
    forall m | 0 <= m && m + 1 < |frames| ensures frames[m].date <= frames[m + 1].date {
      AdjacentDates(snaps, rank, m);
    }
    forall j, k | 0 <= j <= k < |frames| ensures frames[j].date <= frames[k].date {
      StepwiseOrderIsOrder(frames, j, k);
    }
  }
}

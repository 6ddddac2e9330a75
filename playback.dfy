/**
 * The playback cursor of the ranking-race page: `keyFrameIndex` selects the
 * frame on screen, an interval calls `resetIndex` once per tick, and the
 * "Start Replay" button rewinds the cursor and re-arms the interval.
 *
 * The pure part (`PlayState`, `Tick`, `Run`) states what one tick and a run of
 * ticks do; the `Scheduler` class holds the page's state in place and is
 * proved to follow it.
 */
module Playback {
  datatype Option<T> = None | Some(value: T)

  /** The cursor and whether an interval is still armed to move it. */
  datatype PlayState = PlayState(cursor: int, armed: bool)

  /** The last index the cursor may reach for a sequence of `length` frames (0 when empty). */
  function LastIndex(length: nat): nat {
    if length == 0 then 0 else length - 1
  }

  /**
   * One call of `resetIndex` on a sequence of `length` frames: below the last
   * index the cursor moves one frame on; at or past it the cursor stays and
   * the interval is cleared. Without an armed interval nothing calls it.
   */
  function Tick(s: PlayState, length: nat): PlayState {
    if !s.armed then s
    else if s.cursor >= length - 1 then PlayState(s.cursor, false)
    else PlayState(s.cursor + 1, true)
  }

  /** `n` ticks in a row. */
  function Run(s: PlayState, length: nat, n: nat): PlayState
    decreases n
  {
    if n == 0 then s else Run(Tick(s, length), length, n - 1)
  }

  /** The cursor stays a valid frame index (0 when there are no frames). */
  predicate InBounds(s: PlayState, length: nat) {
    0 <= s.cursor <= LastIndex(length)
  }

  /**
   * A tick keeps the cursor in bounds and never moves it back; it moves it
   * forward by exactly one, and keeps the interval armed, exactly when an
   * armed cursor is below the last index.
   */
  lemma TickStep(s: PlayState, length: nat)
    requires InBounds(s, length)
    ensures InBounds(Tick(s, length), length)
    ensures s.cursor <= Tick(s, length).cursor
    ensures s.armed && s.cursor + 1 < length <==> Tick(s, length) == PlayState(s.cursor + 1, true)
    ensures !(s.armed && s.cursor + 1 < length) ==> Tick(s, length).cursor == s.cursor && !Tick(s, length).armed
    ensures Tick(s, length).armed ==> s.armed
  {
  }

  /**
   * From a fresh start the cursor shows frame `n` after `n` ticks while `n`
   * is below the number of frames; the tick after the cursor reached the last
   * frame clears the interval, and from then on the cursor rests on the last
   * frame.
   */
  lemma {:induction false} RunFromStart(length: nat, n: nat)
    ensures n < length || n == 0 ==> Run(PlayState(0, true), length, n) == PlayState(n, true)
    ensures !(n < length || n == 0) ==> Run(PlayState(0, true), length, n) == PlayState(LastIndex(length), false)
  {
    if n > 0 {
      RunFromStart(length, n - 1);
      var s := Run(PlayState(0, true), length, n - 1);
      RunLast(PlayState(0, true), length, n - 1);
      assert Run(PlayState(0, true), length, n) == Tick(s, length);
      if !(n - 1 < length || n - 1 == 0) {
        assert Tick(s, length) == s;
      }
    }
  }

  /** The last of `n + 1` ticks is applied to the state left by the first `n`. */
  lemma {:induction false} RunLast(s: PlayState, length: nat, n: nat)
    ensures Run(s, length, n + 1) == Tick(Run(s, length, n), length)
    decreases n
  {
    if n > 0 {
      RunLast(Tick(s, length), length, n - 1);
    }
  }

  /** Any number of ticks from an in-bounds state keeps the cursor in bounds and never moves it back. */
  lemma {:induction false} RunStaysInBounds(s: PlayState, length: nat, n: nat)
    requires InBounds(s, length)
    ensures InBounds(Run(s, length, n), length)
    ensures s.cursor <= Run(s, length, n).cursor
    decreases n
  {
    if n > 0 {
      TickStep(s, length);
      RunStaysInBounds(Tick(s, length), length, n - 1);
    }
  }

  /**
   * The page's playback state: the cursor `keyFrameIndex`, the `interval` ref
   * holding the handle of the last interval armed, the handles of the
   * intervals still live, and the `canReplay` flag.
   */
  class Scheduler {
    var keyFrameIndex: int
    const frameCount: nat
    var interval: Option<nat>
    var live: set<nat>
    var nextHandle: nat
    var canReplay: bool

    /** At most the interval held by the ref is live, and the cursor is in bounds. */
    ghost predicate Valid()
      reads this
    {
      && (interval.None? ==> live == {})
      && (interval.Some? ==> live <= {interval.value} && interval.value < nextHandle)
      && InBounds(State(), frameCount)
    }

    /** The playback state seen by the pure model. */
    function State(): PlayState
      reads this
    {
      PlayState(keyFrameIndex, interval.Some? && interval.value in live)
    }

    /** Initial state: cursor 0, no interval yet, replay not requested. */
    constructor (frameCount: nat)
      ensures Valid()
      ensures this.frameCount == frameCount
      ensures keyFrameIndex == 0 && interval == None && live == {} && !canReplay
    {
      this.frameCount := frameCount;
      keyFrameIndex := 0;
      interval := None;
      live := {};
      nextHandle := 0;
      canReplay := false;
    }

    /**
     * The "Start Replay" handler: request replay, clear the interval in the
     * ref, arm a new one and rewind the cursor to frame 0. Afterwards exactly
     * one interval is live, the new one.
     */
    method Start() returns (h: nat)
      requires Valid()
      modifies this
      ensures Valid()
      ensures h !in old(live) && h >= old(nextHandle)
      ensures live == {h} && interval == Some(h) && nextHandle == old(nextHandle) + 1
      ensures keyFrameIndex == 0 && canReplay
      ensures State() == PlayState(0, true)
    {
      canReplay := true;
      if interval.Some? {
        live := live - {interval.value};
      }
      h := nextHandle;
      nextHandle := nextHandle + 1;
      live := live + {h};
      interval := Some(h);
      keyFrameIndex := 0;
    }

    /**
     * `resetIndex`, called by the live interval `h`: advance the cursor below
     * the last frame, otherwise keep it and clear the interval in the ref.
     */
    method OnTick(h: nat)
      requires Valid() && h in live
      modifies this
      ensures Valid()
      ensures State() == Tick(old(State()), frameCount)
      ensures old(keyFrameIndex) <= keyFrameIndex
      ensures live == if old(keyFrameIndex) >= frameCount - 1 then old(live) - {h} else old(live)
      ensures interval == old(interval) && canReplay == old(canReplay) && nextHandle == old(nextHandle)
    {
      TickStep(State(), frameCount);
      if keyFrameIndex >= frameCount - 1 {
        live := live - {interval.value};
      } else {
        keyFrameIndex := keyFrameIndex + 1;
      }
    }
  }
}

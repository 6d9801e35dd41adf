/**
 * What the transitions of Playback mean for the prefetch FIFO, for the
 * listener and for whole runs of ticks.
 */
module PlaybackProperties {
  import opened Options
  import opened Frames
  import opened Stepping
  import opened Prefetch
  import Listener
  import opened Playback

  /**
   * An animated selection of a frame the FIFO holds: a loaded entry is shown
   * as it is; an unloaded one shows the previous image and is marked skipped;
   * an unloaded last frame is dropped and, unless the current entry already
   * carries it, loaded synchronously. The entries after the match stay at the
   * head of the FIFO and the refill steps on from the last of them.
   */
  lemma AnimatedSelectionHit(e: Engine, frame: int, k: int)
    requires Inv(e) && 0 <= frame < |e.frames|
    requires 0 <= k < |e.cachedFrames| && e.cachedFrames[k].index == frame
    requires forall j :: 0 <= j < k ==> e.cachedFrames[j].index != frame
    ensures var f := e.cachedFrames[k];
            var r := SelectFrame(e, frame, true);
            && (f.drawable.Some? ==> r.current == Some(f.(skipped := false)))
            && (f.drawable.None? && frame != |e.frames| - 1 ==>
                  r.current == Some(f.(drawable := e.current.value.drawable, skipped := true)))
            && (f.drawable.None? && frame == |e.frames| - 1 ==>
                  r.current == if e.current.value.index == frame then e.current
                               else Some(LoadedNow(e.frames, e.res, frame)))
            && r.cachedFrames == e.cachedFrames[k + 1..] +
                 Refill(e.frames, RefillBase(e.cachedFrames[k + 1..], frame), e.reverse,
                        CacheSize - (|e.cachedFrames| - k - 1))
  {
    DrainHit(e.cachedFrames, e.current, frame, |e.frames|, k);
  }

  /**
   * An animated selection of a frame the FIFO does not hold: the FIFO is
   * emptied and refilled from the frame itself, and the frame is loaded
   * synchronously unless the current entry already carries it.
   */
  lemma AnimatedSelectionMiss(e: Engine, frame: int)
    requires Inv(e) && 0 <= frame < |e.frames|
    requires forall j :: 0 <= j < |e.cachedFrames| ==> e.cachedFrames[j].index != frame
    ensures var r := SelectFrame(e, frame, true);
            && r.current == (if e.current.Some? && e.current.value.index == frame then e.current
                             else Some(LoadedNow(e.frames, e.res, frame)))
            && r.cachedFrames == Refill(e.frames, frame, e.reverse, CacheSize)
  {
    DrainMiss(e.cachedFrames, e.current, frame, |e.frames|);
  }

  /** Calling stop twice is the same as calling it once. */
  lemma StopIdempotent(e: Engine)
    requires Inv(e)
    ensures Stop(Stop(e)) == Stop(e)
  {
  }

  /**
   * stop() is documented to have no effect on an animation that is not
   * running, yet it clears the intent to animate regardless. On a hidden
   * drawable, start() only records that intent; a stop() then withdraws it,
   * so showing the drawable again no longer plays it.
   */
  lemma StopWhileHiddenCancelsShow(e: Engine)
    requires Inv(e) && !e.visible && !e.running && |e.frames| > 0
    ensures !Start(e).running && Stop(Start(e)) != Start(e)
    ensures SetVisible(Start(e), true, false).running
    ensures !SetVisible(Stop(Start(e)), true, false).running
  {
  }

  /**
   * Starting a stopped, visible animation that has more than one frame or
   * loops reports the start, then the current frame, and schedules a tick
   * with that frame's duration.
   */
  lemma StartPlays(e: Engine)
    requires Inv(e) && !e.running && e.visible
    requires 0 <= e.curFrame < |e.frames| && (|e.frames| > 1 || !e.oneShot)
    ensures var r := Start(e);
            && r.running && r.animating && r.curFrame == e.curFrame
            && r.timer == Some(e.frames[e.curFrame].duration)
            && |r.cachedFrames| == CacheSize
            && r.events == e.events + [Listener.Start, Listener.NextFrame(e.curFrame, r.current.value.skipped)]
  {
  }

  /**
   * A one-shot animation of a single frame: start reports the start only,
   * shows the frame without reporting it, and schedules nothing.
   */
  lemma StartSingleFrameOneShot(e: Engine)
    requires Inv(e) && TimerOwned(e) && !e.running && e.visible
    requires |e.frames| == 1 && e.oneShot && e.curFrame == 0
    ensures var r := Start(e);
            && !r.running && !r.animating && r.timer.None? && r.cachedFrames == []
            && r.current.Some? && r.current.value.index == 0
            && r.events == e.events + [Listener.Start]
  {
  }

  /** Starting an animation without frames still reports the start, and changes nothing else but the intent. */
  lemma StartWithoutFrames(e: Engine)
    requires Inv(e) && !e.running && e.visible && e.frames == []
    ensures Start(e) == e.(animating := true, events := e.events + [Listener.Start])
  {
  }

  /** A looping tick moves to the next index around the cycle, reports it and stays scheduled. */
  lemma LoopingTick(e: Engine)
    requires Inv(e) && !e.oneShot && 0 <= e.curFrame < |e.frames|
    ensures var next := LazyNextIndex(e.curFrame, e.reverse, |e.frames|, false);
            var r := Run(e);
            && 0 <= next < |e.frames|
            && r.curFrame == next && r.running && r.animating
            && r.timer == Some(e.frames[next].duration)
            && r.events == e.events + [Listener.NextFrame(next, r.current.value.skipped)]
            && r.frames == e.frames && r.oneShot == e.oneShot && r.reverse == e.reverse
  {
  }

  /**
   * A one-shot tick landing on a frame reports that frame; if it is the
   * terminal tick it then reports the end and stops running.
   */
  lemma OneShotTick(e: Engine)
    requires Inv(e) && e.oneShot && e.running
    requires 0 <= Step(e.curFrame, e.reverse) < |e.frames|
    ensures var next := Step(e.curFrame, e.reverse);
            var last := IsLastFrame(e.curFrame, e.reverse, |e.frames|, true);
            var r := Run(e);
            && r.curFrame == next && r.running == !last && r.animating == !last
            && (last ==> r.timer.None? && r.cachedFrames == [])
            && (!last ==> r.timer == Some(e.frames[next].duration))
            && r.events == e.events + [Listener.NextFrame(next, r.current.value.skipped)] +
                           (if last then [Listener.End] else [])
            && r.frames == e.frames && r.oneShot == e.oneShot && r.reverse == e.reverse
  {
  }

  /**
   * A one-shot tick past the end (started on the last frame going forward,
   * or on the first going backwards) applies nothing, leaves the drawable
   * counting itself as running, and still reports the end.
   */
  lemma OneShotTickPastEnd(e: Engine)
    requires Inv(e) && e.oneShot && 0 <= e.curFrame < |e.frames|
    requires !(0 <= Step(e.curFrame, e.reverse) < |e.frames|)
    ensures Run(e) == e.(timer := None, events := e.events + [Listener.End])
  {
  }

  /**
   * `ts` is a run of scheduled ticks: every state after the first is the one
   * before it once its tick has fired.
   */
  predicate TickRun(ts: seq<Engine>)
    decreases |ts|
  {
    |ts| <= 1 ||
    (TickRun(ts[..|ts| - 1]) && Inv(ts[|ts| - 2]) && ts[|ts| - 1] == Run(ts[|ts| - 2]))
  }

  /** `evs[from..]` reports, in order, the indices of the looping ticks from `cur`. */
  predicate ReportsLoop(evs: seq<Listener.Event>, from: nat, cur: int, reverse: bool, numFrames: int)
  {
    forall i :: from <= i < |evs| ==>
      evs[i].NextFrame? && evs[i].index == LazyLoop(cur, reverse, numFrames, i - from + 1)
  }

  /** The frame `k` one-shot steps away from `cur`, in the playback direction. */
  function Ahead(cur: int, reverse: bool, k: int): int
  {
    if reverse then cur - k else cur + k
  }

  /** `evs[from..]` reports, in order, the frames one-shot steps away from `cur`. */
  predicate ReportsAhead(evs: seq<Listener.Event>, from: nat, cur: int, reverse: bool)
  {
    forall i :: from <= i < |evs| ==>
      evs[i].NextFrame? && evs[i].index == Ahead(cur, reverse, i - from + 1)
  }

  /**
   * A looping animation keeps running: `k` ticks after `e` it is on the
   * index `k` looping steps away, still scheduled, and it has reported
   * exactly the indices of those `k` steps, in order.
   */
  lemma {:induction false} LoopingPlay(ts: seq<Engine>)
    requires ts != [] && TickRun(ts)
    requires Inv(ts[0]) && !ts[0].oneShot && 0 <= ts[0].curFrame < |ts[0].frames|
    ensures LoopedFrom(ts[0], ts[|ts| - 1], |ts| - 1)
  {
    var k := |ts| - 1;
    if k > 0 {
      var e := ts[0];
      LoopingPlay(ts[..k]);
      var p := ts[k - 1];
      LazyLoopInRange(e.curFrame, e.reverse, |e.frames|, k - 1);
      LoopingTickSteps(p, ts[k]);
      LoopingPlayStep(e, p, ts[k], k);
    }
  }

  /**
   * `t` is `k` looping ticks after `e`: on the index `k` looping steps away,
   * scheduled once it has ticked, with the same frames and modes, and with
   * exactly the indices of those steps reported after `e`'s events.
   */
  predicate LoopedFrom(e: Engine, t: Engine, k: nat)
  {
    && t.curFrame == LazyLoop(e.curFrame, e.reverse, |e.frames|, k)
    && (k > 0 ==> t.running && t.timer.Some?)
    && t.frames == e.frames && t.oneShot == e.oneShot && t.reverse == e.reverse
    && |t.events| == |e.events| + k && t.events[..|e.events|] == e.events
    && ReportsLoop(t.events, |e.events|, e.curFrame, e.reverse, |e.frames|)
  }

  /** What a looping tick does, as LoopingTick states it. */
  predicate LoopingStepped(p: Engine, t: Engine)
  {
    var next := LazyNextIndex(p.curFrame, p.reverse, |p.frames|, false);
    && t.curFrame == next && t.running && t.timer.Some?
    && t.current.Some?
    && t.events == p.events + [Listener.NextFrame(next, t.current.value.skipped)]
    && t.frames == p.frames && t.oneShot == p.oneShot && t.reverse == p.reverse
  }

  /** A looping tick from a frame in range is a LoopingStepped step. */
  lemma LoopingTickSteps(p: Engine, t: Engine)
    requires Inv(p) && !p.oneShot && 0 <= p.curFrame < |p.frames| && t == Run(p)
    ensures LoopingStepped(p, t)
  {
    LoopingTick(p);
  }

  /** The inductive step of LoopingPlay, about the states only. */
  lemma LoopingPlayStep(e: Engine, p: Engine, t: Engine, k: nat)
    requires 0 < k && 0 <= e.curFrame < |e.frames|
    requires LoopedFrom(e, p, k - 1) && LoopingStepped(p, t)
    ensures LoopedFrom(e, t, k)
  {
    assert t.events[..|e.events|] == p.events[..|e.events|];
  }

  /** Number of ticks a running one-shot animation has left before its terminal tick. */
  function TicksLeft(e: Engine): int
  {
    if e.reverse then e.curFrame else |e.frames| - 1 - e.curFrame
  }

  /**
   * A running one-shot animation moves one frame per tick in its direction,
   * reporting each frame, until the tick that lands on the last frame (or
   * the first, going backwards): that one also reports the end and stops.
   */
  lemma {:induction false} OneShotPlay(ts: seq<Engine>)
    requires ts != [] && TickRun(ts)
    requires Inv(ts[0]) && ts[0].oneShot && ts[0].running && 0 <= ts[0].curFrame < |ts[0].frames|
    requires |ts| - 1 <= TicksLeft(ts[0])
    ensures var e, t, k := ts[0], ts[|ts| - 1], |ts| - 1;
            var ended := k == TicksLeft(e) && k > 0;
            && t.curFrame == Ahead(e.curFrame, e.reverse, k)
            && t.running == !ended
            && (ended ==> t.timer.None? && t.cachedFrames == [])
            && t.frames == e.frames && t.oneShot && t.reverse == e.reverse
            && |t.events| == |e.events| + k + (if ended then 1 else 0)
            && t.events[..|e.events|] == e.events
            && ReportsAhead(t.events[..|e.events| + k], |e.events|, e.curFrame, e.reverse)
            && (ended ==> t.events[|t.events| - 1] == Listener.End)
  {
    var k := |ts| - 1;
    if k > 0 {
      var e := ts[0];
      OneShotPlay(ts[..k]);
      var p := ts[k - 1];
      assert p.events[..|e.events| + k - 1] == p.events;
      OneShotTick(p);
      assert OneShotStepped(p, ts[k]);
      OneShotPlayStep(e, p, ts[k], k);
    }
  }

  /** What a one-shot tick landing on a frame does, as OneShotTick states it. */
  predicate OneShotStepped(p: Engine, t: Engine)
  {
    var next := Step(p.curFrame, p.reverse);
    var last := IsLastFrame(p.curFrame, p.reverse, |p.frames|, true);
    && t.curFrame == next && t.running == !last
    && (last ==> t.timer.None? && t.cachedFrames == [])
    && t.current.Some?
    && t.events == p.events + [Listener.NextFrame(next, t.current.value.skipped)] +
                   (if last then [Listener.End] else [])
    && t.frames == p.frames && t.oneShot == p.oneShot && t.reverse == p.reverse
  }

  /** The inductive step of OneShotPlay, about the states only. */
  lemma OneShotPlayStep(e: Engine, p: Engine, t: Engine, k: nat)
    requires 0 < k <= TicksLeft(e) && 0 <= e.curFrame < |e.frames|
    requires p.curFrame == Ahead(e.curFrame, e.reverse, k - 1) && p.running
    requires p.frames == e.frames && p.oneShot && p.reverse == e.reverse
    requires |p.events| == |e.events| + k - 1 && p.events[..|e.events|] == e.events
    requires ReportsAhead(p.events, |e.events|, e.curFrame, e.reverse)
    requires OneShotStepped(p, t)
    ensures var ended := k == TicksLeft(e);
            && t.curFrame == Ahead(e.curFrame, e.reverse, k)
            && t.running == !ended
            && (ended ==> t.timer.None? && t.cachedFrames == [])
            && |t.events| == |e.events| + k + (if ended then 1 else 0)
            && t.events[..|e.events|] == e.events
            && ReportsAhead(t.events[..|e.events| + k], |e.events|, e.curFrame, e.reverse)
            && (ended ==> t.events[|t.events| - 1] == Listener.End)
  {
    assert t.events[..|e.events|] == p.events[..|e.events|];
    assert t.events[..|e.events| + k] == p.events + [t.events[|e.events| + k - 1]];
  }

  /**
   * Played forward from its first frame, a one-shot animation of `n >= 2`
   * frames reports the start, then frames 0 .. n-1 in order, then the end,
   * and has no tick pending afterwards.
   */
  lemma OneShotForwardFromStart(ts: seq<Engine>, e: Engine)
    requires Inv(e) && TimerOwned(e) && !e.running && e.visible
    requires e.oneShot && !e.reverse && e.curFrame == 0 && |e.frames| >= 2
    requires |ts| == |e.frames| && ts[0] == Start(e) && TickRun(ts)
    ensures var t := ts[|ts| - 1];
            && !t.running && t.timer.None?
            && |t.events| == |e.events| + |e.frames| + 2
            && t.events[..|e.events|] == e.events
            && t.events[|e.events|] == Listener.Start
            && ReportsAhead(t.events[..|e.events| + 1 + |e.frames|], |e.events| + 1, -1, false)
            && t.events[|t.events| - 1] == Listener.End
  {
    StartPlays(e);
    OneShotPlay(ts);
    ForwardFromStartEvents(e, ts[0], ts[|ts| - 1]);
  }

  /** The event bookkeeping of OneShotForwardFromStart, about the states only. */
  lemma ForwardFromStartEvents(e: Engine, s: Engine, t: Engine)
    requires !e.reverse && e.curFrame == 0 && |e.frames| >= 2
    requires s.curFrame == 0 && !s.reverse && |s.frames| == |e.frames| && s.current.Some?
    requires s.events == e.events + [Listener.Start, Listener.NextFrame(0, s.current.value.skipped)]
    requires var k := |e.frames| - 1;
             && k == TicksLeft(s)
             && !t.running && t.timer.None?
             && |t.events| == |s.events| + k + 1
             && t.events[..|s.events|] == s.events
             && ReportsAhead(t.events[..|s.events| + k], |s.events|, s.curFrame, s.reverse)
             && t.events[|t.events| - 1] == Listener.End
    ensures |t.events| == |e.events| + |e.frames| + 2
    ensures t.events[..|e.events|] == e.events
    ensures t.events[|e.events|] == Listener.Start
    ensures ReportsAhead(t.events[..|e.events| + 1 + |e.frames|], |e.events| + 1, -1, false)
    ensures t.events[|t.events| - 1] == Listener.End
  {
    assert t.events[..|e.events|] == s.events[..|e.events|];
    assert t.events[|e.events|] == s.events[|e.events|];
    assert t.events[|e.events| + 1] == s.events[|e.events| + 1];
    var n := |e.events| + 1 + |e.frames|;
    forall i | |e.events| + 1 <= i < n
      ensures t.events[..n][i].NextFrame? && t.events[..n][i].index == Ahead(-1, false, i - |e.events|)
    {
      if i > |e.events| + 1 {
        assert t.events[..n][i] == t.events[..|s.events| + |e.frames| - 1][i];
      }
    }
  }

  /**
   * Hiding a drawable clears its running flag, so showing it again without
   * a restart resumes from frame 0, not from the frame it was hidden on.
   */
  lemma HideThenShowRestartsFromZero(e: Engine)
    requires Inv(e) && e.visible && |e.frames| > 0
    ensures var r := SetVisible(SetVisible(e, false, false), true, false);
            r.curFrame == 0 && r.running == e.animating && r.animating == e.animating
  {
  }

  /**
   * Only a visible drawable runs: start needs visibility, hiding
   * unschedules, and every other operation either keeps the running flag
   * and visibility or clears the flag (setReverse and setOneShot touch
   * neither). A tick fires only while it is pending, which TimerOwned ties
   * to running.
   */
  lemma ShownWhileRunningKept(e: Engine, visible: bool, restart: bool, resId: int, duration: int, idx: int)
    requires Inv(e) && TimerOwned(e) && ShownWhileRunning(e) && duration >= 0
    ensures ShownWhileRunning(Start(e)) && ShownWhileRunning(Stop(e))
    ensures ShownWhileRunning(SetVisible(e, visible, restart))
    ensures ShownWhileRunning(AddFrame(e, resId, duration))
    ensures ShownWhileRunning(SelectDrawable(e, idx).0)
    ensures e.timer.Some? ==> ShownWhileRunning(Run(e))
  {
  }

  /** Background loads complete without touching the running flag or visibility. */
  lemma ShownWhileRunningKeptByLoads(e: Engine, k: int)
    requires Inv(e) && ShownWhileRunning(e)
    ensures 0 <= k < |e.cachedFrames| && e.cachedFrames[k].loading ==> ShownWhileRunning(CompleteLoad(e, k))
    ensures e.current.Some? && e.current.value.loading ==> ShownWhileRunning(CompleteCurrentLoad(e))
  {
  }

  /**
   * Because only a visible drawable runs, setVisible never takes its resume
   * branch: whenever showing (or a restart) applies a frame, that frame is 0.
   * A hidden drawable is not running, and a restart always starts over.
   */
  lemma ShowingRestartsFromZero(e: Engine, restart: bool)
    requires Inv(e) && ShownWhileRunning(e) && (restart || !e.visible) && |e.frames| > 0
    ensures RestartIndex(e, restart) == 0
    ensures var r := SetVisible(e, true, restart);
            r.curFrame == 0 && r.running == e.animating && r.visible
  {
  }

  /** An event with the skipped flag cleared: which frame was reported, not which image was drawn for it. */
  function Unflagged(ev: Listener.Event): Listener.Event
  {
    if ev.NextFrame? then Listener.NextFrame(ev.index, false) else ev
  }

  /** The two logs report the same events and frames, in the same order, up to the skipped flags. */
  predicate SameReports(xs: seq<Listener.Event>, ys: seq<Listener.Event>)
  {
    |xs| == |ys| && forall i :: 0 <= i < |xs| ==> Unflagged(xs[i]) == Unflagged(ys[i])
  }

  /**
   * Two states that agree on everything but the FIFO and the current entry,
   * with event logs that agree up to the skipped flags.
   */
  predicate SamePlayback(a: Engine, b: Engine)
  {
    && a.frames == b.frames && a.oneShot == b.oneShot && a.res == b.res
    && a.curFrame == b.curFrame && a.running == b.running && a.animating == b.animating
    && a.reverse == b.reverse && a.visible == b.visible && a.timer == b.timer
    && SameReports(a.events, b.events)
  }

  lemma SameReportsAppend(xs: seq<Listener.Event>, ys: seq<Listener.Event>, xs': seq<Listener.Event>, ys': seq<Listener.Event>)
    requires SameReports(xs, ys) && SameReports(xs', ys')
    ensures SameReports(xs + xs', ys + ys')
  {
    forall i | 0 <= i < |xs + xs'|
      ensures Unflagged((xs + xs')[i]) == Unflagged((ys + ys')[i])
    {
      if i >= |xs| {
        assert (xs + xs')[i] == xs'[i - |xs|] && (ys + ys')[i] == ys'[i - |ys|];
      }
    }
  }

  /**
   * setFrame does not look at images to decide what happens: from states
   * that differ only in images, it selects, schedules and reports the same
   * frame, at most with a different skipped flag.
   */
  lemma SetFrameSeesOnlyIndices(a: Engine, b: Engine, index: int, unschedule: bool, animate: bool)
    requires Inv(a) && Inv(b) && SamePlayback(a, b)
    ensures SamePlayback(SetFrame(a, index, unschedule, animate), SetFrame(b, index, unschedule, animate))
  {
    var ra, rb := SetFrame(a, index, unschedule, animate), SetFrame(b, index, unschedule, animate);
    if 0 <= index < |a.frames| {
      var na := if animate || (!unschedule && a.running) then [Report(ra)] else [];
      var nb := if animate || (!unschedule && b.running) then [Report(rb)] else [];
      SameReportsAppend(a.events, b.events, na, nb);
    }
  }

  /**
   * A tick does not look at images to decide what happens: from states that
   * differ only in images, it shows and schedules the same frame and tells
   * the listener the same things, at most with a different skipped flag.
   */
  lemma RunSeesOnlyIndices(a: Engine, b: Engine)
    requires Inv(a) && Inv(b) && SamePlayback(a, b)
    ensures SamePlayback(Run(a), Run(b))
  {
    var a1, b1 := a.(timer := None), b.(timer := None);
    var next := LazyNextIndex(a.curFrame, a.reverse, |a.frames|, a.oneShot);
    var last := IsLastFrame(a.curFrame, a.reverse, |a.frames|, a.oneShot);
    SetFrameSeesOnlyIndices(a1, b1, next, false, !last);
    var sa, sb := SetFrame(a1, next, false, !last), SetFrame(b1, next, false, !last);
    var tail: seq<Listener.Event> := if last then [Listener.End] else [];
    SameReportsAppend(sa.events, sb.events, tail, tail);
  }

  /**
   * An asynchronous load that completes only changes which image the next
   * tick draws: that tick shows, schedules and reports the same frames as
   * without it, and only the skipped flag of its report may differ.
   */
  lemma CompleteLoadKeepsPlayback(e: Engine, k: int)
    requires Inv(e) && 0 <= k < |e.cachedFrames| && e.cachedFrames[k].loading
    ensures SamePlayback(Run(CompleteLoad(e, k)), Run(e))
  {
    RunSeesOnlyIndices(CompleteLoad(e, k), e);
  }

  /** The same holds for the load of a promoted entry that completes after it became current. */
  lemma CurrentLoadKeepsPlayback(e: Engine)
    requires Inv(e) && e.current.Some? && e.current.value.loading
    ensures SamePlayback(Run(CompleteCurrentLoad(e)), Run(e))
  {
    RunSeesOnlyIndices(CompleteCurrentLoad(e), e);
  }
}

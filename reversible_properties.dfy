/**
 * What the transitions of ReversiblePlayback mean for the listener, for the
 * running flag and for whole runs of ticks. Apart from the lemmas about
 * runs, nothing is assumed of the framework calls: these hold whatever the
 * superclass does.
 */
module ReversibleProperties {
  import opened Stepping
  import Listener
  import opened ReversiblePlayback

  /**
   * setFrame tells the listener about the requested frame, never as
   * skipped, exactly when the superclass runs after applying it; without
   * `animate` the drawable is not running afterwards. Only the superclass
   * state and the events change.
   */
  lemma SetFrameReportsWhileRunning(a: Animation, call: SetFrameCall, frame: int, unschedule: bool, animate: bool)
    ensures var s := call(a.sup, frame, unschedule, animate);
            var r := SetFrame(a, call, frame, unschedule, animate);
            && (s.running ==> r.events == a.events + [Listener.NextFrame(frame, false)])
            && (!s.running ==> r.events == a.events)
            && r.sup.running == (animate && s.running)
            && r.sup.currentIndex == s.currentIndex && r.sup.animating == s.animating
            && r == a.(sup := r.sup, events := r.events)
  {
  }

  /**
   * A tick tells the listener that the animation ended exactly on the
   * terminal tick of a one-shot animation, and then as the last event,
   * after the frame's own report; a terminal tick leaves it not running.
   */
  lemma EndOnlyOnTerminalTick(a: Animation, call: SetFrameCall, unschedule: bool)
    ensures var cur := a.sup.currentIndex;
            var last := IsLastFrame(cur, a.reverse, a.numFrames, a.oneShot);
            var next := ReversibleNextIndex(cur, a.reverse, a.numFrames, a.oneShot);
            var s := call(a.sup, next, unschedule, !last);
            var r := NextFrame(a, call, unschedule);
            && r.events == a.events + (if s.running then [Listener.NextFrame(next, false)] else [])
                                    + (if last then [Listener.End] else [])
            && (Listener.End in r.events[|a.events|..] <==> last)
            && (last ==> !r.sup.running && a.oneShot)
  {
    var cur := a.sup.currentIndex;
    var last := IsLastFrame(cur, a.reverse, a.numFrames, a.oneShot);
    var next := ReversibleNextIndex(cur, a.reverse, a.numFrames, a.oneShot);
    var reports := if call(a.sup, next, unschedule, !last).running then [Listener.NextFrame(next, false)] else [];
    var tail := reports + (if last then [Listener.End] else []);
    var r := NextFrame(a, call, unschedule);
    assert r.events == a.events + tail;
    assert r.events[|a.events|..] == tail;
    assert Listener.End !in reports;
  }

  /**
   * A looping tick from a frame in range asks the superclass for the next
   * frame around the cycle of all frames, in the playback direction, and
   * keeps animating; it never ends the animation.
   */
  lemma LoopingTick(a: Animation, call: SetFrameCall, unschedule: bool)
    requires !a.oneShot && 0 <= a.sup.currentIndex < a.numFrames
    ensures var next := ReversibleNextIndex(a.sup.currentIndex, a.reverse, a.numFrames, false);
            var s := call(a.sup, next, unschedule, true);
            var r := NextFrame(a, call, unschedule);
            && 0 <= next < a.numFrames
            && next == (if a.reverse then a.sup.currentIndex - 1 else a.sup.currentIndex + 1) % a.numFrames
            && r.sup == s
            && r.events == a.events + (if s.running then [Listener.NextFrame(next, false)] else [])
  {
  }

  /**
   * A one-shot tick is never wrapped: it asks for the neighbouring frame
   * even outside the range, and is terminal exactly when that neighbour is
   * the last frame or beyond (forward), or the first frame or before
   * (backwards).
   */
  lemma OneShotTick(a: Animation, call: SetFrameCall, unschedule: bool)
    requires a.oneShot
    ensures var cur := a.sup.currentIndex;
            var next := if a.reverse then cur - 1 else cur + 1;
            var last := if a.reverse then next <= 0 else next >= a.numFrames - 1;
            var r := NextFrame(a, call, unschedule);
            && r.sup.currentIndex == call(a.sup, next, unschedule, !last).currentIndex
            && (last <==> |r.events| > |a.events| && r.events[|r.events| - 1] == Listener.End)
  {
    OneShotStep(a.sup.currentIndex, a.reverse, a.numFrames);
    EndOnlyOnTerminalTick(a, call, unschedule);
  }

  /**
   * Unlike the lazy drawable, a looping reverse tick from frame 1 lands on
   * frame 0 (wrap test `< 0`), where the lazy drawable jumps to the last
   * frame (wrap test `<= 0`).
   */
  lemma ReverseTickReachesZero(a: Animation, call: SetFrameCall)
    requires !a.oneShot && a.reverse && a.sup.currentIndex == 1 && 2 <= a.numFrames
    requires SelectsFrame(call, a.numFrames)
    ensures Run(a, call).sup.currentIndex == 0 && Run(a, call).sup.running
    ensures LazyNextIndex(1, true, a.numFrames, false) == a.numFrames - 1
  {
    assert call(a.sup, 0, false, true).currentIndex == 0;
  }

  /**
   * Given a superclass that selects the requested frame and keeps running,
   * `k` ticks of a looping animation walk the cycle of all frames: the
   * index is that of k looping steps and the listener hears each frame in
   * turn; nothing but the superclass state and the events changes.
   */
  lemma {:induction false} LoopingTicks(a: Animation, call: SetFrameCall, k: nat)
    requires !a.oneShot && 0 <= a.sup.currentIndex < a.numFrames
    requires SelectsFrame(call, a.numFrames)
    ensures var r := Ticks(a, call, k);
            && r.sup.currentIndex == ReversibleLoop(a.sup.currentIndex, a.reverse, a.numFrames, k)
            && r.events == a.events + LoopReports(a.sup.currentIndex, a.reverse, a.numFrames, k)
            && (k > 0 ==> r.sup.running)
            && r == a.(sup := r.sup, events := r.events)
  {
    if k > 0 {
      LoopingTicks(a, call, k - 1);
      var p := Ticks(a, call, k - 1);
      ReversibleLoopIsModular(a.sup.currentIndex, a.reverse, a.numFrames, k - 1);
      var next := ReversibleNextIndex(p.sup.currentIndex, a.reverse, a.numFrames, false);
      assert call(p.sup, next, false, true).currentIndex == next;
      var reports := LoopReports(a.sup.currentIndex, a.reverse, a.numFrames, k - 1);
      assert a.events + reports + [Listener.NextFrame(next, false)]
          == a.events + (reports + [Listener.NextFrame(next, false)]);
    }
  }

  /** Looping in either direction, every frame, 0 included, is shown within numFrames ticks. */
  lemma TicksVisitEveryFrame(a: Animation, call: SetFrameCall, target: int)
    requires !a.oneShot && 0 <= a.sup.currentIndex < a.numFrames && 0 <= target < a.numFrames
    requires SelectsFrame(call, a.numFrames)
    ensures exists k: nat :: k < a.numFrames && Ticks(a, call, k).sup.currentIndex == target
  {
    ReversibleVisitsAll(a.sup.currentIndex, a.reverse, a.numFrames, target);
    var k: nat :| k < a.numFrames && ReversibleLoop(a.sup.currentIndex, a.reverse, a.numFrames, k) == target;
    LoopingTicks(a, call, k);
  }

  /** start on a running or invisible drawable only records the intent to animate. */
  lemma StartWhenBusyOrHidden(a: Animation, call: SetFrameCall)
    requires a.sup.running || !a.visible
    ensures Start(a, call) == a.(sup := a.sup.(animating := true))
  {
  }

  /**
   * start on an idle visible drawable announces the start first, then
   * applies its current frame, asking to animate exactly when it has more
   * than one frame or loops; the frame report, if any, follows the start.
   */
  lemma StartAnnounces(a: Animation, call: SetFrameCall)
    requires !a.sup.running && a.visible
    ensures var animate := a.numFrames > 1 || !a.oneShot;
            var s := call(a.sup.(animating := true), a.sup.currentIndex, false, animate);
            var r := Start(a, call);
            && r.events == a.events + [Listener.Start] + (if s.running then [Listener.NextFrame(a.sup.currentIndex, false)] else [])
            && r.sup.running == (animate && s.running)
            && r.sup.currentIndex == s.currentIndex
  {
  }

  /** Starting a one-shot animation of at most one frame leaves the drawable not running. */
  lemma StartSingleFrameOneShot(a: Animation, call: SetFrameCall)
    requires !a.sup.running && a.visible && a.oneShot && a.numFrames <= 1
    ensures !Start(a, call).sup.running
    ensures Start(a, call).events[..|a.events| + 1] == a.events + [Listener.Start]
  {
  }

  /**
   * Given a superclass that selects the requested frame and keeps running,
   * starting an idle visible animation that loops or has several frames
   * plays from its current frame and reports it right after the start.
   */
  lemma StartPlays(a: Animation, call: SetFrameCall)
    requires !a.sup.running && a.visible && (a.numFrames > 1 || !a.oneShot)
    requires 0 <= a.sup.currentIndex < a.numFrames && SelectsFrame(call, a.numFrames)
    ensures Start(a, call).sup.running && Start(a, call).sup.currentIndex == a.sup.currentIndex
    ensures Start(a, call).events == a.events + [Listener.Start, Listener.NextFrame(a.sup.currentIndex, false)]
  {
    assert call(a.sup.(animating := true), a.sup.currentIndex, false, true).running;
  }

  /** stop on a drawable that is not running changes nothing. */
  lemma StopWhenIdle(a: Animation, stop: StopCall)
    requires !a.sup.running
    ensures Stop(a, stop) == a
  {
  }

  /** stop leaves everything but the superclass state alone; if the superclass stops running, a second stop is a no-op. */
  lemma StopIdempotent(a: Animation, stop: StopCall)
    requires !stop(a.sup).running
    ensures Stop(a, stop) == a.(sup := Stop(a, stop).sup)
    ensures Stop(Stop(a, stop), stop) == Stop(a, stop)
  {
  }

  /** setReverse turns the direction of the next looping tick around. */
  lemma SetReverseTurnsTick(a: Animation, call: SetFrameCall, reverse: bool)
    requires !a.oneShot && 0 <= a.sup.currentIndex < a.numFrames && SelectsFrame(call, a.numFrames)
    ensures var cur := a.sup.currentIndex;
            Run(SetReverse(a, reverse), call).sup.currentIndex == (if reverse then cur - 1 else cur + 1) % a.numFrames
  {
    var next := ReversibleNextIndex(a.sup.currentIndex, reverse, a.numFrames, false);
    assert call(a.sup, next, false, true).currentIndex == next;
  }
}

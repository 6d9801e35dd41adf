/**
 * LazyLoadingAnimationDrawable and its AnimationState as classes whose
 * methods update their fields in place. Each method is proved to perform
 * exactly the transition of the same name in module Playback, on the
 * snapshot of all fields playback depends on.
 */
module LazyLoading {
  import opened Options
  import opened Frames
  import opened Stepping
  import opened Prefetch
  import opened Listener
  import opened Playback

  /** AnimationState: the frame list, the one-shot flag and the loader, shared by the drawable. */
  class AnimationState {
    var frames: seq<Frame>   // mFrames
    var oneShot: bool        // mOneShot
    const res: Resources     // mRes

    constructor (res: Resources)
      ensures frames == [] && !oneShot && this.res == res
    {
      frames := [];
      oneShot := false;
      this.res := res;
    }

    /** getDuration: how long frame `i` shows; never negative for well-formed frames. */
    function Duration(i: int): (d: int)
      reads this
      requires 0 <= i < |frames|
      ensures WellFormed(frames) ==> d >= 0
      ensures d == frames[i].duration
    {
      frames[i].duration
    }

    /**
     * addFrame: append a frame numbered by its position. The first frame is
     * decoded at once (for the intrinsic size), so a missing first resource
     * throws NotFoundException and nothing is added; `added` is false then.
     */
    method AddFrame(resId: int, duration: int) returns (added: bool)
      requires WellFormed(frames) && duration >= 0
      modifies this
      ensures added <==> !(old(frames) == [] && resId in res.missing)
      ensures frames == if added then old(frames) + [Frame(|old(frames)|, resId, duration)] else old(frames)
      ensures WellFormed(frames) && oneShot == old(oneShot)
    {
      var f := Frame(|frames|, resId, duration);
      if |frames| == 0 {
        var first := Load(res, resId);
        if first.None? {
          return false;
        }
      }
      frames := frames + [f];
      added := true;
    }
  }

  /**
   * The drawable. `timer` is the tick posted with scheduleSelf (its delay,
   * while one is pending) and `events` the calls made on the attached
   * AnimationListener so far.
   */
  class LazyLoadingAnimationDrawable {
    const state: AnimationState            // mAnimationState
    var curFrame: int                      // mCurFrame
    var running: bool                      // mRunning
    var animating: bool                    // mAnimating
    var reverse: bool                      // mReverse
    var visible: bool                      // the Drawable's visibility
    var current: Option<FrameCache>        // mCurrent
    var cachedFrames: seq<FrameCache>      // mCachedFrames, head first
    var timer: Option<int>                 // the posted tick, if any
    ghost var events: seq<Event>           // the listener calls so far

    /** All the state playback depends on, as one value. */
    ghost function Snapshot(): Engine
      reads this, state
    {
      Engine(state.frames, state.oneShot, state.res, curFrame, running, animating, reverse,
             visible, current, cachedFrames, timer, events)
    }

    /** What holds between any two steps of the drawable's private methods. */
    ghost predicate Consistent()
      reads this, state
    {
      StateInv(state.frames, cachedFrames, current)
    }

    /** What holds whenever a public method is entered or left. */
    ghost predicate Valid()
      reads this, state
    {
      Inv(Snapshot()) && TimerOwned(Snapshot())
    }

    constructor (res: Resources)
      ensures fresh(state) && Valid()
      ensures Snapshot() == Init(res)
    {
      state := new AnimationState(res);
      curFrame := 0;
      running := false;
      animating := false;
      reverse := false;
      visible := true;
      current := None;
      cachedFrames := [];
      timer := None;
      events := [];
    }

    /** unscheduleSelf: remove the posted tick and stop counting as running. */
    method UnscheduleSelf()
      modifies this`running, this`timer
      ensures !running && timer.None?
    {
      running := false;
      timer := None;
    }

    /**
     * The drain loop of selectFrame: poll entries until one carries `frame`
     * and promote that one; the entries before it are discarded.
     */
    method Drain(frame: int)
      requires cachedFrames != [] ==> current.Some?
      modifies this`cachedFrames, this`current
      ensures cachedFrames == DrainFifo(old(cachedFrames), frame)
      ensures current == DrainCurrent(old(cachedFrames), old(current), frame, |state.frames|)
    {
      ghost var fifo := cachedFrames;
      var numFrames := |state.frames|;
      ghost var polled := 0;
      while cachedFrames != []
        invariant 0 <= polled <= |fifo| && cachedFrames == fifo[polled..]
        invariant forall j :: 0 <= j < polled ==> fifo[j].index != frame
        invariant current == old(current)
        modifies this`cachedFrames, this`current
        decreases |cachedFrames|
      {
        var f := cachedFrames[0];
        cachedFrames := cachedFrames[1..];
        polled := polled + 1;
        if f.index == frame {
          DrainHit(fifo, old(current), frame, numFrames, polled - 1);
          if f.drawable.Some? {
            current := Some(f.(skipped := false));
          } else if f.index != numFrames - 1 {
            current := Some(f.(drawable := current.value.drawable, skipped := true));
          }
          return;
        }
      }
      DrainMiss(fifo, old(current), frame, numFrames);
    }

    /**
     * The refill loop of selectFrame: append pending entries, stepping from
     * the last entry (or the selected frame) in the playback direction,
     * until the FIFO holds CacheSize entries.
     */
    method TopUp(frame: int)
      requires 0 <= frame < |state.frames| && |cachedFrames| <= CacheSize && InRange(cachedFrames, |state.frames|)
      modifies this`cachedFrames
      ensures cachedFrames == ToppedUp(old(cachedFrames), state.frames, frame, reverse)
    {
      ghost var kept := cachedFrames;
      ghost var base := RefillBase(kept, frame);
      ghost var added: seq<FrameCache> := [];
      var numFrames := |state.frames|;
      var d := if !reverse then 1 else -1;
      var nextFrame := (if cachedFrames == [] then frame else cachedFrames[|cachedFrames| - 1].index) + d;
      while |cachedFrames| < CacheSize
        invariant RefillProgress(cachedFrames, kept, added, state.frames, base, reverse, nextFrame)
        decreases CacheSize - |cachedFrames|
      {
        RefillNext(cachedFrames, kept, added, state.frames, base, reverse, nextFrame);
        if !reverse && nextFrame >= numFrames {
          nextFrame := 0;
        } else if reverse && nextFrame <= 0 {
          nextFrame := numFrames - 1;
        }
        var entry := Pending(state.frames, nextFrame);
        added := added + [entry];
        cachedFrames := cachedFrames + [entry];
        nextFrame := nextFrame + d;
      }
    }

    /**
     * selectFrame: record the frame; when animating, drain the FIFO up to the
     * entry carrying the frame and refill it to CacheSize entries; finally
     * load the frame synchronously unless the current entry carries it.
     */
    method SelectFrame(frame: int, animate: bool)
      requires Consistent() && 0 <= frame < |state.frames|
      modifies this`curFrame, this`cachedFrames, this`current
      ensures var r := Playback.SelectFrame(old(Snapshot()), frame, animate);
              curFrame == r.curFrame && cachedFrames == r.cachedFrames && current == r.current
      ensures curFrame == frame && current.Some? && current.value.index == frame
    {
      curFrame := frame;
      if animate {
        Advance(frame);
      }
      if current.None? || current.value.index != frame {
        var loaded := Load(state.res, state.frames[frame].resId);
        current := Some(FrameCache(frame, state.frames[frame].duration, loaded, false, false));
      }
    }

    /** The animated part of selectFrame: the drain loop, then the refill loop. */
    method Advance(frame: int)
      requires Consistent() && 0 <= frame < |state.frames|
      modifies this`cachedFrames, this`current
      ensures cachedFrames == ToppedUp(DrainFifo(old(cachedFrames), frame), state.frames, frame, reverse)
      ensures current == DrainCurrent(old(cachedFrames), old(current), frame, |state.frames|)
    {
      DrainFifoInRange(cachedFrames, frame, |state.frames|);
      Drain(frame);
      TopUp(frame);
    }

    /**
     * setFrame: ignore an index outside the frames; otherwise select it,
     * reschedule when animating, report it while running, and finish a
     * frame shown without animation.
     */
    method SetFrame(index: int, unschedule: bool, animate: bool)
      requires Consistent()
      modifies this`curFrame, this`running, this`animating, this`current, this`cachedFrames, this`timer, this`events
      ensures Snapshot() == Playback.SetFrame(old(Snapshot()), index, unschedule, animate)
    {
      if index < 0 || index >= |state.frames| {
        return;
      }
      ghost var e := Snapshot();
      animating := animate;
      SelectFrame(index, animate);
      assert Snapshot() == Playback.SelectFrame(e.(animating := animate), index, animate);
      Settle(index, unschedule, animate);
    }

    /**
     * The rest of setFrame once the frame is selected: unschedule when asked
     * or when animating, schedule the next tick when animating, report the
     * frame while running, and finish a frame shown without animation.
     */
    method Settle(index: int, unschedule: bool, animate: bool)
      requires Consistent() && 0 <= index < |state.frames| && curFrame == index && current.Some?
      modifies this`curFrame, this`running, this`timer, this`events, this`cachedFrames
      ensures Snapshot() == Playback.Settle(old(Snapshot()), index, unschedule, animate)
    {
      ghost var s := Snapshot();
      if unschedule || animate {
        UnscheduleSelf();
      }
      if animate {
        curFrame, running, timer := index, true, Some(state.Duration(index));
      }
      if running {
        events := events + [Event.NextFrame(current.value.index, current.value.skipped)];
      }
      if !animate {
        cachedFrames, running := [], false;
      }
      SettleFields(s, index, unschedule, animate, Snapshot());
    }

    /** nextFrame: step the index, wrap it when looping, apply it, and report the end of a one-shot run. */
    method NextFrame(unschedule: bool)
      requires Consistent()
      modifies this`curFrame, this`running, this`animating, this`current, this`cachedFrames, this`timer, this`events
      ensures Snapshot() == Playback.NextFrame(old(Snapshot()), unschedule)
    {
      ghost var e := Snapshot();
      var nextFrame := if !reverse then curFrame + 1 else curFrame - 1;
      var numFrames := |state.frames|;
      var isLastFrame := state.oneShot && (if !reverse then nextFrame >= numFrames - 1 else nextFrame <= 0);
      if !state.oneShot {
        if nextFrame >= numFrames {
          nextFrame := 0;
        } else if nextFrame <= 0 {
          nextFrame := numFrames - 1;
        }
      }
      assert nextFrame == LazyNextIndex(e.curFrame, e.reverse, |e.frames|, e.oneShot);
      assert isLastFrame == IsLastFrame(e.curFrame, e.reverse, |e.frames|, e.oneShot);
      SetFrame(nextFrame, unschedule, !isLastFrame);
      ghost var s := Snapshot();
      if isLastFrame {
        events := events + [End];
      }
      assert Snapshot() == s.(events := s.events + (if isLastFrame then [End] else []));
    }

    /** run: the posted tick fires, so it is no longer pending, and the animation advances. */
    method Run()
      requires Valid()
      modifies this`curFrame, this`running, this`animating, this`current, this`cachedFrames, this`timer, this`events
      ensures Valid()
      ensures Snapshot() == Playback.Run(old(Snapshot()))
    {
      timer := None;
      NextFrame(false);
    }

    /** start: want the animation; when stopped and visible, report the start and play from the current frame. */
    method Start()
      requires Valid()
      modifies this`curFrame, this`running, this`animating, this`current, this`cachedFrames, this`timer, this`events
      ensures Valid()
      ensures Snapshot() == Playback.Start(old(Snapshot()))
    {
      animating := true;
      if !running && visible {
        events := events + [Event.Start];
        SetFrame(curFrame, false, |state.frames| > 1 || !state.oneShot);
      }
    }

    /** stop: no longer want the animation; when running, remove the tick and flush the FIFO. */
    method Stop()
      requires Valid()
      modifies this
      ensures Valid()
      ensures Snapshot() == Playback.Stop(old(Snapshot()))
    {
      animating := false;
      if running {
        UnscheduleSelf();
        cachedFrames := [];
      }
    }

    /** setVisible: hiding removes the tick; showing, or a restart, reapplies the restart frame. */
    method SetVisible(visible: bool, restart: bool) returns (changed: bool)
      requires Valid()
      modifies this`visible, this`curFrame, this`running, this`animating, this`current, this`cachedFrames, this`timer, this`events
      ensures Valid()
      ensures changed <==> old(this.visible) != visible
      ensures Snapshot() == Playback.SetVisible(old(Snapshot()), visible, restart)
    {
      ghost var e := Snapshot();
      ghost var r := Playback.SetVisible(e, visible, restart);
      changed := this.visible != visible;
      this.visible := visible;
      if visible {
        if restart || changed {
          var startFromZero := restart || !running || curFrame >= |state.frames|;
          assert Snapshot() == e.(visible := true);
          SetFrame(if startFromZero then 0 else curFrame, true, animating);
        }
      } else {
        UnscheduleSelf();
      }
      assert Snapshot() == r;
    }

    /**
     * addFrame: append a frame and, when not running, show frame 0 without
     * animating. `added` is false when AnimationState.addFrame threw.
     */
    method AddFrame(resId: int, duration: int) returns (added: bool)
      requires Valid() && duration >= 0
      modifies this, state
      ensures Valid()
      ensures added <==> !AddFrameThrows(old(Snapshot()), resId)
      ensures Snapshot() == Playback.AddFrame(old(Snapshot()), resId, duration)
    {
      added := state.AddFrame(resId, duration);
      if !added {
        return;
      }
      if !running {
        SetFrame(0, true, false);
      }
    }

    /** selectDrawable: jump to a frame without playback; an index outside the frames throws from getFrame. */
    method SelectDrawable(idx: int) returns (outcome: Outcome)
      requires Valid()
      modifies this
      ensures Valid()
      ensures (Snapshot(), outcome) == Playback.SelectDrawable(old(Snapshot()), idx)
    {
      if idx == curFrame {
        return Returned(false);
      }
      if idx < 0 || idx >= |state.frames| {
        curFrame := idx;
        return IndexOutOfBounds;
      }
      SelectFrame(idx, false);
      return Returned(true);
    }

    /** setReverse: play backwards from the next tick on. */
    method SetReverse(reverse: bool)
      modifies this
      ensures Snapshot() == old(Snapshot()).(reverse := reverse)
    {
      this.reverse := reverse;
    }

    /** setOneShot: play once or loop, from the next tick on. */
    method SetOneShot(oneShot: bool)
      modifies state
      ensures Snapshot() == old(Snapshot()).(oneShot := oneShot)
    {
      state.oneShot := oneShot;
    }

    /** The executor finishes loading FIFO entry `k` (FrameCache.run). */
    method CompleteLoad(k: int)
      requires Valid() && 0 <= k < |cachedFrames| && cachedFrames[k].loading
      modifies this`cachedFrames
      ensures Valid()
      ensures Snapshot() == Playback.CompleteLoad(old(Snapshot()), k)
    {
      var f := cachedFrames[k];
      var loaded := Load(state.res, state.frames[f.index].resId);
      if loaded.Some? {
        f := f.(drawable := loaded);
      }
      cachedFrames := cachedFrames[k := f.(loading := false)];
    }

    /** The executor finishes loading the entry promoted to current while its load was pending (FrameCache.run). */
    method CompleteCurrentLoad()
      requires Valid() && current.Some? && current.value.loading
      modifies this`current
      ensures Valid()
      ensures Snapshot() == Playback.CompleteCurrentLoad(old(Snapshot()))
    {
      var f := current.value;
      var loaded := Load(state.res, state.frames[f.index].resId);
      if loaded.Some? {
        f := f.(drawable := loaded);
      }
      current := Some(f.(loading := false));
    }
  }
}

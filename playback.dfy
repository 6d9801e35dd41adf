/**
 * The state of a LazyLoadingAnimationDrawable as one value, and each of its
 * operations as a function from the state before to the state after. The
 * class in lazy_drawable.dfy is proved to perform exactly these transitions;
 * the lemmas at the end of this module state what they mean for playback.
 */
module Playback {
  import opened Options
  import opened Frames
  import opened Stepping
  import opened Prefetch
  import opened Listener

  /** Everything the drawable's playback depends on or changes. */
  datatype Engine = Engine(
    frames: seq<Frame>,              // AnimationState.mFrames
    oneShot: bool,                   // AnimationState.mOneShot
    res: Resources,                  // AnimationState.mRes, the loader
    curFrame: int,                   // mCurFrame
    running: bool,                   // mRunning
    animating: bool,                 // mAnimating
    reverse: bool,                   // mReverse
    visible: bool,                   // the Drawable's visibility
    current: Option<FrameCache>,     // mCurrent
    cachedFrames: seq<FrameCache>,   // mCachedFrames, the prefetch FIFO (head first)
    timer: Option<int>,              // the scheduled tick, with its delay, if one is pending
    events: seq<Event>)              // what the listener has been told so far

  /**
   * What every operation keeps: frames are well formed, the FIFO holds at
   * most CacheSize entries of existing frames, and there is a current entry
   * whenever the FIFO is not empty (so the skip branch has an image to borrow).
   */
  predicate Inv(e: Engine)
  {
    StateInv(e.frames, e.cachedFrames, e.current)
  }

  /** Inv, on the three parts of the state it constrains. */
  predicate StateInv(frames: seq<Frame>, fifo: seq<FrameCache>, current: Option<FrameCache>)
  {
    && WellFormed(frames)
    && |fifo| <= CacheSize
    && InRange(fifo, |frames|)
    && (fifo != [] ==> current.Some?)
    && (current.Some? ==> 0 <= current.value.index < |frames|)
  }

  /** A tick is only ever pending while the drawable counts itself as running. */
  predicate TimerOwned(e: Engine)
  {
    e.timer.Some? ==> e.running
  }

  /** The drawable only counts itself as running while it is visible. */
  predicate ShownWhileRunning(e: Engine)
  {
    e.running ==> e.visible
  }

  /** A new drawable: no frames, looping, forward, visible, nothing loaded or scheduled. */
  function Init(res: Resources): (r: Engine)
    ensures Inv(r) && TimerOwned(r)
    ensures r.frames == [] && r.cachedFrames == [] && r.current.None? && r.events == []
  {
    Engine([], false, res, 0, false, false, false, true, None, [], None, [])
  }

  /** unscheduleSelf: cancel the pending tick and stop counting as running. */
  function Unschedule(e: Engine): (r: Engine)
    ensures !r.running && r.timer.None?
    ensures r.(running := e.running, timer := e.timer) == e
  {
    e.(running := false, timer := None)
  }

  /**
   * selectFrame: record the frame; when animating, drain the FIFO up to the
   * entry carrying the frame and refill it to CacheSize entries; finally
   * load the frame synchronously unless the current entry carries it.
   */
  function SelectFrame(e: Engine, frame: int, animate: bool): (r: Engine)
    requires Inv(e) && 0 <= frame < |e.frames|
    ensures Inv(r)
    ensures r.curFrame == frame && r.current.Some? && r.current.value.index == frame
    ensures !animate ==> r.cachedFrames == e.cachedFrames
    ensures animate ==> |r.cachedFrames| == CacheSize
    ensures r == e.(curFrame := r.curFrame, current := r.current, cachedFrames := r.cachedFrames)
  {
    DrainFifoInRange(e.cachedFrames, frame, |e.frames|);
    var fifo := if animate then ToppedUp(DrainFifo(e.cachedFrames, frame), e.frames, frame, e.reverse)
                else e.cachedFrames;
    var cur := if animate then DrainCurrent(e.cachedFrames, e.current, frame, |e.frames|) else e.current;
    var shown := if cur.None? || cur.value.index != frame then Some(LoadedNow(e.frames, e.res, frame)) else cur;
    e.(curFrame := frame, cachedFrames := fifo, current := shown)
  }

  /** The event setFrame reports for the entry now current. */
  function Report(e: Engine): Event
    requires e.current.Some?
  {
    Event.NextFrame(e.current.value.index, e.current.value.skipped)
  }

  /**
   * setFrame: ignore an index outside the frames; otherwise select the frame,
   * reschedule when animating, report the frame while running, and clear
   * the FIFO and the running flag when not animating.
   */
  function SetFrame(e: Engine, index: int, unschedule: bool, animate: bool): (r: Engine)
    requires Inv(e)
    ensures Inv(r)
    // an index outside the frames changes nothing and reports nothing
    ensures !(0 <= index < |e.frames|) ==> r == e
    ensures 0 <= index < |e.frames| ==>
      && r.animating == animate && r.running == animate
      && r.curFrame == index && r.current.Some? && r.current.value.index == index
      && (animate ==> |r.cachedFrames| == CacheSize && r.timer == Some(e.frames[index].duration))
      && (!animate ==> r.cachedFrames == [] && r.timer == (if unschedule then None else e.timer))
      // the frame is reported exactly when the drawable is running at that point
      && r.events == e.events + (if animate || (!unschedule && e.running) then [Report(r)] else [])
      && r.frames == e.frames && r.oneShot == e.oneShot && r.res == e.res
      && r.reverse == e.reverse && r.visible == e.visible
  {
    if index < 0 || index >= |e.frames| then e
    else Settle(SelectFrame(e.(animating := animate), index, animate), index, unschedule, animate)
  }

  /**
   * The part of setFrame after selectFrame: unschedule when asked or when
   * animating, schedule the next tick when animating, report the frame
   * while running, and finish a non-animated frame.
   */
  function Settle(s: Engine, index: int, unschedule: bool, animate: bool): (r: Engine)
    requires Inv(s) && 0 <= index < |s.frames| && s.curFrame == index && s.current.Some?
    ensures Inv(r)
    ensures r.running == animate && r.curFrame == index && r.current == s.current
    ensures animate ==> r.cachedFrames == s.cachedFrames && r.timer == Some(s.frames[index].duration)
    ensures !animate ==> r.cachedFrames == [] && r.timer == (if unschedule then None else s.timer)
    ensures r.events == s.events + (if animate || (!unschedule && s.running) then [Report(s)] else [])
    ensures r == s.(running := r.running, cachedFrames := r.cachedFrames, timer := r.timer, events := r.events)
  {
    var u := if unschedule || animate then Unschedule(s) else s;
    var a := if animate then u.(curFrame := index, running := true, timer := Some(s.frames[index].duration)) else u;
    var n := if a.running then a.(events := a.events + [Report(a)]) else a;
    if !animate then n.(cachedFrames := [], running := false) else n
  }

  /** Settle's result is determined field by field. */
  lemma SettleFields(s: Engine, index: int, unschedule: bool, animate: bool, r: Engine)
    requires Inv(s) && 0 <= index < |s.frames| && s.curFrame == index && s.current.Some?
    requires r.frames == s.frames && r.oneShot == s.oneShot && r.res == s.res
    requires r.curFrame == index && r.animating == s.animating && r.reverse == s.reverse
    requires r.visible == s.visible && r.current == s.current && r.running == animate
    requires r.cachedFrames == if animate then s.cachedFrames else []
    requires r.timer == if animate then Some(s.frames[index].duration) else if unschedule then None else s.timer
    requires r.events == s.events + (if animate || (!unschedule && s.running) then [Report(s)] else [])
    ensures r == Settle(s, index, unschedule, animate)
  {
  }

  /**
   * nextFrame: step the index (wrapping only when looping), apply it with
   * animation unless this is the terminal tick, then report the end of a
   * one-shot animation.
   */
  function NextFrame(e: Engine, unschedule: bool): (r: Engine)
    requires Inv(e)
    ensures Inv(r)
    ensures r.frames == e.frames && r.oneShot == e.oneShot && r.reverse == e.reverse && r.visible == e.visible
    // events are only appended
    ensures |r.events| >= |e.events| && r.events[..|e.events|] == e.events
    // the end is reported on the terminal tick only, and as the last event
    ensures IsLastFrame(e.curFrame, e.reverse, |e.frames|, e.oneShot) ==>
              |r.events| > |e.events| && r.events[|r.events| - 1] == End
    ensures !IsLastFrame(e.curFrame, e.reverse, |e.frames|, e.oneShot) ==>
              |r.events| <= |e.events| + 1 && (|r.events| > |e.events| ==> r.events[|e.events|].NextFrame?)
    // a looping tick from a frame moves to the next index and keeps running
    ensures !e.oneShot && 0 <= e.curFrame < |e.frames| ==>
              r.running && r.curFrame == LazyNextIndex(e.curFrame, e.reverse, |e.frames|, false)
  {
    var next := LazyNextIndex(e.curFrame, e.reverse, |e.frames|, e.oneShot);
    var last := IsLastFrame(e.curFrame, e.reverse, |e.frames|, e.oneShot);
    var s := SetFrame(e, next, unschedule, !last);
    SetFrameAppendsReport(e, next, unschedule, !last);
    if last then s.(events := s.events + [End]) else s
  }

  /** setFrame keeps the frames and the flags, and appends at most one frame report. */
  lemma SetFrameAppendsReport(e: Engine, index: int, unschedule: bool, animate: bool)
    requires Inv(e)
    ensures var s := SetFrame(e, index, unschedule, animate);
            && s.frames == e.frames && s.oneShot == e.oneShot && s.reverse == e.reverse && s.visible == e.visible
            && |e.events| <= |s.events| <= |e.events| + 1 && s.events[..|e.events|] == e.events
            && (|s.events| > |e.events| ==> s.events[|e.events|].NextFrame?)
            && (0 <= index < |e.frames| ==> s.running == animate && s.curFrame == index)
  {
    var s := SetFrame(e, index, unschedule, animate);
    assert s.events[..|e.events|] == e.events;
  }

  /** run: the scheduled tick fires (and so is no longer pending) and advances the animation. */
  function Run(e: Engine): (r: Engine)
    requires Inv(e)
    ensures Inv(r)
    ensures TimerOwned(r)
  {
    NextFrame(e.(timer := None), false)
  }

  /**
   * start: mark the animation wanted; if it is not running and is visible,
   * report the start and apply the current frame, animating when there is
   * more than one frame or the animation loops.
   */
  function Start(e: Engine): (r: Engine)
    requires Inv(e)
    ensures Inv(r)
    ensures TimerOwned(e) ==> TimerOwned(r)
    // already running or invisible: only the intent changes
    ensures e.running || !e.visible ==> r == e.(animating := true)
    ensures !e.running && e.visible ==>
              r == SetFrame(e.(animating := true, events := e.events + [Event.Start]),
                            e.curFrame, false, |e.frames| > 1 || !e.oneShot)
  {
    var e1 := e.(animating := true);
    if !e.running && e.visible
    then SetFrame(e1.(events := e1.events + [Event.Start]), e.curFrame, false, |e.frames| > 1 || !e.oneShot)
    else e1
  }

  /** stop: drop the intent; if running, cancel the tick and flush the FIFO. */
  function Stop(e: Engine): (r: Engine)
    requires Inv(e)
    ensures Inv(r) && !r.animating && !r.running
    // no tick remains pending afterwards
    ensures TimerOwned(e) ==> r.timer.None? && TimerOwned(r)
    ensures e.running ==> r.cachedFrames == []
    // the frame, the current entry and the events are untouched
    ensures r.curFrame == e.curFrame && r.current == e.current && r.events == e.events
    ensures !e.running ==> r == e.(animating := false)
  {
    var e1 := e.(animating := false);
    if e.running then Unschedule(e1).(cachedFrames := []) else e1
  }

  /** Where setVisible restarts from: frame 0 on a restart, when not running, or when past the end. */
  function RestartIndex(e: Engine, restart: bool): (r: int)
    // only a running animation resumes, and then at its own frame
    ensures r != 0 ==> !restart && e.running && r == e.curFrame
    ensures !restart && e.running && 0 <= e.curFrame < |e.frames| ==> r == e.curFrame
    ensures 0 <= e.curFrame < |e.frames| ==> 0 <= r < |e.frames|
  {
    if restart || !e.running || e.curFrame >= |e.frames| then 0 else e.curFrame
  }

  /**
   * setVisible: becoming invisible cancels the tick; becoming visible, or a
   * restart while visible, applies the restart index with the current intent.
   */
  function SetVisible(e: Engine, visible: bool, restart: bool): (r: Engine)
    requires Inv(e)
    ensures Inv(r) && r.visible == visible
    ensures TimerOwned(e) ==> TimerOwned(r)
    // hiding cancels the tick but keeps the frame, the FIFO and the current entry
    ensures !visible ==> r == e.(visible := false, running := false, timer := None)
    // visible and neither a restart nor a change: nothing happens
    ensures visible && !restart && e.visible ==> r == e
    ensures visible && (restart || !e.visible) ==>
              r == SetFrame(e.(visible := true), RestartIndex(e, restart), true, e.animating)
  {
    var changed := e.visible != visible;
    var e1 := e.(visible := visible);
    if visible then
      if restart || changed then SetFrame(e1, RestartIndex(e, restart), true, e.animating) else e1
    else Unschedule(e1)
  }

  /** AnimationState.addFrame throws NotFoundException when the first frame's resource is missing. */
  predicate AddFrameThrows(e: Engine, resId: int)
  {
    e.frames == [] && resId in e.res.missing
  }

  /** addFrame: append the frame; when not running, show frame 0 without animating. */
  function AddFrame(e: Engine, resId: int, duration: int): (r: Engine)
    requires Inv(e) && duration >= 0
    ensures Inv(r)
    ensures TimerOwned(e) ==> TimerOwned(r)
    ensures AddFrameThrows(e, resId) ==> r == e
    // only the first frame is decoded when added, so only its failed load leaves the drawable as it was
    ensures r == e <==> e.frames == [] && Load(e.res, resId).None?
    ensures !AddFrameThrows(e, resId) ==> r.frames == e.frames + [Frame(|e.frames|, resId, duration)]
    ensures !AddFrameThrows(e, resId) && !e.running ==>
              r.curFrame == 0 && !r.running && !r.animating && r.cachedFrames == [] &&
              r.current.Some? && r.current.value.index == 0 && r.events == e.events
    ensures !AddFrameThrows(e, resId) && e.running ==> r == e.(frames := r.frames)
  {
    if AddFrameThrows(e, resId) then e
    else
      var e1 := e.(frames := e.frames + [Frame(|e.frames|, resId, duration)]);
      if !e.running then SetFrame(e1, 0, true, false) else e1
  }

  /** What selectDrawable returns, or that it throws IndexOutOfBoundsException. */
  datatype Outcome = Returned(changed: bool) | IndexOutOfBounds

  /**
   * selectDrawable: a jump to `idx` without playback. The same index returns
   * false; another index is selected without animation, and an index
   * outside the frames throws from getFrame after mCurFrame was set.
   */
  function SelectDrawable(e: Engine, idx: int): (r: (Engine, Outcome))
    requires Inv(e)
    ensures Inv(r.0)
    ensures TimerOwned(e) ==> TimerOwned(r.0)
    ensures idx == e.curFrame ==> r == (e, Returned(false))
    ensures idx != e.curFrame && !(0 <= idx < |e.frames|) ==> r == (e.(curFrame := idx), IndexOutOfBounds)
    // a jump shows the frame but reports nothing and leaves the playback flags and the FIFO alone
    ensures idx != e.curFrame && 0 <= idx < |e.frames| ==>
              r.1 == Returned(true) && r.0.curFrame == idx &&
              r.0.current.Some? && r.0.current.value.index == idx &&
              r.0 == e.(curFrame := idx, current := r.0.current)
  {
    if idx == e.curFrame then (e, Returned(false))
    else if idx < 0 || idx >= |e.frames| then (e.(curFrame := idx), IndexOutOfBounds)
    else (SelectFrame(e, idx, false), Returned(true))
  }

  /**
   * The asynchronous load of FIFO entry `k` completes (FrameCache.run on an
   * executor thread, which runs each submitted entry once).
   */
  function CompleteLoad(e: Engine, k: int): (r: Engine)
    requires Inv(e) && 0 <= k < |e.cachedFrames| && e.cachedFrames[k].loading
    ensures Inv(r) && |r.cachedFrames| == |e.cachedFrames|
    ensures var resId := e.frames[e.cachedFrames[k].index].resId;
            && (resId !in e.res.missing ==> r.cachedFrames[k].drawable == Some(Image(resId)))
            && (resId in e.res.missing ==> r.cachedFrames[k].drawable == e.cachedFrames[k].drawable)
    ensures !r.cachedFrames[k].loading
    ensures r.cachedFrames[k] == e.cachedFrames[k].(drawable := r.cachedFrames[k].drawable, loading := false)
    ensures forall j :: 0 <= j < |e.cachedFrames| && j != k ==> r.cachedFrames[j] == e.cachedFrames[j]
    ensures r == e.(cachedFrames := r.cachedFrames)
  {
    var f := e.cachedFrames[k];
    e.(cachedFrames := e.cachedFrames[k := Finish(f, e.res, e.frames[f.index].resId)])
  }

  /**
   * The asynchronous load of the current entry completes. Its load is still
   * pending when the drain promoted it unloaded with a stand-in image (the
   * polled FrameCache is the object the executor holds); the decoded image
   * then replaces the stand-in, which is what is drawn and what the next
   * skip borrows.
   */
  function CompleteCurrentLoad(e: Engine): (r: Engine)
    requires Inv(e) && e.current.Some? && e.current.value.loading
    ensures Inv(r) && r.current.Some? && !r.current.value.loading
    ensures var resId := e.frames[e.current.value.index].resId;
            && (resId !in e.res.missing ==> r.current.value.drawable == Some(Image(resId)))
            && (resId in e.res.missing ==> r.current.value.drawable == e.current.value.drawable)
    ensures r.current.value == e.current.value.(drawable := r.current.value.drawable, loading := false)
    ensures r == e.(current := r.current)
  {
    var f := e.current.value;
    e.(current := Some(Finish(f, e.res, e.frames[f.index].resId)))
  }
}

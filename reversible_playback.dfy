/**
 * The state of a ReversibleAnimationDrawable as one value, and each of its
 * operations as a function from the state before to the state after.
 *
 * The drawable drives the framework's AnimationDrawable by reflection: it
 * reads the superclass's current index and running flag, writes its
 * running and animating flags, and calls its private setFrame and its stop.
 * That superclass state is abstracted to `Super`, and the two framework
 * calls, whose code is not part of this model, are parameters of the
 * operations (`SetFrameCall`, `StopCall`). The class in
 * reversible_drawable.dfy is proved to perform exactly these transitions.
 */
module ReversiblePlayback {
  import opened Stepping
  import opened Listener

  /** The reflectively accessed part of AnimationDrawable. */
  datatype Super = Super(
    currentIndex: int,   // DrawableContainer.getCurrentIndex()
    running: bool,       // AnimationDrawable.mRunning, isRunning()
    animating: bool)     // AnimationDrawable.mAnimating

  /** AnimationDrawable.setFrame(frame, unschedule, animate) on the superclass state. */
  type SetFrameCall = (Super, int, bool, bool) -> Super

  /** AnimationDrawable.stop() on the superclass state. */
  type StopCall = Super -> Super

  /** Everything the drawable's playback depends on or changes. */
  datatype Animation = Animation(
    sup: Super,            // the superclass state
    reverse: bool,         // mReverse
    oneShot: bool,         // isOneShot()
    numFrames: nat,        // getNumberOfFrames()
    visible: bool,         // isVisible()
    events: seq<Event>)    // what the listener has been told so far

  /**
   * setFrame: the superclass applies the frame; the listener hears the
   * requested index (never skipped) if the superclass is running after
   * that; without `animate` the running flag is then forced off.
   */
  function SetFrame(a: Animation, call: SetFrameCall, frame: int, unschedule: bool, animate: bool): (r: Animation)
    // only the superclass state and the events change
    ensures r == a.(sup := r.sup, events := r.events)
    ensures r.sup.running ==> animate
    // at most the requested frame is reported, never as skipped
    ensures r.events == a.events || r.events == a.events + [Event.NextFrame(frame, false)]
  {
    var s := call(a.sup, frame, unschedule, animate);
    a.(sup := if animate then s else s.(running := false),
       events := a.events + if s.running then [Event.NextFrame(frame, false)] else [])
  }

  /**
   * nextFrame: step from the superclass's index; a looping animation wraps
   * into [0, numFrames) (reverse wrap test `< 0`), a one-shot one does not.
   * The frame is applied with `animate` off exactly on the terminal tick,
   * and only then, after the frame, does the listener hear the end.
   */
  function NextFrame(a: Animation, call: SetFrameCall, unschedule: bool): (r: Animation)
    ensures r == a.(sup := r.sup, events := r.events)
    ensures |a.events| <= |r.events| && r.events[..|a.events|] == a.events
    // the terminal tick stops the animation and ends with End
    ensures IsLastFrame(a.sup.currentIndex, a.reverse, a.numFrames, a.oneShot) ==>
              !r.sup.running && |r.events| > 0 && r.events[|r.events| - 1] == Event.End
  {
    var cur := a.sup.currentIndex;
    var last := IsLastFrame(cur, a.reverse, a.numFrames, a.oneShot);
    var r := SetFrame(a, call, ReversibleNextIndex(cur, a.reverse, a.numFrames, a.oneShot), unschedule, !last);
    if last then r.(events := r.events + [Event.End]) else r
  }

  /** run: the scheduled tick, which does not unschedule. */
  function Run(a: Animation, call: SetFrameCall): (r: Animation)
    ensures r == a.(sup := r.sup, events := r.events)
    ensures |a.events| <= |r.events| && r.events[..|a.events|] == a.events
  {
    NextFrame(a, call, false)
  }

  /**
   * start: the intent to animate is recorded first; only a drawable that is
   * neither running nor invisible announces the start and applies its
   * current frame, animating unless it is a one-shot of at most one frame.
   */
  function Start(a: Animation, call: SetFrameCall): (r: Animation)
    ensures r == a.(sup := r.sup, events := r.events)
    // running or invisible: only the intent to animate is recorded
    ensures a.sup.running || !a.visible ==> r.events == a.events && r.sup == a.sup.(animating := true)
    // otherwise the start is announced before anything else
    ensures !a.sup.running && a.visible ==> |r.events| > |a.events| && r.events[..|a.events| + 1] == a.events + [Event.Start]
  {
    var a1 := a.(sup := a.sup.(animating := true));
    if !a.sup.running && a.visible
    then SetFrame(a1.(events := a1.events + [Event.Start]), call, a.sup.currentIndex, false, a.numFrames > 1 || !a.oneShot)
    else a1
  }

  /** stop: handed to the superclass only while running. */
  function Stop(a: Animation, stop: StopCall): (r: Animation)
    ensures r == a.(sup := r.sup)
    ensures !a.sup.running ==> r == a
  {
    if a.sup.running then a.(sup := stop(a.sup)) else a
  }

  /** setReverse. */
  function SetReverse(a: Animation, reverse: bool): (r: Animation)
    ensures r.reverse == reverse && r.(reverse := a.reverse) == a
  {
    a.(reverse := reverse)
  }

  /** `k` scheduled ticks in a row. */
  function Ticks(a: Animation, call: SetFrameCall, k: nat): Animation
  {
    if k == 0 then a else Run(Ticks(a, call, k - 1), call)
  }

  /** The frame reports of `k` looping ticks from `cur`, one per tick, in order. */
  function LoopReports(cur: int, reverse: bool, numFrames: int, k: nat): seq<Event>
  {
    if k == 0 then [] else LoopReports(cur, reverse, numFrames, k - 1) + [Event.NextFrame(ReversibleLoop(cur, reverse, numFrames, k), false)]
  }

  /**
   * What the framework's setFrame is relied on to do for an in-range frame:
   * select that frame, and be running afterwards when asked to animate.
   */
  ghost predicate SelectsFrame(call: SetFrameCall, numFrames: int)
  {
    forall s: Super, i: int, u: bool, an: bool :: 0 <= i < numFrames ==>
      call(s, i, u, an).currentIndex == i && (an ==> call(s, i, u, an).running)
  }
}

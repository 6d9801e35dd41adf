/**
 * ReversibleAnimationDrawable as a class whose methods update its fields
 * and, through reflection, the superclass's, in place. Each method is
 * proved to perform exactly the transition of the same name in module
 * ReversiblePlayback, on the snapshot of those fields.
 */
module Reversible {
  import opened Stepping
  import Listener
  import opened ReversiblePlayback

  class ReversibleAnimationDrawable {
    var currentIndex: int             // the superclass's current index
    var running: bool                 // the superclass's mRunning
    var animating: bool               // the superclass's mAnimating
    var reverse: bool                 // mReverse
    var oneShot: bool                 // isOneShot()
    var numFrames: nat                // getNumberOfFrames()
    var visible: bool                 // isVisible()
    ghost var events: seq<Listener.Event>
    const superSetFrame: SetFrameCall // AnimationDrawable.setFrame, reached by reflection
    const superStop: StopCall         // AnimationDrawable.stop

    /** The superclass state as the framework calls see it. */
    function Base(): Super
      reads this
    {
      Super(currentIndex, running, animating)
    }

    /** All playback state as one value. */
    ghost function Snapshot(): Animation
      reads this
    {
      Animation(Base(), reverse, oneShot, numFrames, visible, events)
    }

    /**
     * The copy constructor: the frames, the one-shot flag and the visibility
     * of another animation, playing forward, with the superclass in state
     * `base` once its frames are added.
     */
    constructor (base: Super, numFrames: nat, oneShot: bool, visible: bool, setFrame: SetFrameCall, stop: StopCall)
      ensures Snapshot() == Animation(base, false, oneShot, numFrames, visible, [])
      ensures superSetFrame == setFrame && superStop == stop
    {
      currentIndex, running, animating := base.currentIndex, base.running, base.animating;
      reverse := false;
      this.oneShot := oneShot;
      this.numFrames := numFrames;
      this.visible := visible;
      events := [];
      superSetFrame := setFrame;
      superStop := stop;
    }

    /**
     * setFrame: apply the frame in the superclass, report it while running,
     * and force running off when not animating.
     */
    method SetFrame(frame: int, unschedule: bool, animate: bool)
      modifies this`currentIndex, this`running, this`animating, this`events
      ensures Snapshot() == ReversiblePlayback.SetFrame(old(Snapshot()), superSetFrame, frame, unschedule, animate)
      ensures !animate ==> !running
    {
      var s := superSetFrame(Base(), frame, unschedule, animate);
      currentIndex, running, animating := s.currentIndex, s.running, s.animating;
      if running {
        events := events + [Listener.NextFrame(frame, false)];
      }
      if !animate {
        running := false;
      }
    }

    /**
     * nextFrame: step from the current index, wrap a looping animation,
     * apply the frame (animating unless terminal), then report the end of a
     * one-shot animation.
     */
    method NextFrame(unschedule: bool)
      modifies this`currentIndex, this`running, this`animating, this`events
      ensures Snapshot() == ReversiblePlayback.NextFrame(old(Snapshot()), superSetFrame, unschedule)
      ensures IsLastFrame(old(currentIndex), reverse, numFrames, oneShot) ==> !running
    {
      var nextFrame := currentIndex + (if reverse then -1 else 1);
      var isLastFrame := oneShot && (if !reverse then nextFrame >= numFrames - 1 else nextFrame <= 0);
      if !oneShot {
        if nextFrame >= numFrames {
          nextFrame := 0;
        } else if nextFrame < 0 {
          nextFrame := numFrames - 1;
        }
      }
      SetFrame(nextFrame, unschedule, !isLastFrame);
      if isLastFrame {
        events := events + [Listener.End];
      }
    }

    /** run: the scheduled tick. */
    method Run()
      modifies this`currentIndex, this`running, this`animating, this`events
      ensures Snapshot() == ReversiblePlayback.Run(old(Snapshot()), superSetFrame)
    {
      NextFrame(false);
    }

    /**
     * start: record the intent; an idle visible drawable announces the
     * start and plays from its current frame.
     */
    method Start()
      modifies this`currentIndex, this`running, this`animating, this`events
      ensures Snapshot() == ReversiblePlayback.Start(old(Snapshot()), superSetFrame)
      ensures animating || (!old(running) && visible)
    {
      animating := true;
      if !running && visible {
        events := events + [Listener.Start];
        SetFrame(currentIndex, false, numFrames > 1 || !oneShot);
      }
    }

    /** stop: handed to the superclass only while running. */
    method Stop()
      modifies this`currentIndex, this`running, this`animating
      ensures Snapshot() == ReversiblePlayback.Stop(old(Snapshot()), superStop)
      ensures !old(running) ==> Base() == old(Base())
    {
      if running {
        var s := superStop(Base());
        currentIndex, running, animating := s.currentIndex, s.running, s.animating;
      }
    }

    /** setReverse. */
    method SetReverse(reverse: bool)
      modifies this`reverse
      ensures Snapshot() == ReversiblePlayback.SetReverse(old(Snapshot()), reverse)
    {
      this.reverse := reverse;
    }
  }
}

/**
 * The notifications an AnimationListener receives (AnimationListener.java).
 * The listener itself is not modelled: both drawables append to a ghost log
 * of the events an attached listener would be called with, in call order.
 */
module Listener {
  datatype Event =
    | Start                                   // onAnimationStart
    | NextFrame(index: int, skipped: bool)    // onNextFrame(frame, drawable, skipped)
    | End                                     // onAnimationEnd
}

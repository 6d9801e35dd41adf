# Lazy-loading and reversible frame animations, modelled in Dafny

This project models the playback core of the ReversibleAnimation library for
Android. It covers two drawables.

**LazyLoadingAnimationDrawable** plays a list of frames (resource id and
duration) forward or backward, once or looping. It decodes each frame only
shortly before showing it. The state machine has these parts:

- the current index `mCurFrame`;
- the flags `mRunning` (a tick is posted) and `mAnimating` (playback is wanted);
- the direction `mReverse`;
- the frame shown, `mCurrent`;
- a prefetch FIFO of at most `CACHE_SIZE = 5` frame caches that are being
  decoded in the background.

On each tick `nextFrame` computes the next index. A looping animation wraps
it; for a one-shot animation it detects the terminal tick. The tick then
applies the frame through `setFrame`/`selectFrame`. An animated selection
drains the FIFO up to the requested frame:

- a frame that is not decoded yet is shown with the previous image and
  marked *skipped*;
- the FIFO is then refilled by stepping in the playback direction;
- the frame is loaded synchronously when the FIFO did not hold it.

The listener hears `onAnimationStart`, `onNextFrame(index, skipped)` and
`onAnimationEnd`.

**ReversibleAnimationDrawable** adds reverse playback to the framework's
AnimationDrawable. It reaches the superclass's private `setFrame`, its
current index and its `mRunning`/`mAnimating` flags by reflection.

## How the model is organised

Each drawable is modelled twice:

- **As a value.** A datatype holds the whole playback state, and each
  operation is a function from the state before to the state after.
- **As a class.** The fields are updated in place, as in the Java code. Each
  method is proved to perform exactly the transition of its function
  (`ensures Snapshot() == Playback.Op(old(Snapshot()))`).

Lemmas about the functions then state what the operations mean for playback.

- `Stepping` (stepping.dfy): the index arithmetic of a tick and of the
  refill, for both drawables. The reverse wrap tests differ: the lazy
  drawable wraps at `<= 0`, the reversible one at `< 0`. Both are kept
  literally and contrasted.
- `Frames` (frames.dfy):
  - frame descriptors;
  - frame caches, reduced to (index, duration, decoded image or none,
    skipped, load pending);
  - the resource loader. Decoding an id in `Resources.missing` throws
    `NotFoundException`.
- `Prefetch` (prefetch.dfy): the FIFO's drain and refill as functions on
  sequences.
- `Playback` and `PlaybackProperties` (playback.dfy,
  playback_properties.dfy): the lazy drawable's state `Engine`, its
  transitions and their properties.
  - The posted tick is `timer: Option<int>`, holding the delay it was
    posted with. `unscheduleSelf` clears it, and so does a tick that fires.
  - The listener is the event log `events`.
- `LazyLoading` (lazy_drawable.dfy): the classes `AnimationState` and
  `LazyLoadingAnimationDrawable`.
  - The drain and refill loops are `while` loops over the FIFO field.
  - `AnimationState.getSize()` is `|frames|`.
  - The asynchronous load of FIFO entry `k` is the environment step
    `CompleteLoad(k)`. A frame cache's `loading` flag says that its load was
    submitted and has not run. The drain can promote such an entry, with a
    borrowed image, to `mCurrent`; its load completing then is the step
    `CompleteCurrentLoad`.
- `ReversiblePlayback`, `ReversibleProperties` and `Reversible`
  (reversible_playback.dfy, reversible_properties.dfy,
  reversible_drawable.dfy): the reversible drawable.
  - The superclass state is `Super(currentIndex, running, animating)`.
  - The framework's `AnimationDrawable.setFrame` and `stop` are not part of
    this model. They are function-valued parameters (`SetFrameCall`,
    `StopCall`), fixed when the drawable is constructed.
  - Most lemmas hold whatever those calls do. The lemmas about runs of
    ticks assume only `SelectsFrame`: for an in-range frame, setFrame
    selects that frame and runs when asked to animate.

Where the code and its own documentation disagree, the model follows the
code. Two documented promises of the lazy drawable are not kept:

- The javadoc of `setVisible` (LazyLoadingAnimationDrawable.java lines
  120-123): after the drawable was hidden, showing it without a restart
  should resume from the most recent frame. Hiding clears `mRunning`
  through `unscheduleSelf`, and only a visible drawable ever runs
  (`ShownWhileRunningKept`). So the `startFromZero` test at lines 134-135
  is always true when it is reached, and showing always restarts from
  frame 0 (`ShowingRestartsFromZero`, `HideThenShowRestartsFromZero`).
- The javadoc of `stop` (line 170): the method should have no effect when
  the animation is not running. Line 177 clears `mAnimating`
  unconditionally. On a hidden drawable, `start()` only records the intent
  to animate, and a `stop()` then withdraws it: showing the drawable again
  plays the animation without the `stop()` and not with it
  (`StopWhileHiddenCancelsShow`). The reversible drawable's `stop`
  (ReversibleAnimationDrawable.java lines 142-146) does keep the promise
  (`StopWhenIdle`).

Other consequences of the code that the lemmas make explicit:

- The two drawables wrap a looping reverse tick differently. The lazy
  drawable wraps when the stepped index is `<= 0` (lines 304 and 384), so
  with two frames or more it never shows or prefetches frame 0 after its
  first tick (`LazyReverseNeverVisitsZero`, `RefillReverseSkipsZero`). The
  reversible drawable wraps at `< 0` and shows every frame, 0 included
  (`TicksVisitEveryFrame`).
- Starting a one-shot animation of a single frame reports `onAnimationStart`
  only. `setFrame(…, animate = false)` is not running at the report, so no
  `onNextFrame(0)` follows (`StartSingleFrameOneShot`).
- Starting an animation without frames still reports `onAnimationStart`
  (`StartWithoutFrames`).
- A one-shot tick past the end reports `onAnimationEnd` but applies
  nothing. `setFrame` returns early on the out-of-range index, so
  `mRunning` stays set with no tick posted, and a later `start()` does
  not restart the animation (`OneShotTickPastEnd`, `Playback.Start`).
- `addFrame` propagates `NotFoundException` when the first frame's resource
  is missing (`AnimationState.AddFrame` returns `added == false` and adds
  nothing).

## Model

Source paths are relative to the repository root.

| member | source | states |
|---|---|---|
| Stepping.LazyNextIndex | library/src/main/java/com/foureach/graphics/drawable/LazyLoadingAnimationDrawable.java:295-306 | one-shot ticks are not wrapped; looping ticks stay in [0, n); forward they are (cur+1) mod n; backwards with n > 1 they never yield 0, jumping from 1 to n-1 |
| Stepping.ReversibleNextIndex | library/src/main/java/com/foureach/graphics/drawable/ReversibleAnimationDrawable.java:62-75 | one-shot ticks are not wrapped; a looping tick is the stepped index mod n, in [0, n), in both directions |
| Stepping.RefillStep | library/src/main/java/com/foureach/graphics/drawable/LazyLoadingAnimationDrawable.java:381-386 | a refill step stays in range, is (prev+1) mod n forward, and is never 0 backwards with n > 1 |
| Stepping.RefillStepIsLoopingTick | library/src/main/java/com/foureach/graphics/drawable/LazyLoadingAnimationDrawable.java:381-386 | within the frames a refill step equals the index the next looping tick chooses |
| Stepping.LazyAgreesWithReversibleExceptAtZero | library/src/main/java/com/foureach/graphics/drawable/ReversibleAnimationDrawable.java:69-75 | the two drawables choose the same next index if and only if the tick is not a looping reverse tick from index 1 with n > 1 |
| Stepping.LazyForwardLoop | library/src/main/java/com/foureach/graphics/drawable/LazyLoadingAnimationDrawable.java:300-306 | k forward looping ticks of the lazy drawable land on (cur+k) mod n |
| Stepping.LazyReverseLoop | library/src/main/java/com/foureach/graphics/drawable/LazyLoadingAnimationDrawable.java:300-306 | k reverse looping ticks from 1..n-1 land on 1 + (cur-1-k) mod (n-1): a cycle that skips 0 |
| Stepping.LazyLoopInRange | library/src/main/java/com/foureach/graphics/drawable/LazyLoadingAnimationDrawable.java:300-306 | looping ticks never leave [0, n) |
| Stepping.LazyForwardVisitsAll | library/src/main/java/com/foureach/graphics/drawable/LazyLoadingAnimationDrawable.java:300-306 | looping forward, every frame is reached within n ticks |
| Stepping.LazyReverseNeverVisitsZero | library/src/main/java/com/foureach/graphics/drawable/LazyLoadingAnimationDrawable.java:304-305 | looping backwards with n >= 2, no tick after the first lands on 0 |
| Stepping.ReversibleLoopIsModular | library/src/main/java/com/foureach/graphics/drawable/ReversibleAnimationDrawable.java:69-75 | k looping ticks of the reversible drawable land on (cur ± k) mod n |
| Stepping.ReversibleVisitsAll | library/src/main/java/com/foureach/graphics/drawable/ReversibleAnimationDrawable.java:69-75 | looping in either direction, every frame including 0 is reached within n ticks |
| Stepping.OneShotStep | library/src/main/java/com/foureach/graphics/drawable/ReversibleAnimationDrawable.java:63-66 | one-shot ticks of both drawables agree, land on cur ± 1, and are terminal exactly at >= n-1 forward or <= 0 backwards |
| Stepping.LoopingNeverLast | library/src/main/java/com/foureach/graphics/drawable/ReversibleAnimationDrawable.java:65-66 | a looping animation never has a terminal tick |
| Stepping.IsLastFrame | library/src/main/java/com/foureach/graphics/drawable/LazyLoadingAnimationDrawable.java:294-298 | only a one-shot tick is terminal, and from a frame it is the tick leaving frame n-2 or later going forward, or frame 1 or earlier going backwards |
| Frames.Pending | library/src/main/java/com/foureach/graphics/drawable/LazyLoadingAnimationDrawable.java:387-388 | a new prefetch entry carries its frame's index, no image yet, is not skipped, and has its load submitted and pending |
| Frames.Finish | library/src/main/java/com/foureach/graphics/drawable/LazyLoadingAnimationDrawable.java:604-610 | a completed load is no longer pending; a decoded image replaces whatever drawable the entry had, a borrowed stand-in included, and a throwing load leaves the drawable as it was |
| Frames.LoadedNow | library/src/main/java/com/foureach/graphics/drawable/LazyLoadingAnimationDrawable.java:392-395 | a synchronous load carries the frame's index, is not skipped, and has an image unless the resource is missing |
| Prefetch.FirstMatch | library/src/main/java/com/foureach/graphics/drawable/LazyLoadingAnimationDrawable.java:363-365 | the drain stops at the first entry carrying the frame; none before it does; no stop if and only if no entry carries it |
| Prefetch.Promote | library/src/main/java/com/foureach/graphics/drawable/LazyLoadingAnimationDrawable.java:365-374 | a loaded match becomes current unskipped; an unloaded non-last match borrows the current image and is skipped; an unloaded last-index match leaves current unchanged; the promoted entry keeps its pending load |
| Prefetch.DrainFifo | library/src/main/java/com/foureach/graphics/drawable/LazyLoadingAnimationDrawable.java:362-376 | draining never grows the FIFO and empties it when no entry matches |
| Prefetch.DrainFifoInRange | library/src/main/java/com/foureach/graphics/drawable/LazyLoadingAnimationDrawable.java:362-376 | draining keeps every entry's index within the frames |
| Prefetch.DrainCurrent | library/src/main/java/com/foureach/graphics/drawable/LazyLoadingAnimationDrawable.java:362-376 | after draining, current is unchanged on a miss, is either unchanged or carries the frame on a hit, and exists whenever the FIFO was non-empty |
| Prefetch.DrainHit | library/src/main/java/com/foureach/graphics/drawable/LazyLoadingAnimationDrawable.java:362-376 | with a first match at k, the drain keeps exactly the entries after k and promotes entry k |
| Prefetch.DrainMiss | library/src/main/java/com/foureach/graphics/drawable/LazyLoadingAnimationDrawable.java:362-376 | without a match, the drain empties the FIFO and keeps current |
| Prefetch.Refill | library/src/main/java/com/foureach/graphics/drawable/LazyLoadingAnimationDrawable.java:378-390 | the refill appends exactly the missing count of entries, the last of an existing frame |
| Prefetch.RefillEntries | library/src/main/java/com/foureach/graphics/drawable/LazyLoadingAnimationDrawable.java:387-389 | every refilled entry is a pending (unloaded, unskipped) entry of an existing frame |
| Prefetch.RefillAppendInRange | library/src/main/java/com/foureach/graphics/drawable/LazyLoadingAnimationDrawable.java:378-390 | appending the refill to a FIFO of existing frames keeps every index in range |
| Prefetch.ToppedUp | library/src/main/java/com/foureach/graphics/drawable/LazyLoadingAnimationDrawable.java:378-390 | after the refill the FIFO holds exactly CACHE_SIZE entries of existing frames, the drained ones first and unchanged |
| Prefetch.RefillNext | library/src/main/java/com/foureach/graphics/drawable/LazyLoadingAnimationDrawable.java:381-389 | one refill loop iteration wraps the index into range and appends exactly the next entry of the refill |
| Prefetch.RefillChain | library/src/main/java/com/foureach/graphics/drawable/LazyLoadingAnimationDrawable.java:378-390 | each refilled index is its predecessor's (the base, for the first) stepped with the refill wrap rule |
| Prefetch.RefillAnticipatesTicks | library/src/main/java/com/foureach/graphics/drawable/LazyLoadingAnimationDrawable.java:378-390 | the k-th refilled index is the index of the (k+1)-th looping tick from the base |
| Prefetch.RefillReverseSkipsZero | library/src/main/java/com/foureach/graphics/drawable/LazyLoadingAnimationDrawable.java:383-384 | backwards with two frames or more, the refill never prefetches frame 0 |
| Prefetch.RefillRepeatsWhenFewFrames | library/src/main/java/com/foureach/graphics/drawable/LazyLoadingAnimationDrawable.java:381-389 | with fewer frames than CACHE_SIZE, a full refill holds a repeated index, in both directions (backwards the cycle skips 0 and is shorter still) |
| Playback.Init | library/src/main/java/com/foureach/graphics/drawable/LazyLoadingAnimationDrawable.java:40-65 | a new drawable has no frames, an empty FIFO, no current entry and no events, and satisfies the invariant |
| Playback.Unschedule | library/src/main/java/com/foureach/graphics/drawable/LazyLoadingAnimationDrawable.java:207-210 | unscheduling clears the running flag and the posted tick and nothing else |
| Playback.SelectFrame | library/src/main/java/com/foureach/graphics/drawable/LazyLoadingAnimationDrawable.java:359-398 | the index is recorded and the current entry carries it; a plain selection keeps the FIFO, an animated one leaves it with CACHE_SIZE entries; the invariant is kept |
| Playback.SetFrame | library/src/main/java/com/foureach/graphics/drawable/LazyLoadingAnimationDrawable.java:315-338 | an out-of-range index changes nothing; otherwise animating == running == animate, the frame is current, an animated frame has a full FIFO and a tick of its duration, a plain one an empty FIFO, and the frame is reported exactly when running at that point |
| Playback.Settle | library/src/main/java/com/foureach/graphics/drawable/LazyLoadingAnimationDrawable.java:322-337 | after selection, running becomes animate, the FIFO is kept or flushed, the tick is posted or cleared, and the frame is reported when running |
| Playback.NextFrame | library/src/main/java/com/foureach/graphics/drawable/LazyLoadingAnimationDrawable.java:294-313 | a tick keeps the frames and flags and only appends events; a terminal tick ends the log with End, any other tick appends at most one frame report and never End; a looping tick from a frame keeps running on the lazy next index |
| Playback.Run | library/src/main/java/com/foureach/graphics/drawable/LazyLoadingAnimationDrawable.java:202-204 | the fired tick leaves the invariant and the rule "a posted tick implies running" intact |
| Playback.Start | library/src/main/java/com/foureach/graphics/drawable/LazyLoadingAnimationDrawable.java:157-167 | when running or invisible only the intent is set; otherwise the start is reported, then setFrame(cur, false, size > 1 or looping) |
| Playback.Stop | library/src/main/java/com/foureach/graphics/drawable/LazyLoadingAnimationDrawable.java:176-183 | stop always leaves animating and running false and no tick posted, and flushes the FIFO if it was running; frame, current entry and events are untouched |
| Playback.SetVisible | library/src/main/java/com/foureach/graphics/drawable/LazyLoadingAnimationDrawable.java:130-142 | hiding cancels the tick only; showing unchanged without a restart does nothing; otherwise the restart index is reapplied with the current intent |
| Playback.RestartIndex | library/src/main/java/com/foureach/graphics/drawable/LazyLoadingAnimationDrawable.java:134-135 | a restart, a drawable that is not running, or one past the end starts at 0; a running, in-range drawable that is not restarted resumes at its own frame, and a non-zero index means exactly that case |
| Playback.AddFrame | library/src/main/java/com/foureach/graphics/drawable/LazyLoadingAnimationDrawable.java:287-292 | the drawable is left exactly as it was if and only if there are no frames yet and the first frame's load fails; otherwise the frame is appended, and when not running frame 0 is shown without animation or report |
| Playback.SelectDrawable | library/src/main/java/com/foureach/graphics/drawable/LazyLoadingAnimationDrawable.java:341-347 | the same index returns false; an index outside the frames throws after recording it; another index is shown and true returned, with flags, FIFO and events unchanged |
| Playback.CompleteLoad | library/src/main/java/com/foureach/graphics/drawable/LazyLoadingAnimationDrawable.java:604-610 | a pending background load of FIFO entry k completes: that entry gets the decoded image (or keeps its drawable when the loader throws) and is no longer pending; nothing else changes |
| Playback.CompleteCurrentLoad | library/src/main/java/com/foureach/graphics/drawable/LazyLoadingAnimationDrawable.java:604-610 | the pending load of an entry promoted as a skipped stand-in completes: the decoded image replaces the borrowed one in the current entry, a throwing load keeps it, and nothing else changes |
| PlaybackProperties.AnimatedSelectionHit | library/src/main/java/com/foureach/graphics/drawable/LazyLoadingAnimationDrawable.java:362-395 | selecting a frame the FIFO holds promotes it as the drain rule says and refills after the entries that followed it |
| PlaybackProperties.AnimatedSelectionMiss | library/src/main/java/com/foureach/graphics/drawable/LazyLoadingAnimationDrawable.java:362-395 | selecting a frame the FIFO lacks loads it synchronously, unless current carries it, and refills from it |
| PlaybackProperties.StopWhileHiddenCancelsShow | library/src/main/java/com/foureach/graphics/drawable/LazyLoadingAnimationDrawable.java:169-183 | stop on a drawable that is not running still has an effect: after a hidden start, a stop makes the next show leave the animation not running, where without the stop it runs |
| PlaybackProperties.StopIdempotent | library/src/main/java/com/foureach/graphics/drawable/LazyLoadingAnimationDrawable.java:176-183 | stopping twice equals stopping once |
| PlaybackProperties.StartPlays | library/src/main/java/com/foureach/graphics/drawable/LazyLoadingAnimationDrawable.java:157-167 | starting a stopped visible animation with several frames or looping reports start then the current frame, and posts its tick |
| PlaybackProperties.StartSingleFrameOneShot | library/src/main/java/com/foureach/graphics/drawable/LazyLoadingAnimationDrawable.java:157-167 | a single-frame one-shot start reports the start only and posts nothing |
| PlaybackProperties.StartWithoutFrames | library/src/main/java/com/foureach/graphics/drawable/LazyLoadingAnimationDrawable.java:157-167 | starting without frames reports the start and changes only the intent |
| PlaybackProperties.LoopingTick | library/src/main/java/com/foureach/graphics/drawable/LazyLoadingAnimationDrawable.java:294-313 | a looping tick moves to the next index in range, reports it and posts the next tick with that frame's duration |
| PlaybackProperties.OneShotTick | library/src/main/java/com/foureach/graphics/drawable/LazyLoadingAnimationDrawable.java:294-313 | a one-shot tick in range reports its frame; the terminal one then reports the end, stops and flushes the FIFO |
| PlaybackProperties.OneShotTickPastEnd | library/src/main/java/com/foureach/graphics/drawable/LazyLoadingAnimationDrawable.java:294-318 | a one-shot tick past the end applies nothing, leaves running set, and still reports the end |
| PlaybackProperties.LoopingPlay | library/src/main/java/com/foureach/graphics/drawable/LazyLoadingAnimationDrawable.java:294-313 | k looping ticks land on the k-th looping index, keep the tick posted and report exactly those k indices in order |
| PlaybackProperties.OneShotPlay | library/src/main/java/com/foureach/graphics/drawable/LazyLoadingAnimationDrawable.java:294-313 | a one-shot run moves one frame per tick, reporting each, and the tick onto the last (or first) frame reports the end and stops |
| PlaybackProperties.OneShotForwardFromStart | library/src/main/java/com/foureach/graphics/drawable/LazyLoadingAnimationDrawable.java:157-313 | starting a forward one-shot of n >= 2 frames at 0 reports start, frames 0..n-1 in order, then end, with no tick left |
| PlaybackProperties.HideThenShowRestartsFromZero | library/src/main/java/com/foureach/graphics/drawable/LazyLoadingAnimationDrawable.java:130-142 | hiding then showing without a restart resumes from frame 0, running again if the animation was wanted |
| PlaybackProperties.ShownWhileRunningKept | library/src/main/java/com/foureach/graphics/drawable/LazyLoadingAnimationDrawable.java:130-347 | start, stop, setVisible, addFrame, selectDrawable and a pending tick all keep "running implies visible" |
| PlaybackProperties.ShownWhileRunningKeptByLoads | library/src/main/java/com/foureach/graphics/drawable/LazyLoadingAnimationDrawable.java:604-610 | completing a background load keeps "running implies visible" |
| PlaybackProperties.ShowingRestartsFromZero | library/src/main/java/com/foureach/graphics/drawable/LazyLoadingAnimationDrawable.java:120-137 | since only a visible drawable runs, every show or restart that applies a frame applies frame 0, so the javadoc's resume from the most recent frame never happens |
| PlaybackProperties.SetFrameSeesOnlyIndices | library/src/main/java/com/foureach/graphics/drawable/LazyLoadingAnimationDrawable.java:315-398 | from two states that differ only in images, setFrame selects, schedules and reports the same frame, the reports differing at most in the skipped flag |
| PlaybackProperties.RunSeesOnlyIndices | library/src/main/java/com/foureach/graphics/drawable/LazyLoadingAnimationDrawable.java:202-204 | from two states that differ only in images, a tick shows and schedules the same frame and tells the listener the same things up to skipped flags |
| PlaybackProperties.CompleteLoadKeepsPlayback | library/src/main/java/com/foureach/graphics/drawable/LazyLoadingAnimationDrawable.java:604-610 | a FIFO load completing before a tick changes neither the index, the flags, the tick posted nor the events of that tick, except the skipped flag of its report |
| PlaybackProperties.CurrentLoadKeepsPlayback | library/src/main/java/com/foureach/graphics/drawable/LazyLoadingAnimationDrawable.java:604-610 | the same for the pending load of a promoted skipped entry completing before a tick |
| LazyLoading.AnimationState.constructor | library/src/main/java/com/foureach/graphics/drawable/LazyLoadingAnimationDrawable.java:504-520 | a new state has no frames and loops |
| LazyLoading.AnimationState.Duration | library/src/main/java/com/foureach/graphics/drawable/LazyLoadingAnimationDrawable.java:537-539 | a frame's duration, never negative for well-formed frames |
| LazyLoading.AnimationState.AddFrame | library/src/main/java/com/foureach/graphics/drawable/LazyLoadingAnimationDrawable.java:541-549 | the frame is appended numbered by its position unless the first frame's resource is missing, which throws and adds nothing |
| LazyLoading.LazyLoadingAnimationDrawable.constructor | library/src/main/java/com/foureach/graphics/drawable/LazyLoadingAnimationDrawable.java:63-65 | the new drawable is Playback.Init and valid |
| LazyLoading.LazyLoadingAnimationDrawable.UnscheduleSelf | library/src/main/java/com/foureach/graphics/drawable/LazyLoadingAnimationDrawable.java:207-210 | afterwards not running and no tick posted |
| LazyLoading.LazyLoadingAnimationDrawable.Drain | library/src/main/java/com/foureach/graphics/drawable/LazyLoadingAnimationDrawable.java:362-376 | the poll loop leaves exactly DrainFifo and DrainCurrent of the old FIFO and current entry |
| LazyLoading.LazyLoadingAnimationDrawable.TopUp | library/src/main/java/com/foureach/graphics/drawable/LazyLoadingAnimationDrawable.java:378-390 | the add loop leaves exactly ToppedUp of the old FIFO |
| LazyLoading.LazyLoadingAnimationDrawable.SelectFrame | library/src/main/java/com/foureach/graphics/drawable/LazyLoadingAnimationDrawable.java:359-398 | performs Playback.SelectFrame on the index, FIFO and current entry; the current entry carries the frame |
| LazyLoading.LazyLoadingAnimationDrawable.Advance | library/src/main/java/com/foureach/graphics/drawable/LazyLoadingAnimationDrawable.java:361-390 | the drain loop then the refill loop leave exactly ToppedUp of DrainFifo and DrainCurrent of the old FIFO and current entry |
| LazyLoading.LazyLoadingAnimationDrawable.SetFrame | library/src/main/java/com/foureach/graphics/drawable/LazyLoadingAnimationDrawable.java:315-338 | performs Playback.SetFrame |
| LazyLoading.LazyLoadingAnimationDrawable.Settle | library/src/main/java/com/foureach/graphics/drawable/LazyLoadingAnimationDrawable.java:322-337 | performs Playback.Settle |
| LazyLoading.LazyLoadingAnimationDrawable.NextFrame | library/src/main/java/com/foureach/graphics/drawable/LazyLoadingAnimationDrawable.java:294-313 | performs Playback.NextFrame |
| LazyLoading.LazyLoadingAnimationDrawable.Run | library/src/main/java/com/foureach/graphics/drawable/LazyLoadingAnimationDrawable.java:202-204 | performs Playback.Run and keeps the class invariant |
| LazyLoading.LazyLoadingAnimationDrawable.Start | library/src/main/java/com/foureach/graphics/drawable/LazyLoadingAnimationDrawable.java:157-167 | performs Playback.Start and keeps the class invariant |
| LazyLoading.LazyLoadingAnimationDrawable.Stop | library/src/main/java/com/foureach/graphics/drawable/LazyLoadingAnimationDrawable.java:176-183 | performs Playback.Stop and keeps the class invariant |
| LazyLoading.LazyLoadingAnimationDrawable.SetVisible | library/src/main/java/com/foureach/graphics/drawable/LazyLoadingAnimationDrawable.java:130-142 | performs Playback.SetVisible and returns whether the visibility changed |
| LazyLoading.LazyLoadingAnimationDrawable.AddFrame | library/src/main/java/com/foureach/graphics/drawable/LazyLoadingAnimationDrawable.java:287-292 | performs Playback.AddFrame; `added` is false exactly when the first frame's load throws |
| LazyLoading.LazyLoadingAnimationDrawable.SelectDrawable | library/src/main/java/com/foureach/graphics/drawable/LazyLoadingAnimationDrawable.java:341-347 | performs Playback.SelectDrawable, state and outcome |
| LazyLoading.LazyLoadingAnimationDrawable.SetReverse | library/src/main/java/com/foureach/graphics/drawable/LazyLoadingAnimationDrawable.java:452-454 | changes the direction only |
| LazyLoading.LazyLoadingAnimationDrawable.SetOneShot | library/src/main/java/com/foureach/graphics/drawable/LazyLoadingAnimationDrawable.java:442-444 | changes the one-shot flag only |
| LazyLoading.LazyLoadingAnimationDrawable.CompleteLoad | library/src/main/java/com/foureach/graphics/drawable/LazyLoadingAnimationDrawable.java:604-610 | performs Playback.CompleteLoad |
| LazyLoading.LazyLoadingAnimationDrawable.CompleteCurrentLoad | library/src/main/java/com/foureach/graphics/drawable/LazyLoadingAnimationDrawable.java:604-610 | performs Playback.CompleteCurrentLoad |
| ReversiblePlayback.SetFrame | library/src/main/java/com/foureach/graphics/drawable/ReversibleAnimationDrawable.java:82-98 | only the superclass state and the events change; running afterwards implies animate; at most the requested frame is reported, never as skipped (ReversibleProperties.SetFrameReportsWhileRunning pins down when) |
| ReversiblePlayback.NextFrame | library/src/main/java/com/foureach/graphics/drawable/ReversibleAnimationDrawable.java:61-80 | only the superclass state and the events change, events are only appended, and a terminal tick stops the animation with End last (ReversibleProperties.EndOnlyOnTerminalTick, LoopingTick and OneShotTick give the index) |
| ReversiblePlayback.Run | library/src/main/java/com/foureach/graphics/drawable/ReversibleAnimationDrawable.java:149-151 | the tick changes only the superclass state and appends events (ReversibleProperties.LoopingTicks over many ticks) |
| ReversiblePlayback.Start | library/src/main/java/com/foureach/graphics/drawable/ReversibleAnimationDrawable.java:125-139 | running or invisible: only the animating flag is set and nothing is reported; otherwise Start is reported before anything else |
| ReversiblePlayback.Stop | library/src/main/java/com/foureach/graphics/drawable/ReversibleAnimationDrawable.java:142-146 | only the superclass state changes, and not at all when not running |
| ReversiblePlayback.SetReverse | library/src/main/java/com/foureach/graphics/drawable/ReversibleAnimationDrawable.java:108-110 | only the direction changes (ReversibleProperties.SetReverseTurnsTick gives its effect on the next tick) |
| ReversibleProperties.SetFrameReportsWhileRunning | library/src/main/java/com/foureach/graphics/drawable/ReversibleAnimationDrawable.java:82-98 | setFrame reports the requested frame, never skipped, exactly when the superclass runs after the call; without animate it is not running afterwards; only superclass state and events change |
| ReversibleProperties.EndOnlyOnTerminalTick | library/src/main/java/com/foureach/graphics/drawable/ReversibleAnimationDrawable.java:61-80 | a tick's events are the frame report (if running) then End; End appears if and only if the tick is terminal, which implies one-shot and leaves it not running |
| ReversibleProperties.LoopingTick | library/src/main/java/com/foureach/graphics/drawable/ReversibleAnimationDrawable.java:61-80 | a looping tick asks the superclass, animating, for (cur ± 1) mod n, which is in range |
| ReversibleProperties.OneShotTick | library/src/main/java/com/foureach/graphics/drawable/ReversibleAnimationDrawable.java:61-80 | a one-shot tick asks for the unwrapped neighbour, and the tick ends with End exactly when the neighbour is >= n-1 forward or <= 0 backwards |
| ReversibleProperties.ReverseTickReachesZero | library/src/main/java/com/foureach/graphics/drawable/ReversibleAnimationDrawable.java:69-75 | a looping reverse tick from 1 lands on 0, where the lazy drawable's lands on n-1 |
| ReversibleProperties.LoopingTicks | library/src/main/java/com/foureach/graphics/drawable/ReversibleAnimationDrawable.java:61-80 | k looping ticks land on the k-th looping index, keep running and report exactly those k frames in order |
| ReversibleProperties.TicksVisitEveryFrame | library/src/main/java/com/foureach/graphics/drawable/ReversibleAnimationDrawable.java:61-80 | looping in either direction, every frame including 0 is shown within n ticks |
| ReversibleProperties.StartWhenBusyOrHidden | library/src/main/java/com/foureach/graphics/drawable/ReversibleAnimationDrawable.java:125-139 | start on a running or invisible drawable only sets the superclass's animating flag |
| ReversibleProperties.StartAnnounces | library/src/main/java/com/foureach/graphics/drawable/ReversibleAnimationDrawable.java:125-139 | start on an idle visible drawable reports Start first, then applies the current frame animating if and only if n > 1 or looping |
| ReversibleProperties.StartSingleFrameOneShot | library/src/main/java/com/foureach/graphics/drawable/ReversibleAnimationDrawable.java:125-139 | starting a one-shot of at most one frame reports Start and leaves the drawable not running |
| ReversibleProperties.StartPlays | library/src/main/java/com/foureach/graphics/drawable/ReversibleAnimationDrawable.java:125-139 | starting an idle visible looping or multi-frame animation runs it and reports Start then the current frame |
| ReversibleProperties.StopWhenIdle | library/src/main/java/com/foureach/graphics/drawable/ReversibleAnimationDrawable.java:142-146 | stop on a drawable that is not running changes nothing |
| ReversibleProperties.StopIdempotent | library/src/main/java/com/foureach/graphics/drawable/ReversibleAnimationDrawable.java:142-146 | stop touches only the superclass state, and a second stop is a no-op once the superclass has stopped running |
| ReversibleProperties.SetReverseTurnsTick | library/src/main/java/com/foureach/graphics/drawable/ReversibleAnimationDrawable.java:108-110 | after setReverse the next looping tick goes (cur ± 1) mod n in the chosen direction |
| Reversible.ReversibleAnimationDrawable.constructor | library/src/main/java/com/foureach/graphics/drawable/ReversibleAnimationDrawable.java:50-59 | a copy plays forward with the source's frame count, one-shot flag and visibility, and no events |
| Reversible.ReversibleAnimationDrawable.SetFrame | library/src/main/java/com/foureach/graphics/drawable/ReversibleAnimationDrawable.java:82-98 | performs ReversiblePlayback.SetFrame; without animate it is not running afterwards |
| Reversible.ReversibleAnimationDrawable.NextFrame | library/src/main/java/com/foureach/graphics/drawable/ReversibleAnimationDrawable.java:61-80 | performs ReversiblePlayback.NextFrame; a terminal tick leaves it not running |
| Reversible.ReversibleAnimationDrawable.Run | library/src/main/java/com/foureach/graphics/drawable/ReversibleAnimationDrawable.java:149-151 | performs ReversiblePlayback.Run |
| Reversible.ReversibleAnimationDrawable.Start | library/src/main/java/com/foureach/graphics/drawable/ReversibleAnimationDrawable.java:125-139 | performs ReversiblePlayback.Start |
| Reversible.ReversibleAnimationDrawable.Stop | library/src/main/java/com/foureach/graphics/drawable/ReversibleAnimationDrawable.java:142-146 | performs ReversiblePlayback.Stop; when not running the superclass state is unchanged |
| Reversible.ReversibleAnimationDrawable.SetReverse | library/src/main/java/com/foureach/graphics/drawable/ReversibleAnimationDrawable.java:108-110 | changes the direction only |

## Left out

- Rendering and bounds (`draw`, `setBounds`, `setAlpha`, `setColorFilter`, `setDither`, `getOpacity`, `setAutoMirrored`, `FrameCache.draw`, `invalidateSelf`): Canvas and Drawable calls with no effect on playback.
- XML inflation (`loadFromResource`, `createFromXml`, `inflate`, `inflateChildElements`, `updateStateFromTypedArray`): Android parser plumbing. Its one rule, that durations are not negative, is the `duration >= 0` precondition of `AddFrame`.
- Intrinsic width and height (LazyLoadingAnimationDrawable.java:543-547, `getIntrinsicWidth/Height`, `getMinimumWidth/Height`): a foreign decode. Only the decode's failure is modelled.
- The executor thread pool: each submitted load is an explicit step, `CompleteLoad` while its entry is in the FIFO and `CompleteCurrentLoad` once the drain promoted it. Memory visibility between threads, and a load racing with the drain's own write of the borrowed image (line 370), are not modelled. A load completes unobserved, and the model drops it, when nothing refers to its entry any more. That is the case for an entry drained or flushed without promotion, and for a promoted entry with a pending load that a later promotion or the synchronous load at lines 392-395 replaced as current.
- Real time: `scheduleSelf` and `SystemClock.uptimeMillis` become the delay held in `timer`, and a tick is the step `Run`.
- `super.setVisible` and `super.unscheduleSelf`: visibility is a plain field, and `changed` means old != new.
- LazyLoadingAnimationDrawable.java:396: `mCurrent.mDrawable.setBounds` dereferences the current image, so an unloaded current entry (a missing resource) throws `NullPointerException` there. The model keeps the entry without an image and goes on.
- The skip branch's `mCurrent.mDrawable` (line 370) needs a current entry. The class invariant `Consistent` guarantees one whenever the FIFO is not empty, so that null dereference cannot happen in the model.
- The listener is always attached: the event log records what an attached listener would hear. A null listener, `setAnimationListener`, the drawable passed to `onNextFrame`, and a listener that calls back into the drawable are not modelled.
- Getters that only read a field (`isRunning`, `isOneShot`, `isReverse`, `getNumberOfFrames`, `getCurrentFrameIndex`, `getFrame`, `getCurrent`, `getDuration`, `getConstantState`) are the fields themselves. `getDuration` is `AnimationState.Duration`.
- The theme constructor (LazyLoadingAnimationDrawable.java:67-69) is the same as the resources constructor for playback.
- ReversibleAnimationDrawable's reflection (the static block at lines 25-42 and the `invoke`/`set` calls) and the internals of the framework's `AnimationDrawable`: the superclass is `Super` plus the two call parameters.
- Reversible.ReversibleAnimationDrawable.constructor: takes the superclass state and frame count that result from copying the frames (the `addFrame` loop into the framework at lines 51-56, then `setVisible`) instead of modelling those framework calls. The package-private default constructor (lines 46-48) is the same with no frames.
- ReversibleProperties.LoopingTicks: holds only for a framework setFrame that selects the requested in-range frame and runs when animating (`SelectsFrame`), and so do TicksVisitEveryFrame, ReverseTickReachesZero, StartPlays and SetReverseTurnsTick. Every other reversible lemma holds for any framework behaviour.
- Stepping.LazyNextIndex: indices are unbounded integers, while Java's `int` addition wraps at 32 bits. A tick from a frame in range, or from one step past either end, never wraps. But `selectDrawable` records any index before it throws (line 360). In Java a forward tick from `Integer.MAX_VALUE` wraps to `Integer.MIN_VALUE`. A one-shot tick is then not terminal and reports no end, where the model's reports one. A looping tick goes to `numFrames - 1`, where the model's goes to 0. A backward tick from `Integer.MIN_VALUE` diverges the same way, mirrored. The model does not capture ticks from these two indices.
- The example application (MainActivity.java) and AnimationListener.java (an interface and an empty adapter) have no logic of their own.

/**
 * Index arithmetic of a playback tick and of the prefetch refill.
 *
 * Both drawables compute the next index from (current, reverse, numFrames,
 * oneShot) in the same way, except for the reverse wrap test: the lazy
 * drawable wraps when the stepped index is `<= 0`, the reversible one when it
 * is `< 0`. Both are kept literally; the lemmas below contrast them.
 */
module Stepping {

  /** The index one step from `cur` in the playback direction. */
  function Step(cur: int, reverse: bool): int
  {
    if !reverse then cur + 1 else cur - 1
  }

  /** Index chosen by a tick of the lazy drawable (nextFrame, wrap test `<= 0`). */
  function LazyNextIndex(cur: int, reverse: bool, numFrames: int, oneShot: bool): (r: int)
    // a one-shot animation is never wrapped, so its index may leave the range
    ensures oneShot ==> r == Step(cur, reverse)
    // a looping animation stays within the frames
    ensures !oneShot && 0 <= cur < numFrames ==> 0 <= r < numFrames
    ensures !oneShot && !reverse && 0 <= cur < numFrames ==> r == (cur + 1) % numFrames
    // going backwards with more than one frame, index 0 is never chosen
    ensures !oneShot && reverse && 1 < numFrames && 0 <= cur < numFrames ==>
              r != 0 && r == (if cur <= 1 then numFrames - 1 else cur - 1)
  {
    var next := Step(cur, reverse);
    if oneShot then next
    else if next >= numFrames then 0
    else if next <= 0 then numFrames - 1
    else next
  }

  /** Index chosen by a tick of the reversible drawable (nextFrame, wrap test `< 0`). */
  function ReversibleNextIndex(cur: int, reverse: bool, numFrames: int, oneShot: bool): (r: int)
    ensures oneShot ==> r == Step(cur, reverse)
    // a looping animation moves one step around the cycle of all frames
    ensures !oneShot && 0 <= cur < numFrames ==>
              0 <= r < numFrames && r == Step(cur, reverse) % numFrames
  {
    var next := cur + (if reverse then -1 else 1);
    if oneShot then next
    else if next >= numFrames then 0
    else if next < 0 then numFrames - 1
    else next
  }

  /**
   * Whether a tick from `cur` is the terminal tick of a one-shot animation:
   * the stepped index reaches the last frame going forward, or the first
   * going backwards. Both drawables use this same test.
   */
  predicate IsLastFrame(cur: int, reverse: bool, numFrames: int, oneShot: bool)
    ensures IsLastFrame(cur, reverse, numFrames, oneShot) ==> oneShot
    // from a frame, the terminal tick is the one leaving the second-to-last frame, or frame 1 going backwards
    ensures oneShot && 0 <= cur < numFrames ==>
              (IsLastFrame(cur, reverse, numFrames, oneShot) <==> if !reverse then cur >= numFrames - 2 else cur <= 1)
  {
    oneShot && (if !reverse then Step(cur, reverse) >= numFrames - 1 else Step(cur, reverse) <= 0)
  }

  /** One step of the prefetch refill: the stepped index, wrapped in the playback direction. */
  function RefillStep(prev: int, reverse: bool, numFrames: int): (r: int)
    ensures 0 <= prev < numFrames ==> 0 <= r < numFrames
    ensures !reverse && 0 <= prev < numFrames ==> r == (prev + 1) % numFrames
    ensures reverse && 1 < numFrames ==> r != 0
  {
    var next := Step(prev, reverse);
    if !reverse && next >= numFrames then 0
    else if reverse && next <= 0 then numFrames - 1
    else next
  }

  /** Within the frames, the refill anticipates exactly the index a looping tick will choose. */
  lemma RefillStepIsLoopingTick(prev: int, reverse: bool, numFrames: int)
    requires 0 <= prev < numFrames
    ensures RefillStep(prev, reverse, numFrames) == LazyNextIndex(prev, reverse, numFrames, false)
  {
  }

  /** The two drawables agree except when a looping reverse tick lands on index 0. */
  lemma LazyAgreesWithReversibleExceptAtZero(cur: int, reverse: bool, numFrames: int, oneShot: bool)
    requires 0 <= cur < numFrames
    ensures LazyNextIndex(cur, reverse, numFrames, oneShot) == ReversibleNextIndex(cur, reverse, numFrames, oneShot)
            <==> oneShot || !reverse || cur != 1
  {
  }

  /** Index after `k` ticks of a looping lazy animation. */
  function LazyLoop(cur: int, reverse: bool, numFrames: int, k: nat): int
  {
    if k == 0 then cur else LazyNextIndex(LazyLoop(cur, reverse, numFrames, k - 1), reverse, numFrames, false)
  }

  /** Index after `k` ticks of a looping reversible animation. */
  function ReversibleLoop(cur: int, reverse: bool, numFrames: int, k: nat): int
  {
    if k == 0 then cur else ReversibleNextIndex(ReversibleLoop(cur, reverse, numFrames, k - 1), reverse, numFrames, false)
  }

  lemma MulBound(x: int, n: int)
    requires 0 < n
    ensures x >= 1 ==> x * n >= n
    ensures x <= -1 ==> x * n <= -n
  {
  }

  /** `%` is determined by any quotient/remainder decomposition with the remainder in range. */
  lemma ModUnique(a: int, n: int, q: int, r: int)
    requires 0 < n && 0 <= r < n && a == q * n + r
    ensures a % n == r
  {
    var q', r' := a / n, a % n;
    assert a == q' * n + r';
    assert (q - q') * n == r' - r;
    MulBound(q - q', n);
  }

  lemma ModSucc(a: int, n: int)
    requires 0 < n
    ensures (a % n + 1) % n == (a + 1) % n
  {
    var q := a / n;
    assert a == q * n + a % n;
    if a % n + 1 == n {
      ModUnique(a % n + 1, n, 1, 0);
      ModUnique(a + 1, n, q + 1, 0);
    } else {
      ModUnique(a % n + 1, n, 0, a % n + 1);
      ModUnique(a + 1, n, q, a % n + 1);
    }
  }

  lemma ModPred(a: int, n: int)
    requires 0 < n
    ensures (a % n - 1) % n == (a - 1) % n
  {
    var q := a / n;
    assert a == q * n + a % n;
    if a % n == 0 {
      ModUnique(a % n - 1, n, -1, n - 1);
      ModUnique(a - 1, n, q - 1, n - 1);
    } else {
      ModUnique(a % n - 1, n, 0, a % n - 1);
      ModUnique(a - 1, n, q, a % n - 1);
    }
  }

  /** Looping forward, the lazy drawable moves around the cycle of all frames. */
  lemma {:induction false} LazyForwardLoop(cur: int, numFrames: int, k: nat)
    requires 0 <= cur < numFrames
    ensures LazyLoop(cur, false, numFrames, k) == (cur + k) % numFrames
  {
    if k > 0 {
      LazyForwardLoop(cur, numFrames, k - 1);
      ModSucc(cur + k - 1, numFrames);
    }
  }

  /**
   * Looping backwards with at least two frames, the lazy drawable cycles
   * through 1 .. numFrames-1 only, once it has left index 0.
   */
  lemma {:induction false} LazyReverseLoop(cur: int, numFrames: int, k: nat)
    requires 2 <= numFrames && 1 <= cur < numFrames
    ensures LazyLoop(cur, true, numFrames, k) == 1 + (cur - 1 - k) % (numFrames - 1)
  {
    if k > 0 {
      LazyReverseLoop(cur, numFrames, k - 1);
      var a := cur - 1 - (k - 1);
      var m := a % (numFrames - 1);
      ModPred(a, numFrames - 1);
      if m == 0 {
        ModUnique(m - 1, numFrames - 1, -1, numFrames - 2);
      } else {
        ModUnique(m - 1, numFrames - 1, 0, m - 1);
      }
    }
  }

  /** k+1 looping ticks are the first tick followed by k more. */
  lemma {:induction false} LazyLoopShift(cur: int, reverse: bool, numFrames: int, k: nat)
    ensures LazyLoop(cur, reverse, numFrames, k + 1) == LazyLoop(LazyNextIndex(cur, reverse, numFrames, false), reverse, numFrames, k)
  {
    if k > 0 {
      LazyLoopShift(cur, reverse, numFrames, k - 1);
    }
  }

  /** Looping, the lazy drawable never leaves the frames. */
  lemma {:induction false} LazyLoopInRange(cur: int, reverse: bool, numFrames: int, k: nat)
    requires 0 <= cur < numFrames
    ensures 0 <= LazyLoop(cur, reverse, numFrames, k) < numFrames
  {
    if k > 0 {
      LazyLoopInRange(cur, reverse, numFrames, k - 1);
    }
  }

  /** Looping forward, the lazy drawable reaches every frame within numFrames ticks. */
  lemma LazyForwardVisitsAll(cur: int, numFrames: int, target: int)
    requires 0 <= cur < numFrames && 0 <= target < numFrames
    ensures exists k :: 0 <= k < numFrames && LazyLoop(cur, false, numFrames, k) == target
  {
    var k := (target - cur) % numFrames;
    LazyForwardLoop(cur, numFrames, k);
    ModSum(cur, target, numFrames);
  }

  /** Looping backwards with two frames or more, the lazy drawable never returns to index 0. */
  lemma LazyReverseNeverVisitsZero(cur: int, numFrames: int, k: nat)
    requires 2 <= numFrames && 0 <= cur < numFrames && 1 <= k
    ensures LazyLoop(cur, true, numFrames, k) != 0
  {
    LazyLoopInRange(cur, true, numFrames, k - 1);
  }

  /** Looping, the reversible drawable moves one step around the cycle of all frames per tick. */
  lemma {:induction false} ReversibleLoopIsModular(cur: int, reverse: bool, numFrames: int, k: nat)
    requires 0 <= cur < numFrames
    ensures ReversibleLoop(cur, reverse, numFrames, k) == (if reverse then cur - k else cur + k) % numFrames
  {
    if k > 0 {
      ReversibleLoopIsModular(cur, reverse, numFrames, k - 1);
      if reverse {
        ModPred(cur - (k - 1), numFrames);
      } else {
        ModSucc(cur + (k - 1), numFrames);
      }
    }
  }

  lemma ModSum(cur: int, target: int, n: int)
    requires 0 <= cur < n && 0 <= target < n
    ensures (cur + (target - cur) % n) % n == target
    ensures (cur - (cur - target) % n) % n == target
  {
    ModUnique(target, n, 0, target);
    if target >= cur {
      ModUnique(target - cur, n, 0, target - cur);
      if cur == target {
        ModUnique(cur - target, n, 0, 0);
      } else {
        ModUnique(cur - target, n, -1, n - (target - cur));
        ModUnique(target - n, n, -1, target);
      }
    } else {
      ModUnique(target - cur, n, -1, n - (cur - target));
      ModUnique(n + target, n, 1, target);
      ModUnique(cur - target, n, 0, cur - target);
    }
  }

  /** Looping in either direction, the reversible drawable reaches every frame within numFrames ticks. */
  lemma ReversibleVisitsAll(cur: int, reverse: bool, numFrames: int, target: int)
    requires 0 <= cur < numFrames && 0 <= target < numFrames
    ensures exists k :: 0 <= k < numFrames && ReversibleLoop(cur, reverse, numFrames, k) == target
  {
    var k := if reverse then (cur - target) % numFrames else (target - cur) % numFrames;
    ReversibleLoopIsModular(cur, reverse, numFrames, k);
    ModSum(cur, target, numFrames);
  }

  /**
   * A one-shot tick is never wrapped: playing forward from `cur`, the tick
   * lands on `cur + 1` and is terminal exactly when that is the last frame
   * or beyond; playing backwards it lands on `cur - 1` and is terminal
   * exactly when that is the first frame or before.
   */
  lemma OneShotStep(cur: int, reverse: bool, numFrames: int)
    ensures LazyNextIndex(cur, reverse, numFrames, true) == ReversibleNextIndex(cur, reverse, numFrames, true)
    ensures !reverse ==> (LazyNextIndex(cur, reverse, numFrames, true) == cur + 1 &&
                          (IsLastFrame(cur, reverse, numFrames, true) <==> cur + 1 >= numFrames - 1))
    ensures reverse ==> (LazyNextIndex(cur, reverse, numFrames, true) == cur - 1 &&
                         (IsLastFrame(cur, reverse, numFrames, true) <==> cur - 1 <= 0))
  {
  }

  /** A looping animation never has a terminal tick. */
  lemma LoopingNeverLast(cur: int, reverse: bool, numFrames: int)
    ensures !IsLastFrame(cur, reverse, numFrames, false)
  {
  }
}

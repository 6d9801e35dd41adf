/**
 * The pieces of LazyLoadingAnimationDrawable.selectFrame that work on the
 * prefetch FIFO: finding the requested entry while draining, promoting it
 * (or a stand-in) to current, and the entries a refill appends.
 */
module Prefetch {
  import opened Options
  import opened Frames
  import opened Stepping

  /** CACHE_SIZE: the refill tops the FIFO up to this many entries. */
  const CacheSize: nat := 5

  /** Position of the first FIFO entry carrying `frame`, the one the drain loop stops at. */
  function FirstMatch(fifo: seq<FrameCache>, frame: int): (r: Option<nat>)
    ensures r.Some? ==> r.value < |fifo| && fifo[r.value].index == frame
    ensures r.Some? ==> forall j :: 0 <= j < r.value ==> fifo[j].index != frame
    ensures r.None? <==> forall j :: 0 <= j < |fifo| ==> fifo[j].index != frame
  {
    if fifo == [] then None
    else if fifo[0].index == frame then Some(0)
    else match FirstMatch(fifo[1..], frame)
      case None => None
      case Some(k) => Some(k + 1)
  }

  /**
   * What becomes current when the drain finds `f`: a loaded entry is shown
   * as it is; an unloaded one borrows the image of the current entry and is
   * marked skipped, unless it is the last frame, which is never substituted
   * (the current entry is then kept).
   */
  function Promote(f: FrameCache, current: Option<FrameCache>, numFrames: int): (r: Option<FrameCache>)
    requires f.drawable.None? && f.index != numFrames - 1 ==> current.Some?
    ensures f.drawable.None? && f.index == numFrames - 1 ==> r == current
    ensures !(f.drawable.None? && f.index == numFrames - 1) ==>
              r.Some? && r.value.index == f.index && r.value.duration == f.duration &&
              (r.value.skipped <==> f.drawable.None?) &&
              r.value.drawable == (if f.drawable.Some? then f.drawable else current.value.drawable) &&
              // the promoted entry is the polled object itself, so a pending load stays pending
              r.value.loading == f.loading
  {
    if f.drawable.Some? then Some(f.(skipped := false))
    else if f.index != numFrames - 1 then Some(f.(drawable := current.value.drawable, skipped := true))
    else current
  }

  /** Every entry of the FIFO carries the index of an existing frame. */
  predicate InRange(fifo: seq<FrameCache>, numFrames: int)
  {
    forall k :: 0 <= k < |fifo| ==> 0 <= fifo[k].index < numFrames
  }

  /**
   * The FIFO the drain loop leaves: everything up to and including the
   * first entry carrying `frame` is polled, or everything when none does.
   */
  function DrainFifo(fifo: seq<FrameCache>, frame: int): (r: seq<FrameCache>)
    ensures |r| <= |fifo|
    ensures FirstMatch(fifo, frame).None? ==> r == []
  {
    match FirstMatch(fifo, frame)
    case None => []
    case Some(k) => fifo[k + 1..]
  }

  /** What is left after the drain is a suffix of the FIFO, so it still holds existing frames only. */
  lemma DrainFifoInRange(fifo: seq<FrameCache>, frame: int, numFrames: int)
    requires InRange(fifo, numFrames)
    ensures InRange(DrainFifo(fifo, frame), numFrames)
  {
    var r := DrainFifo(fifo, frame);
    if FirstMatch(fifo, frame).Some? {
      var k := FirstMatch(fifo, frame).value;
      forall i | 0 <= i < |r|
        ensures 0 <= r[i].index < numFrames
      {
        assert r[i] == fifo[k + 1 + i];
      }
    }
  }

  /** The current entry after the drain loop: the promoted match, or the old one when nothing matched. */
  function DrainCurrent(fifo: seq<FrameCache>, current: Option<FrameCache>, frame: int, numFrames: int): (r: Option<FrameCache>)
    requires fifo != [] ==> current.Some?
    ensures FirstMatch(fifo, frame).None? ==> r == current
    ensures r.Some? ==> r == current || r.value.index == frame
    ensures fifo != [] ==> r.Some?
  {
    match FirstMatch(fifo, frame)
    case None => current
    case Some(k) => Promote(fifo[k], current, numFrames)
  }

  /**
   * Draining removes every entry up to and including the first that carries
   * the requested frame, and promotes that one.
   */
  lemma DrainHit(fifo: seq<FrameCache>, current: Option<FrameCache>, frame: int, numFrames: int, k: int)
    requires fifo != [] ==> current.Some?
    requires 0 <= k < |fifo| && fifo[k].index == frame
    requires forall j :: 0 <= j < k ==> fifo[j].index != frame
    ensures DrainFifo(fifo, frame) == fifo[k + 1..]
    ensures DrainCurrent(fifo, current, frame, numFrames) == Promote(fifo[k], current, numFrames)
  {
    var m := FirstMatch(fifo, frame);
    assert m.Some?;
    assert m.value == k;
  }

  /** When no entry carries the requested frame, draining empties the FIFO and keeps the current entry. */
  lemma DrainMiss(fifo: seq<FrameCache>, current: Option<FrameCache>, frame: int, numFrames: int)
    requires fifo != [] ==> current.Some?
    requires forall j :: 0 <= j < |fifo| ==> fifo[j].index != frame
    ensures DrainFifo(fifo, frame) == [] && DrainCurrent(fifo, current, frame, numFrames) == current
  {
    assert FirstMatch(fifo, frame).None?;
  }

  /** The first index the refill appends after: the last entry left, or the selected frame. */
  function RefillBase(fifo: seq<FrameCache>, frame: int): int
  {
    if fifo == [] then frame else fifo[|fifo| - 1].index
  }

  /**
   * The `count` entries the refill loop appends after `base`: each is
   * created pending, and its index is its predecessor's stepped by one in
   * the playback direction with the refill's wrap rule.
   */
  function Refill(frames: seq<Frame>, base: int, reverse: bool, count: nat): (r: seq<FrameCache>)
    requires 0 <= base < |frames|
    ensures |r| == count
    ensures count > 0 ==> 0 <= r[count - 1].index < |frames|
    decreases count
  {
    if count == 0 then []
    else
      var prev := Refill(frames, base, reverse, count - 1);
      var last := if count == 1 then base else prev[count - 2].index;
      prev + [Pending(frames, RefillStep(last, reverse, |frames|))]
  }

  /** Every refilled entry is a pending entry of an existing frame. */
  lemma {:induction false} RefillEntries(frames: seq<Frame>, base: int, reverse: bool, count: nat)
    requires 0 <= base < |frames|
    ensures forall k :: 0 <= k < count ==>
              0 <= Refill(frames, base, reverse, count)[k].index < |frames| &&
              Refill(frames, base, reverse, count)[k] == Pending(frames, Refill(frames, base, reverse, count)[k].index)
  {
    if count > 0 {
      RefillEntries(frames, base, reverse, count - 1);
      var r := Refill(frames, base, reverse, count);
      assert r[..count - 1] == Refill(frames, base, reverse, count - 1);
    }
  }

  /** Appending a refill to a FIFO of existing frames leaves a FIFO of existing frames. */
  lemma RefillAppendInRange(fifo: seq<FrameCache>, frames: seq<Frame>, base: int, reverse: bool, count: nat)
    requires 0 <= base < |frames|
    requires InRange(fifo, |frames|)
    ensures InRange(fifo + Refill(frames, base, reverse, count), |frames|)
  {
    var added := Refill(frames, base, reverse, count);
    RefillEntries(frames, base, reverse, count);
    forall k | |fifo| <= k < |fifo| + count
      ensures 0 <= (fifo + added)[k].index < |frames|
    {
      assert (fifo + added)[k] == added[k - |fifo|];
    }
  }

  /** The FIFO after the refill loop: topped up to CacheSize entries of existing frames. */
  function ToppedUp(fifo: seq<FrameCache>, frames: seq<Frame>, frame: int, reverse: bool): (r: seq<FrameCache>)
    requires 0 <= frame < |frames| && |fifo| <= CacheSize && InRange(fifo, |frames|)
    ensures |r| == CacheSize && InRange(r, |frames|)
    ensures r[..|fifo|] == fifo
  {
    var base := RefillBase(fifo, frame);
    RefillAppendInRange(fifo, frames, base, reverse, CacheSize - |fifo|);
    fifo + Refill(frames, base, reverse, CacheSize - |fifo|)
  }

  /**
   * Where the refill loop stands: the FIFO holds the entries `kept` from the
   * drain followed by the entries `added` so far, which are the first ones
   * Refill produces, and `next` is the last index stepped once more (before
   * the wrap).
   */
  predicate RefillProgress(fifo: seq<FrameCache>, kept: seq<FrameCache>, added: seq<FrameCache>,
                           frames: seq<Frame>, base: int, reverse: bool, next: int)
  {
    && |kept| <= |fifo| <= CacheSize && 0 <= base < |frames|
    && fifo == kept + added && added == Refill(frames, base, reverse, |added|)
    && next == (if added == [] then base else added[|added| - 1].index) + (if !reverse then 1 else -1)
  }

  /**
   * One iteration of the refill loop: wrapping `next` past either end and
   * appending a pending entry for it appends exactly the next entry of Refill.
   */
  lemma RefillNext(fifo: seq<FrameCache>, kept: seq<FrameCache>, added: seq<FrameCache>,
                   frames: seq<Frame>, base: int, reverse: bool, next: int)
    requires RefillProgress(fifo, kept, added, frames, base, reverse, next) && |fifo| < CacheSize
    ensures var w := if !reverse && next >= |frames| then 0 else if reverse && next <= 0 then |frames| - 1 else next;
            && 0 <= w < |frames|
            && RefillProgress(fifo + [Pending(frames, w)], kept, added + [Pending(frames, w)],
                              frames, base, reverse, w + (if !reverse then 1 else -1))
  {
    var w := if !reverse && next >= |frames| then 0 else if reverse && next <= 0 then |frames| - 1 else next;
    assert (kept + added) + [Pending(frames, w)] == kept + (added + [Pending(frames, w)]);
  }

  /**
   * Each refilled entry is its predecessor (the base, for the first) stepped
   * once in the playback direction with the refill's wrap rule.
   */
  lemma {:induction false} RefillChain(frames: seq<Frame>, base: int, reverse: bool, count: nat)
    requires 0 <= base < |frames|
    ensures var r := Refill(frames, base, reverse, count);
            && (count > 0 ==> r[0].index == RefillStep(base, reverse, |frames|))
            && forall j, k :: 0 <= j && k == j + 1 && k < count ==>
                 r[k].index == RefillStep(r[j].index, reverse, |frames|)
  {
    if count > 0 {
      RefillChain(frames, base, reverse, count - 1);
      var r := Refill(frames, base, reverse, count);
      var p := Refill(frames, base, reverse, count - 1);
      assert r[..count - 1] == p;
      forall j, k | 0 <= j && k == j + 1 && k < count
        ensures r[k].index == RefillStep(r[j].index, reverse, |frames|)
      {
        if k < count - 1 {
          assert r[k] == p[k] && r[j] == p[j];
        }
      }
    }
  }

  /** The refilled entries are exactly the indices the next looping ticks will choose. */
  lemma {:induction false} RefillAnticipatesTicks(frames: seq<Frame>, base: int, reverse: bool, count: nat)
    requires 0 <= base < |frames|
    ensures forall k :: 0 <= k < count ==>
              Refill(frames, base, reverse, count)[k].index == LazyLoop(base, reverse, |frames|, k + 1)
  {
    if count > 0 {
      RefillAnticipatesTicks(frames, base, reverse, count - 1);
      var r := Refill(frames, base, reverse, count);
      assert r[..count - 1] == Refill(frames, base, reverse, count - 1);
      var last := if count == 1 then base else r[count - 2].index;
      LazyLoopInRange(base, reverse, |frames|, count - 1);
      RefillStepIsLoopingTick(last, reverse, |frames|);
    }
  }

  /** Going backwards with two frames or more, the refill never prefetches frame 0. */
  lemma RefillReverseSkipsZero(frames: seq<Frame>, base: int, count: nat)
    requires 0 <= base < |frames| && 2 <= |frames|
    ensures forall k :: 0 <= k < count ==> Refill(frames, base, true, count)[k].index != 0
  {
    var r := Refill(frames, base, true, count);
    RefillChain(frames, base, true, count);
    forall k | 0 <= k < count
      ensures r[k].index != 0
    {
      if k > 0 {
        assert r[k].index == RefillStep(r[k - 1].index, true, |frames|);
      }
    }
  }

  /**
   * When there are fewer frames than the FIFO holds, the refill wraps and
   * queues some index twice, in either direction (going backwards, the
   * cycle is even shorter since it skips frame 0).
   */
  lemma RefillRepeatsWhenFewFrames(frames: seq<Frame>, base: int, reverse: bool)
    requires 0 <= base < |frames| < CacheSize
    ensures exists i, j :: 0 <= i < j < CacheSize &&
              Refill(frames, base, reverse, CacheSize)[i].index == Refill(frames, base, reverse, CacheSize)[j].index
  {
    var r := Refill(frames, base, reverse, CacheSize);
    var n := |frames|;
    RefillAnticipatesTicks(frames, base, reverse, CacheSize);
    if n == 1 {
      RefillEntries(frames, base, reverse, CacheSize);
      assert r[0].index == r[1].index;
    } else if !reverse {
      ForwardPeriod(base, n);
      assert r[0].index == r[n].index;
    } else {
      ReversePeriod(base, n);
      assert r[0].index == r[n - 1].index;
    }
  }

  /** Looping forward, the tick after the first repeats every n ticks. */
  lemma ForwardPeriod(base: int, n: int)
    requires 0 <= base < n
    ensures LazyLoop(base, false, n, 1) == LazyLoop(base, false, n, n + 1)
  {
    LazyForwardLoop(base, n, 1);
    LazyForwardLoop(base, n, n + 1);
    ModPeriod(base + 1, n);
  }

  /** Looping backwards with two frames or more, the tick after the first repeats every n-1 ticks. */
  lemma ReversePeriod(base: int, n: int)
    requires 0 <= base < n && 2 <= n
    ensures LazyLoop(base, true, n, 1) == LazyLoop(base, true, n, n)
  {
    // the first tick lands on c in 1 .. n-1, from where the cycle skips frame 0
    var c := LazyNextIndex(base, true, n, false);
    var m := n - 1;
    LazyLoopShift(base, true, n, 0);
    LazyLoopShift(base, true, n, m);
    LazyReverseLoop(c, n, m);
    ModPeriod(c - 1 - m, m);
    ModUnique(c - 1, m, 0, c - 1);
    assert (c - 1 - m) % m == c - 1;
  }

  lemma ModPeriod(a: int, n: int)
    requires 0 < n
    ensures (a + n) % n == a % n
  {
    ModUnique(a + n, n, a / n + 1, a % n);
  }
}

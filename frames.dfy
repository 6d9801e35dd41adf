/**
 * Frame metadata and cache entries of the lazy drawable
 * (LazyLoadingAnimationDrawable.Frame, FrameCache and the resource loader).
 */
module Frames {
  import opened Options

  /** A declared frame: its position, the resource it is decoded from and how long it shows. */
  datatype Frame = Frame(index: int, resId: int, duration: int)

  /** A decoded drawable; the model only remembers which resource it came from. */
  datatype Image = Image(resId: int)

  /**
   * The resources the loader decodes from. Decoding a resource id in
   * `missing` throws NotFoundException; every other id decodes to its image.
   */
  datatype Resources = Resources(missing: set<int>)

  /** AnimationState.loadFrame: the decoded image, or None where the loader throws NotFoundException. */
  function Load(res: Resources, resId: int): Option<Image>
  {
    if resId in res.missing then None else Some(Image(resId))
  }

  /** Frames are numbered by their position and last a non-negative time. */
  predicate WellFormed(frames: seq<Frame>)
  {
    forall i :: 0 <= i < |frames| ==> frames[i].index == i && frames[i].duration >= 0
  }

  /**
   * A FrameCache reduced to what playback uses: the frame's index and
   * duration, its drawable (None until a load succeeds, or a stand-in
   * borrowed from another entry), whether a stand-in was substituted, and
   * whether its asynchronous load was submitted to the executor and has not
   * run yet.
   */
  datatype FrameCache = FrameCache(index: int, duration: int, drawable: Option<Image>, skipped: bool, loading: bool)

  /** A freshly created cache entry, submitted to the executor, whose load has not run. */
  function Pending(frames: seq<Frame>, i: int): (r: FrameCache)
    requires 0 <= i < |frames|
    ensures r.index == i && r.drawable.None? && !r.skipped && r.loading
  {
    FrameCache(i, frames[i].duration, None, false, true)
  }

  /**
   * FrameCache.run: the load of `f`'s resource runs. A decoded image
   * replaces whatever drawable the entry had, a stand-in included; when
   * the loader throws, the entry keeps its drawable. Either way the load is
   * no longer pending.
   */
  function Finish(f: FrameCache, res: Resources, resId: int): (r: FrameCache)
    ensures !r.loading && r.index == f.index && r.duration == f.duration && r.skipped == f.skipped
    ensures resId !in res.missing ==> r.drawable == Some(Image(resId))
    ensures resId in res.missing ==> r.drawable == f.drawable
  {
    match Load(res, resId)
    case Some(image) => f.(drawable := Some(image), loading := false)
    case None => f.(loading := false)
  }

  /** A cache entry created and loaded synchronously (new FrameCache(...).loadFrame()). */
  function LoadedNow(frames: seq<Frame>, res: Resources, i: int): (r: FrameCache)
    requires 0 <= i < |frames|
    ensures r.index == i && !r.skipped && !r.loading
    ensures r.drawable.Some? <==> frames[i].resId !in res.missing
  {
    FrameCache(i, frames[i].duration, Load(res, frames[i].resId), false, false)
  }
}

/**
 * The frame counter of `Animation` in scripts/utilites.py: a list of images,
 * each shown for `imgDuration` frames, played either in a loop or once
 * (saturating on the last frame and latching `done`).
 */
module Utilities {
  import opened Arith

  /** The part of an animation that `update` rewrites. */
  datatype Progress = Progress(frame: int, done: bool)

  /**
   * One call of `update` on an animation of `period` frames
   * (`period` is `img_duration * len(images)`).
   */
  function Tick(p: Progress, loop: bool, period: int): (r: Progress)
    requires period > 0
    // looping: the frame wraps from the last frame to 0 and `done` is untouched
    ensures loop && 0 <= p.frame < period ==>
      r.frame == (if p.frame == period - 1 then 0 else p.frame + 1) && r.done == p.done
    ensures loop ==> 0 <= r.frame < period
    // one-shot: one step forward, saturating at the last frame
    ensures !loop && p.frame < period - 1 ==> r.frame == p.frame + 1
    ensures !loop && p.frame >= period - 1 ==> r.frame == period - 1
    // one-shot: `done` latches as soon as the last frame is reached
    ensures !loop ==> (r.done <==> p.done || r.frame == period - 1)
  {
    if loop then
      Progress((p.frame + 1) % period, p.done)
    else
      var frame := Min(p.frame + 1, period - 1);
      Progress(frame, if frame >= period - 1 then true else p.done)
  }

  /** `k` successive calls of `update`. */
  function TickN(p: Progress, loop: bool, period: int, k: nat): Progress
    requires period > 0
  {
    if k == 0 then p else Tick(TickN(p, loop, period, k - 1), loop, period)
  }

  lemma {:induction false} TickNAdd(p: Progress, loop: bool, period: int, a: nat, b: nat)
    requires period > 0
    ensures TickN(p, loop, period, a + b) == TickN(TickN(p, loop, period, a), loop, period, b)
  {
    if b > 0 {
      TickNAdd(p, loop, period, a, b - 1);
    }
  }

  /** Before wrapping, a looping animation advances one frame per update. */
  lemma {:induction false} LoopAdvances(p: Progress, period: int, k: nat)
    requires period > 0 && 0 <= p.frame && p.frame + k < period
    ensures TickN(p, true, period, k) == Progress(p.frame + k, p.done)
  {
    if k > 0 {
      LoopAdvances(p, period, k - 1);
    }
  }

  /** A looping animation never leaves `[0, period)` and never changes `done`. */
  lemma {:induction false} LoopStaysInRange(p: Progress, period: int, k: nat)
    requires period > 0 && 0 <= p.frame < period
    ensures 0 <= TickN(p, true, period, k).frame < period
    ensures TickN(p, true, period, k).done == p.done
  {
    if k > 0 {
      LoopStaysInRange(p, period, k - 1);
    }
  }

  /** After exactly `period` updates a looping animation is back where it started. */
  lemma LoopPeriodic(p: Progress, period: int)
    requires period > 0 && 0 <= p.frame < period
    ensures TickN(p, true, period, period) == p
  {
    var toLast := period - 1 - p.frame;
    LoopAdvances(p, period, toLast);
    var last := TickN(p, true, period, toLast);
    assert Tick(last, true, period) == Progress(0, p.done);
    assert TickN(last, true, period, 1) == Progress(0, p.done);
    LoopAdvances(Progress(0, p.done), period, p.frame);
    TickNAdd(p, true, period, toLast, 1);
    TickNAdd(p, true, period, toLast + 1, p.frame);
  }

  /**
   * A one-shot animation is at frame `min(frame + k, period - 1)` after `k`
   * updates, and is done exactly when it was already done or has reached the
   * last frame in some update.
   */
  lemma {:induction false} OneShotProgress(p: Progress, period: int, k: nat)
    requires period > 0 && 0 <= p.frame < period
    ensures TickN(p, false, period, k).frame == Min(p.frame + k, period - 1)
    ensures TickN(p, false, period, k).done <==> p.done || (k > 0 && p.frame + k >= period - 1)
  {
    if k > 0 {
      OneShotProgress(p, period, k - 1);
    }
  }

  /** One-shot frames never go backwards, and `done` never reverts to false. */
  lemma OneShotMonotone(p: Progress, period: int, j: nat, k: nat)
    requires period > 0 && 0 <= p.frame < period && j <= k
    ensures TickN(p, false, period, j).frame <= TickN(p, false, period, k).frame
    ensures TickN(p, false, period, j).done ==> TickN(p, false, period, k).done
  {
    OneShotProgress(p, period, j);
    OneShotProgress(p, period, k);
  }

  /** Python's `int(a / b)`: true division truncated toward zero. */
  function TruncDiv(a: int, b: int): (q: int)
    requires b != 0
    // rounds down for a non-negative quotient and up for a non-positive one
    ensures a >= 0 && b > 0 ==> q * b <= a < (q + 1) * b
    ensures a <= 0 && b > 0 ==> (q - 1) * b < a <= q * b
  {
    var q := Abs(a) / Abs(b);
    var t := if (a < 0) == (b < 0) then q else -q;
    if b > 0 then TruncQuotient(a, b, t); t else t
  }

  /** The image shown on `frame`: `int(frame / img_duration)`. */
  function ImageIndex(frame: int, imgDuration: int, count: nat): (i: int)
    requires imgDuration > 0 && 0 <= frame < imgDuration * count
    ensures 0 <= i < count
    ensures i * imgDuration <= frame < (i + 1) * imgDuration
  {
    FloorDiv(frame, imgDuration);
    FloorBelow(frame, imgDuration, count);
    TruncDiv(frame, imgDuration)
  }

  /** Image `i` is shown on exactly the `imgDuration` frames `[i * imgDuration, (i + 1) * imgDuration)`. */
  lemma ImageSpan(frame: int, imgDuration: int, count: nat, i: int)
    requires imgDuration > 0 && 0 <= frame < imgDuration * count && 0 <= i < count
    ensures ImageIndex(frame, imgDuration, count) == i <==> i * imgDuration <= frame < (i + 1) * imgDuration
  {
    FloorUnique(frame, imgDuration, i);
  }

  class Animation<T> {
    const images: seq<T>
    const loop: bool
    const imgDuration: int
    var done: bool
    var frame: int

    /** Number of frames in one pass over the images. */
    function Period(): int
    {
      imgDuration * |images|
    }

    function State(): Progress
      reads this
    {
      Progress(frame, done)
    }

    ghost predicate Valid()
      reads this
    {
      && imgDuration > 0 && |images| > 0
      && 0 <= frame < Period()
      && (done ==> !loop && frame == Period() - 1)
    }

    constructor(images: seq<T>, imgDur: int := 5, loop: bool := true)
      requires imgDur > 0 && |images| > 0
      ensures Valid()
      ensures this.images == images && this.imgDuration == imgDur && this.loop == loop
      ensures State() == Progress(0, false)
    {
      this.images := images;
      this.loop := loop;
      this.imgDuration := imgDur;
      this.done := false;
      this.frame := 0;
    }

    /** A fresh animation over the same images, duration and mode, rewound to its start. */
    method Copy() returns (c: Animation<T>)
      requires Valid()
      ensures fresh(c) && c.Valid()
      ensures c.images == images && c.imgDuration == imgDuration && c.loop == loop
      ensures c.State() == Progress(0, false)
    {
      c := new Animation(images, imgDuration, loop);
    }

    method Update()
      requires Valid()
      modifies this
      ensures Valid()
      ensures State() == Tick(old(State()), loop, Period())
    {
      if loop {
        frame := (frame + 1) % (imgDuration * |images|);
      } else {
        frame := Min(frame + 1, imgDuration * |images| - 1);
        if frame >= imgDuration * |images| - 1 {
          done := true;
        }
      }
    }

    /** The image to draw now: the one whose `imgDuration` frames include `frame`. */
    function Img(): (img: T)
      requires Valid()
      reads this
      ensures exists i :: 0 <= i < |images| && i * imgDuration <= frame < (i + 1) * imgDuration && img == images[i]
    {
      images[ImageIndex(frame, imgDuration, |images|)]
    }
  }
}

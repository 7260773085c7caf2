/** The adaptive render resolution of the firework page (`PerformanceScaler`,
    src/main.ts:2599-2637): frame times are averaged over windows of thirty
    frames; a slow window lowers the target pixel ratio, a fast one raises it
    up to what the display offers, and the applied ratio eases 35% of the
    way towards the target, but only when that step is big enough to be worth
    a renderer resize.

    `window.devicePixelRatio`, read on every window, is a parameter; the call
    to `renderer.setPixelRatio` is reported as a result. */
module PerformanceScaling {
  import opened MathUtil

  /** Frames per averaging window. */
  const SampleWindow: nat := 30
  /** The floor a slow window may lower the target to. */
  const MinPixelRatio: real := 0.9
  /** The ceiling of every device cap. */
  const MaxPixelRatio: real := 2.0
  /** A window whose mean frame time is above this lowers the target. */
  const SlowFrameMs: real := 22.0
  /** A window whose mean frame time is below this raises the target. */
  const FastFrameMs: real := 16.0
  const StepDown: real := 0.15
  const StepUp: real := 0.08
  /** The fraction of the gap to the target closed by one adjustment. */
  const Smoothing: real := 0.35
  /** Steps of at most this size are not applied. */
  const Hysteresis: real := 0.03

  function Abs(x: real): real { if x < 0.0 then -x else x }

  /** `clamp(window.devicePixelRatio || 1, 1, 2)`: a ratio of 0 is falsy and
      counts as 1. The display's ratio is kept when it lies in [1, 2]. */
  function DeviceCap(dpr: real): (r: real)
    ensures 1.0 <= r <= MaxPixelRatio
    ensures 1.0 <= dpr <= MaxPixelRatio ==> r == dpr
    ensures dpr == 0.0 ==> r == 1.0
  {
    Clamp(if dpr == 0.0 then 1.0 else dpr, 1.0, MaxPixelRatio)
  }

  /** The target after a window whose mean frame time is `avg`
      (src/main.ts:2622-2630). A slow window never raises it and never takes
      it below 0.9, a fast one never lowers a target that is within the cap
      and never takes it above the cap, and a window in between leaves it
      alone. */
  function Retarget(target: real, avg: real, cap: real): (r: real)
    ensures FastFrameMs <= avg <= SlowFrameMs ==> r == target
    ensures avg > SlowFrameMs ==> MinPixelRatio <= r <= Max(target, MinPixelRatio)
    ensures avg > SlowFrameMs && target > MinPixelRatio ==> r < target
    ensures avg < FastFrameMs ==> r <= cap && (target <= cap ==> target <= r)
    ensures avg < FastFrameMs && target < cap ==> target < r
  {
    if avg > SlowFrameMs then Max(MinPixelRatio, target - StepDown)
    else if avg < FastFrameMs then Min(cap, target + StepUp)
    else target
  }

  /** Whatever the frame times and the display, a target within
      [0.9, 2] stays there. */
  lemma RetargetStaysInRange(target: real, avg: real, dpr: real)
    requires MinPixelRatio <= target <= MaxPixelRatio
    ensures MinPixelRatio <= Retarget(target, avg, DeviceCap(dpr)) <= MaxPixelRatio
  {
  }

  /** The applied ratio after a window (src/main.ts:2632-2636): a step of
      `lerp(current, target, 0.35)` if it moves the ratio by more than 0.03,
      otherwise no change. The result lies between the current ratio and the
      target; it changes exactly when the gap to the target exceeds
      0.03 / 0.35 = 3/35, and then the gap shrinks to 65% of what it was. */
  function Settle(current: real, target: real): (r: real)
    ensures Min(current, target) <= r <= Max(current, target)
    ensures r != current <==> Abs(target - current) > 3.0 / 35.0
    ensures r != current ==> Abs(target - r) == (1.0 - Smoothing) * Abs(target - current)
  {
    var next := Lerp(current, target, Smoothing);
    assert next - current == Smoothing * (target - current);
    if Abs(next - current) > Hysteresis then next else current
  }

  /** Repeated windows converge: as long as the target holds still, the gap
      never grows, and each window that leaves it above 3/35 has closed more
      than 0.03 of it, so the ratio comes to rest within 3/35 of the target
      after at most `gap / 0.03` windows. */
  lemma {:induction false} SettleConverges(current: real, target: real, n: nat)
    ensures Abs(target - SettleN(current, target, n)) <= Abs(target - current)
    ensures Abs(target - SettleN(current, target, n)) > 3.0 / 35.0 ==>
              Abs(target - SettleN(current, target, n)) <= Abs(target - current) - Hysteresis * n as real
  {
    if n > 0 {
      SettleConverges(current, target, n - 1);
      var c := SettleN(current, target, n - 1);
      var gc, gn := Abs(target - c), Abs(target - Settle(c, target));
      assert gn <= gc;
      if gn > 3.0 / 35.0 {
        assert gn == 0.65 * gc;
        assert gn <= gc - Hysteresis;
      }
    }
  }

  /** `n` windows with an unchanged target. */
  function SettleN(current: real, target: real, n: nat): real {
    if n == 0 then current else Settle(SettleN(current, target, n - 1), target)
  }

  class PerformanceScaler {
    var accMs: real
    var samples: nat
    var targetPixelRatio: real
    var currentPixelRatio: real

    /** A window is always open, and both ratios lie in [0.9, 2]. */
    ghost predicate Valid()
      reads this
    {
      && samples < SampleWindow
      && MinPixelRatio <= targetPixelRatio <= MaxPixelRatio
      && MinPixelRatio <= currentPixelRatio <= MaxPixelRatio
    }

    /** `new PerformanceScaler(renderer)` (src/main.ts:2606-2611): both
        ratios start at the display's capped ratio, which is also applied. */
    constructor (dpr: real)
      ensures Valid()
      ensures targetPixelRatio == DeviceCap(dpr) && currentPixelRatio == DeviceCap(dpr)
      ensures accMs == 0.0 && samples == 0
    {
      accMs := 0.0;
      samples := 0;
      targetPixelRatio := DeviceCap(dpr);
      currentPixelRatio := targetPixelRatio;
    }

    /** `update(frameMs)` (src/main.ts:2613-2637): the frame time is added to
        the open window; the thirtieth frame closes it, resets the window,
        retargets on its mean and settles the applied ratio. `resized` says
        whether `renderer.setPixelRatio` was called. */
    method Update(frameMs: real, dpr: real) returns (resized: bool)
      requires Valid()
      modifies this
      ensures Valid()
      ensures old(samples) + 1 < SampleWindow ==>
                && accMs == old(accMs) + frameMs && samples == old(samples) + 1
                && targetPixelRatio == old(targetPixelRatio) && currentPixelRatio == old(currentPixelRatio)
                && !resized
      ensures old(samples) + 1 == SampleWindow ==>
                && accMs == 0.0 && samples == 0
                && targetPixelRatio == Retarget(old(targetPixelRatio), (old(accMs) + frameMs) / SampleWindow as real, DeviceCap(dpr))
                && currentPixelRatio == Settle(old(currentPixelRatio), targetPixelRatio)
                && resized == (currentPixelRatio != old(currentPixelRatio))
    {
      accMs := accMs + frameMs;
      samples := samples + 1;
      resized := false;
      if samples < SampleWindow {
        return;
      }
      var avg := accMs / samples as real;
      accMs := 0.0;
      samples := 0;
      if avg > SlowFrameMs {
        targetPixelRatio := Max(MinPixelRatio, targetPixelRatio - StepDown);
      } else if avg < FastFrameMs {
        targetPixelRatio := Min(DeviceCap(dpr), targetPixelRatio + StepUp);
      }
      RetargetStaysInRange(old(targetPixelRatio), avg, dpr);
      var next := Lerp(currentPixelRatio, targetPixelRatio, Smoothing);
      if Abs(next - currentPixelRatio) > Hysteresis {
        currentPixelRatio := next;
        resized := true;
      }
      assert currentPixelRatio == Settle(old(currentPixelRatio), targetPixelRatio);
    }
  }
}

/**
 * Frame pacing (`RetroSync`): before each frame the time since the previous
 * one is compared with the frame period, and the difference, clamped to the
 * rate-control window, decides how long to sleep. Times are real seconds and
 * the clock is a parameter.
 */
module Sync {
  import opened Ints

  /** `SyncData`: what `prepare_sync_data` measured for the coming frame. */
  datatype SyncData = SyncData(targetFrameDuration: real, elapsed: real, fps: real, now: real, adjustment: real)

  function Abs(x: real): real { if x < 0.0 then -x else x }

  /** `f64::clamp(lo, hi)`. */
  function Clamp(x: real, lo: real, hi: real): (r: real)
    requires lo <= hi
    ensures lo <= r <= hi
    ensures lo <= x <= hi ==> r == x
  {
    if x < lo then lo else if x > hi then hi else x
  }

  /** `Instant::duration_since`, which saturates at zero. */
  function Since(now: real, earlier: real): (r: real)
    ensures r >= 0.0
  {
    if now >= earlier then now - earlier else 0.0
  }

  /**
   * The measurement `prepare_sync_data` stores: the frame period 1/fps, the
   * time since the last frame, and the difference between the two, clamped
   * to [-d, d] when it leaves that window.
   */
  function Measure(lastFrameTime: real, d: real, fps: real, now: real): (s: SyncData)
    requires d >= 0.0 && fps > 0.0
    ensures s.fps == fps && s.now == now && s.targetFrameDuration == 1.0 / fps
    ensures s.elapsed == Since(now, lastFrameTime)
    ensures -d <= s.adjustment <= d
    ensures Abs(s.elapsed - s.targetFrameDuration) <= d ==> s.adjustment == s.elapsed - s.targetFrameDuration
    ensures s.elapsed - s.targetFrameDuration > d ==> s.adjustment == d
    ensures s.elapsed - s.targetFrameDuration < -d ==> s.adjustment == -d
  {
    var target := 1.0 / fps;
    var elapsed := Since(now, lastFrameTime);
    var delta := elapsed - target;
    var adjustment := if Abs(delta) > d then Clamp(delta, -d, d) else delta;
    SyncData(target, elapsed, fps, now, adjustment)
  }

  /**
   * The sleep `sync_now` computes: what is left of the frame period when the
   * frame ran short, otherwise the period minus the adjustment.
   */
  function SleepTime(s: SyncData): real
    requires s.fps > 0.0
  {
    if s.adjustment < 0.0 then s.targetFrameDuration - s.elapsed else 1.0 / s.fps - s.adjustment
  }

  /**
   * For a measurement made by `Measure`: a short frame sleeps for exactly
   * the rest of its period, which is positive; any other frame sleeps
   * between the period minus d and the period.
   */
  lemma SleepTimeBounds(lastFrameTime: real, d: real, fps: real, now: real)
    requires d >= 0.0 && fps > 0.0
    ensures var s := Measure(lastFrameTime, d, fps, now);
      if s.adjustment < 0.0 then
        SleepTime(s) == s.targetFrameDuration - s.elapsed && SleepTime(s) > 0.0
      else
        s.targetFrameDuration - d <= SleepTime(s) <= s.targetFrameDuration
  {
    var s := Measure(lastFrameTime, d, fps, now);
    if s.adjustment < 0.0 {
      assert s.elapsed - s.targetFrameDuration < 0.0;
    }
  }

  /** A frame that took exactly its period needs no correction and sleeps a full period. */
  lemma OnTimeFrame(lastFrameTime: real, d: real, fps: real)
    requires d >= 0.0 && fps > 0.0
    ensures var s := Measure(lastFrameTime, d, fps, lastFrameTime + 1.0 / fps);
      s.adjustment == 0.0 && SleepTime(s) == 1.0 / fps
  {
  }

  class RetroSync {
    var lastFrameTime: real
    const rateControlDelta: real
    var frameCount: u32
    var syncData: SyncData

    /** `RetroSync::new`, at clock time `now`. */
    constructor (rateControlDelta: real, now: real)
      ensures this.rateControlDelta == rateControlDelta && lastFrameTime == now && frameCount == 0
      ensures syncData == SyncData(0.0, 0.0, 0.0, now, 0.0)
    {
      this.rateControlDelta := rateControlDelta;
      lastFrameTime := now;
      frameCount := 0;
      syncData := SyncData(0.0, 0.0, 0.0, now, 0.0);
    }

    /**
     * `prepare_sync_data` with the core's current frame rate and the clock
     * at `now`. The frame rate must be positive (`Duration::from_secs_f64`
     * panics otherwise) and the window non-negative (`clamp` panics otherwise).
     */
    method PrepareSyncData(fps: real, now: real)
      requires fps > 0.0 && rateControlDelta >= 0.0
      modifies this
      ensures syncData == Measure(lastFrameTime, rateControlDelta, fps, now)
      ensures lastFrameTime == old(lastFrameTime) && frameCount == old(frameCount)
    {
      var target := 1.0 / fps;
      var elapsed := Since(now, lastFrameTime);
      var delta := elapsed - target;
      var adjustment := if Abs(delta) > rateControlDelta then Clamp(delta, -rateControlDelta, rateControlDelta) else delta;
      syncData := SyncData(target, elapsed, fps, now, adjustment);
    }

    /**
     * `sync_now`: starts the next frame at the measured time, counts the
     * frame (`u32` wrap-around, as a release build does), and returns how
     * long it sleeps, zero when the computed time is not positive. A
     * negative period-minus-adjustment makes `Duration::from_secs_f64`
     * panic, so it is excluded.
     */
    method SyncNow() returns (slept: real)
      requires syncData.fps > 0.0
      requires syncData.adjustment < 0.0 || 1.0 / syncData.fps - syncData.adjustment >= 0.0
      requires syncData.adjustment >= 0.0 || syncData.targetFrameDuration - syncData.elapsed >= 0.0
      modifies this
      ensures lastFrameTime == old(syncData).now
      ensures frameCount == WrapU32(old(frameCount) + 1)
      ensures syncData == old(syncData)
      ensures slept == if SleepTime(syncData) > 0.0 then SleepTime(syncData) else 0.0
      ensures slept >= 0.0
    {
      var sleepTime := if syncData.adjustment < 0.0 then syncData.targetFrameDuration - syncData.elapsed
                       else 1.0 / syncData.fps - syncData.adjustment;
      lastFrameTime := syncData.now;
      frameCount := WrapU32(frameCount + 1);
      slept := 0.0;
      if sleepTime > 0.0 {
        slept := sleepTime;
      }
    }
  }

  /**
   * The preconditions of `sync_now` hold after `prepare_sync_data` whenever
   * the frame period is at least the rate-control window.
   */
  lemma PreparedCanSync(lastFrameTime: real, d: real, fps: real, now: real)
    requires d >= 0.0 && fps > 0.0 && 1.0 / fps >= d
    ensures var s := Measure(lastFrameTime, d, fps, now);
      (s.adjustment < 0.0 || 1.0 / s.fps - s.adjustment >= 0.0)
      && (s.adjustment >= 0.0 || s.targetFrameDuration - s.elapsed >= 0.0)
  {
    SleepTimeBounds(lastFrameTime, d, fps, now);
  }
}

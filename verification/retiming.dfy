/**
 * Playback retiming: the clip is sped up three times by dividing the frame
 * duration, but never below the shortest duration GIF players honour.
 */
module Retiming {

  /** `MIN_FRAME_DURATION` / `MIN_DURATION`, in milliseconds. */
  const MinFrameDuration: int := 20

  /** The playback speed-up. */
  const SpeedFactor: int := 3

  /**
   * `max(MIN_FRAME_DURATION, int(duration // 3))`. Python's `//` floors;
   * Dafny's `/` with a positive divisor floors too, so negative durations
   * need no special case.
   */
  function Retime(duration: int): (r: int)
    ensures r >= MinFrameDuration
    ensures duration >= SpeedFactor * MinFrameDuration ==>
      SpeedFactor * r <= duration < SpeedFactor * r + SpeedFactor
    ensures duration < SpeedFactor * (MinFrameDuration + 1) ==> r == MinFrameDuration
  {
    var sped := duration / SpeedFactor;
    if sped < MinFrameDuration then MinFrameDuration else sped
  }

  /** A longer source duration never gives a shorter output duration. */
  lemma RetimeMonotone(d: int, e: int)
    requires d <= e
    ensures Retime(d) <= Retime(e)
  {
  }

  lemma RetimeExamples()
    ensures Retime(90) == 30
    ensures Retime(60) == 20
    ensures Retime(10) == 20
  {
  }
}

/** `timerUtils`: millisecond formatting, remaining-to-progress, and the colour class rewrite. */
module TimerUtils {
  import opened JsText
  import TimerTime

  function Max(a: int, b: int): int { if a >= b then a else b }

  /** `formatTime(ms)`: the whole seconds `max(0, floor(ms / 1000))` as "MM:SS". */
  function FormatTime(ms: real): (s: string)
    ensures |s| >= 5 && s[|s| - 3] == ':'
    ensures ms < 1000.0 ==> s == "00:00"
  {
    var seconds := Max(0, (ms / 1000.0).Floor);
    TimerTime.FormatTimeZero();
    assert ms < 1000.0 ==> seconds == 0;
    TimerTime.FormatTime(seconds)
  }

  /**
   * The millisecond variant shows the same clock as the seconds variant on the truncated second
   * count, and anything below one second, negative times included, shows "00:00".
   */
  lemma FormatTimeMsLayout(ms: real)
    ensures TimerTime.IsClock(FormatTime(ms))
    ensures TimerTime.ReadClock(FormatTime(ms)) == Max(0, (ms / 1000.0).Floor)
    ensures ms >= 0.0 ==> TimerTime.ReadClock(FormatTime(ms)) as real <= ms / 1000.0 < TimerTime.ReadClock(FormatTime(ms)) as real + 1.0
    ensures ms < 1000.0 ==> FormatTime(ms) == "00:00"
  {
    TimerTime.FormatTimeLayout(Max(0, (ms / 1000.0).Floor));
    if ms < 1000.0 {
      assert (ms / 1000.0).Floor <= 0;
      TimerTime.FormatTimeZero();
    }
  }

  /** `calculateProgress(remainingMs, totalMs)`: the elapsed fraction, clamped to [0, 1]. */
  function CalculateProgress(remainingMs: real, totalMs: real): (r: real)
    ensures 0.0 <= r <= 1.0
    ensures totalMs <= 0.0 ==> r == 0.0
    ensures totalMs > 0.0 && 0.0 <= remainingMs <= totalMs ==> r * totalMs == totalMs - remainingMs
    ensures totalMs > 0.0 && remainingMs > totalMs ==> r == 0.0
    ensures totalMs > 0.0 && remainingMs < 0.0 ==> r == 1.0
  {
    if totalMs <= 0.0 then 0.0
    else
      var elapsed := totalMs - remainingMs;
      var ratio := elapsed / totalMs;
      if ratio < 0.0 then 0.0 else if ratio > 1.0 then 1.0 else ratio
  }

  /** Nothing elapsed gives 0, nothing remaining gives 1, and less remaining never gives less progress. */
  lemma CalculateProgressEndpoints(totalMs: real, a: real, b: real)
    requires totalMs > 0.0
    ensures CalculateProgress(totalMs, totalMs) == 0.0
    ensures CalculateProgress(0.0, totalMs) == 1.0
    ensures a <= b ==> CalculateProgress(b, totalMs) <= CalculateProgress(a, totalMs)
  {
    if a <= b {
      assert (totalMs - b) / totalMs <= (totalMs - a) / totalMs by {
        assert (totalMs - b) / totalMs * totalMs == totalMs - b;
        assert (totalMs - a) / totalMs * totalMs == totalMs - a;
      }
    }
  }

  /** `bgClassName.replace(/^bg-/, 'text-')`. */
  function BgToTextColor(bgClassName: string): (r: string)
    ensures StartsWith(bgClassName, "bg-") ==> StartsWith(r, "text-") && r[5..] == bgClassName[3..]
    ensures !StartsWith(bgClassName, "bg-") ==> r == bgClassName
  {
    if StartsWith(bgClassName, "bg-") then "text-" + bgClassName[3..] else bgClassName
  }

  /** Only the leading prefix is rewritten, so a second rewrite changes nothing. */
  lemma BgToTextColorIdempotent(s: string)
    ensures BgToTextColor(BgToTextColor(s)) == BgToTextColor(s)
    ensures |BgToTextColor(s)| == if StartsWith(s, "bg-") then |s| + 2 else |s|
  {
    var r := BgToTextColor(s);
    if StartsWith(s, "bg-") {
      assert r[..3] == "tex";
    }
  }
}

/**
 * The countdown widget (frontend/src/components/CountdownTimer.tsx): a
 * `timeLeft` state from `calculateTimeLeft`, refreshed by a one-second
 * interval that calls `onExpire` on every tick at or past the deadline; a
 * colour and a pulse chosen by thresholds on the remaining milliseconds; and
 * the ended view that replaces the countdown.
 */
module CountdownTimer {
  import opened Common
  import opened Format

  datatype TimerColor = Red | Orange | Green   // text-red-600, text-orange-600, text-green-600

  /**
   * `getStatusColor`: red once the time is up or under an hour is left,
   * orange under a day, green beyond. The source compares the remaining time
   * in hours, as a fraction.
   */
  function StatusColor(total: int): (c: TimerColor)
    ensures c == Red <==> total < 3_600_000
    ensures c == Orange <==> 3_600_000 <= total < 86_400_000
    ensures c == Green <==> total >= 86_400_000
  {
    if total <= 0 then Red
    else
      var totalHours := total as real / 3_600_000.0;
      if totalHours < 1.0 then Red
      else if totalHours < 24.0 then Orange
      else Green
  }

  /** `shouldAnimate`: the pulse runs only in the last hour before the deadline. */
  function ShouldAnimate(total: int): (pulse: bool)
    ensures pulse <==> 0 < total < 3_600_000
  {
    var totalHours := total as real / 3_600_000.0;
    totalHours < 1.0 && total > 0
  }

  /**
   * Colour and pulse follow the badge of `getTimeStatus` for the same clock
   * reading: red is "expired" or "urgent", orange "soon", green "running",
   * and the pulse is exactly "urgent".
   */
  lemma ColorFollowsTimeStatus(deadline: int, nowMs: int)
    ensures var t, s := CalculateTimeLeft(deadline, nowMs), GetTimeStatus(deadline, nowMs);
      && (StatusColor(t.total) == Red <==> s == Expired || s == Urgent)
      && (StatusColor(t.total) == Orange <==> s == Soon)
      && (StatusColor(t.total) == Green <==> s == Running)
      && (ShouldAnimate(t.total) <==> s == Urgent)
  {
  }

  /** What the widget renders. */
  datatype TimerView =
    | EndedView(color: TimerColor)                                 // 已结束
    | RunningView(text: Countdown, color: TimerColor, pulse: bool)  // 剩余 {formatTimeLeft(deadline)}

  /**
   * The render: the ended view once the stored total is zero, otherwise the
   * label `formatTimeLeft` computes at render time, with the colour and pulse
   * of the stored total.
   */
  function Render(timeLeft: TimeLeft, deadline: int, renderNowMs: int): (v: TimerView)
    ensures v.EndedView? <==> timeLeft.total <= 0
    ensures v.EndedView? ==> v.color == Red
    ensures v.RunningView? ==>
      && v.text == FormatTimeLeft(deadline, renderNowMs)
      && v.color == StatusColor(timeLeft.total)
      && (v.pulse <==> timeLeft.total < 3_600_000)
  {
    if timeLeft.total <= 0 then EndedView(StatusColor(timeLeft.total))
    else RunningView(FormatTimeLeft(deadline, renderNowMs), StatusColor(timeLeft.total), ShouldAnimate(timeLeft.total))
  }

  /** A stored total and a render at the same clock reading agree: a running view never reads "已结束". */
  lemma RunningViewCounts(deadline: int, nowMs: int)
    requires Render(CalculateTimeLeft(deadline, nowMs), deadline, nowMs).RunningView?
    ensures Render(CalculateTimeLeft(deadline, nowMs), deadline, nowMs).text != Ended
  {
  }

  /** Past the deadline every later reading is past it too, so expiry is final. */
  lemma ExpiredStaysExpired(deadline: int, nowMs: int, laterMs: int)
    requires nowMs <= laterMs
    requires CalculateTimeLeft(deadline, nowMs).total == 0
    ensures CalculateTimeLeft(deadline, laterMs).total == 0
  {
  }

  /** The widget's state: the last computed time left and the number of `onExpire` calls made. */
  class Timer {
    var deadline: int
    var timeLeft: TimeLeft
    var expireCalls: nat

    /** `useState(calculateTimeLeft(deadline))` at mount. */
    constructor (deadline: int, nowMs: int)
      ensures this.deadline == deadline && timeLeft == CalculateTimeLeft(deadline, nowMs) && expireCalls == 0
    {
      this.deadline := deadline;
      timeLeft := CalculateTimeLeft(deadline, nowMs);
      expireCalls := 0;
    }

    /**
     * One interval tick: recompute, store, and call `onExpire` (when the
     * caller passed one) whenever the total is zero, on this and every later tick.
     */
    method Tick(nowMs: int, hasOnExpire: bool) returns (expired: bool)
      modifies this
      ensures deadline == old(deadline)
      ensures timeLeft == CalculateTimeLeft(deadline, nowMs)
      ensures expired <==> timeLeft.total <= 0 && hasOnExpire
      ensures expireCalls == old(expireCalls) + (if expired then 1 else 0)
    {
      var newTimeLeft := CalculateTimeLeft(deadline, nowMs);
      timeLeft := newTimeLeft;
      expired := newTimeLeft.total <= 0 && hasOnExpire;
      if expired {
        expireCalls := expireCalls + 1;
      }
    }
  }

  /**
   * `onExpire` is not a one-shot: two ticks at readings with no time left
   * (any readings past the deadline, by `ExpiredStaysExpired`) call it twice.
   */
  method TwoTicksAfterDeadline(t: Timer, nowMs: int, laterMs: int)
    requires CalculateTimeLeft(t.deadline, nowMs).total == 0 && CalculateTimeLeft(t.deadline, laterMs).total == 0
    modifies t
    ensures t.expireCalls == old(t.expireCalls) + 2
  {
    var first := t.Tick(nowMs, true);
    var second := t.Tick(laterMs, true);
  }
}

/**
 * Time and address formatting used across the pages (frontend/src/utils/format.ts).
 * Deadlines are contract timestamps in seconds; `nowMs` is the caller's clock
 * reading (`Date.now()`) in milliseconds.
 */
module Format {
  import opened Common

  // ---------------------------------------------------------------------------
  // getTimeStatus
  // ---------------------------------------------------------------------------

  datatype TimeStatus = Expired | Urgent | Soon | Running

  /** The badge text: both the under-an-hour and the under-a-day states read 即将结束. */
  function TimeStatusText(s: TimeStatus): (text: string)
    ensures text == "即将结束" <==> s == Urgent || s == Soon
  {
    match s
    case Expired => "已结束"
    case Urgent => "即将结束"
    case Soon => "即将结束"
    case Running => "进行中"
  }

  /**
   * Partition of the remaining milliseconds `deadline * 1000 - nowMs`. The
   * source compares the remaining time in hours, as a fraction, against 1 and 24.
   */
  function GetTimeStatus(deadline: int, nowMs: int): (s: TimeStatus)
    ensures s == Expired <==> deadline * 1000 - nowMs <= 0
    ensures s == Urgent <==> 0 < deadline * 1000 - nowMs < 3_600_000
    ensures s == Soon <==> 3_600_000 <= deadline * 1000 - nowMs < 86_400_000
    ensures s == Running <==> deadline * 1000 - nowMs >= 86_400_000
  {
    var diff := deadline * 1000 - nowMs;
    var hours := diff as real / 3_600_000.0;
    if diff <= 0 then Expired
    else if hours < 1.0 then Urgent
    else if hours < 24.0 then Soon
    else Running
  }

  // ---------------------------------------------------------------------------
  // calculateTimeLeft / formatTimeLeft
  // ---------------------------------------------------------------------------

  datatype TimeLeft = TimeLeft(total: int, days: int, hours: int, minutes: int, seconds: int)

  /** The milliseconds the whole units of a `TimeLeft` add up to. */
  function Span(t: TimeLeft): int {
    t.days * 86_400_000 + t.hours * 3_600_000 + t.minutes * 60_000 + t.seconds * 1000
  }

  /**
   * Remaining time split into days, hours, minutes and seconds; everything is
   * zero once the deadline has passed, and the units drop less than a second.
   */
  function CalculateTimeLeft(deadline: int, nowMs: int): (t: TimeLeft)
    ensures t.total >= 0
    ensures deadline * 1000 <= nowMs ==> t == TimeLeft(0, 0, 0, 0, 0)
    ensures deadline * 1000 > nowMs ==> t.total == deadline * 1000 - nowMs
    ensures t.days >= 0 && 0 <= t.hours < 24 && 0 <= t.minutes < 60 && 0 <= t.seconds < 60
    ensures Span(t) <= t.total < Span(t) + 1000
  {
    var total := deadline * 1000 - nowMs;
    if total <= 0 then TimeLeft(0, 0, 0, 0, 0)
    else
      var days := total / 86_400_000;
      var hours := (total % 86_400_000) / 3_600_000;
      var minutes := (total % 3_600_000) / 60_000;
      var seconds := (total % 60_000) / 1000;
      NestedUnits(total);
      TimeLeft(total, days, hours, minutes, seconds)
  }

  /** A remainder modulo a day splits into whole hours and a remainder modulo an hour, and so on down. */
  lemma NestedUnits(x: int)
    ensures x % 86_400_000 == (x % 86_400_000) / 3_600_000 * 3_600_000 + x % 3_600_000
    ensures x % 3_600_000 == (x % 3_600_000) / 60_000 * 60_000 + x % 60_000
  {
    var r := x % 86_400_000;
    DivModUnique(x, 3_600_000, 24 * (x / 86_400_000) + r / 3_600_000, r % 3_600_000);
    var r2 := x % 3_600_000;
    DivModUnique(x, 60_000, 60 * (x / 3_600_000) + r2 / 60_000, r2 % 60_000);
  }

  /**
   * The countdown text: the two largest non-zero units down to minutes, and
   * 即将结束 for the last minute.
   */
  function FormatTimeLeft(deadline: int, nowMs: int): (c: Countdown)
    ensures c == Ended <==> deadline * 1000 - nowMs <= 0
    ensures c == EndingSoon <==> 0 < deadline * 1000 - nowMs < 60_000
    ensures c.DaysHours? <==> deadline * 1000 - nowMs >= 86_400_000
    ensures c.HoursMinutes? <==> 3_600_000 <= deadline * 1000 - nowMs < 86_400_000
    ensures c.Minutes? <==> 60_000 <= deadline * 1000 - nowMs < 3_600_000
    ensures c.DaysHours? ==>
      c.hours < 24
      && c.days * 86_400_000 + c.hours * 3_600_000 <= deadline * 1000 - nowMs
      && deadline * 1000 - nowMs < c.days * 86_400_000 + (c.hours + 1) * 3_600_000
    ensures c.HoursMinutes? ==>
      c.minutes < 60
      && c.hours * 3_600_000 + c.minutes * 60_000 <= deadline * 1000 - nowMs
      && deadline * 1000 - nowMs < c.hours * 3_600_000 + (c.minutes + 1) * 60_000
    ensures c.Minutes? ==>
      c.minutes * 60_000 <= deadline * 1000 - nowMs < (c.minutes + 1) * 60_000
  {
    var t := CalculateTimeLeft(deadline, nowMs);
    if t.total <= 0 then Ended
    else if t.days > 0 then DaysHours(t.days, t.hours)
    else if t.hours > 0 then HoursMinutes(t.hours, t.minutes)
    else if t.minutes > 0 then Minutes(t.minutes)
    else EndingSoon
  }

  /** The badge of `getTimeStatus` and the units of `calculateTimeLeft` agree. */
  lemma TimeStatusMatchesTimeLeft(deadline: int, nowMs: int)
    ensures var s, t := GetTimeStatus(deadline, nowMs), CalculateTimeLeft(deadline, nowMs);
      && (s == Expired <==> t.total == 0)
      && (s == Urgent <==> t.total > 0 && t.days == 0 && t.hours == 0)
      && (s == Soon <==> t.days == 0 && t.hours > 0)
      && (s == Running <==> t.days > 0)
  {
  }

  // ---------------------------------------------------------------------------
  // formatAddress
  // ---------------------------------------------------------------------------

  /**
   * `formatAddress(address, startLength, endLength)`: short strings unchanged,
   * longer ones as head + "..." + tail. An `endLength` of 0 keeps the whole
   * string as the tail, as `slice(-0)` does.
   */
  function FormatAddress(address: string, startLength: nat, endLength: nat): (r: string)
    ensures |address| <= startLength + endLength ==> r == address
    ensures |address| > startLength + endLength && endLength > 0 ==>
      && |r| == startLength + endLength + 3
      && r[..startLength] == address[..startLength]
      && r[startLength..startLength + 3] == "..."
      && r[startLength + 3..] == address[|address| - endLength..]
    ensures |address| > startLength + endLength && endLength == 0 ==>
      r == address[..startLength] + "..." + address
  {
    if address == [] then ""
    else if |address| <= startLength + endLength then address
    else Take(address, startLength) + "..." + SliceFromEnd(address, endLength)
  }
}

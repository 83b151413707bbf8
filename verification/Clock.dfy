/**
  Instants, civil dates and whole minutes.

  An instant is a number of microseconds; a UTC offset is a number of microseconds
  to add before reading off the civil date.
 */
module Clock {

  const SECOND: int := 1_000_000
  const MINUTE: int := 60 * SECOND
  const DAY: int := 1440 * MINUTE

  // The oldest client timestamp an offline clock-out may carry.
  const MAX_OFFLINE: int := DAY

  /** The civil date (days since 1970-01-01) of an instant, read at a UTC offset. */
  function DateOf(t: int, offset: int): int {
    (t + offset) / DAY
  }

  /** The first instant of a civil date. */
  function DayStart(date: int, offset: int): int {
    date * DAY - offset
  }

  /** Go's weekday number (0 is Sunday); 1970-01-01 was a Thursday. */
  function Weekday(t: int, offset: int): int {
    (DateOf(t, offset) + 4) % 7
  }

  /** Go's `int(...)` of a number of minutes: truncation toward zero, not floor. */
  function TruncMinutes(ticks: int): int {
    if ticks >= 0 then ticks / MINUTE else -(-ticks / MINUTE)
  }

  /** `m` whole minutes of sixty million microseconds, what is left over being nearer to zero. */
  ghost predicate WholeMinutes(ticks: int, m: int) {
    if ticks >= 0 then m * 60_000_000 <= ticks < (m + 1) * 60_000_000
    else (m - 1) * 60_000_000 < ticks <= m * 60_000_000
  }

  /** Elapsed time less break time, each cut to whole minutes, less `more` minutes; none when that is negative. */
  ghost predicate NetOf(minutes: int, elapsed: int, breaks: int, more: int) {
    exists p, q :: WholeMinutes(elapsed, p) && WholeMinutes(breaks, q) && minutes == if p < q + more then 0 else p - q - more
  }

  ghost predicate NetMinutes(minutes: int, elapsed: int, breaks: int) {
    NetOf(minutes, elapsed, breaks, 0)
  }

  /** RFC 3339 output has no fraction of a second: section 5.6 makes it optional, the server omits it. */
  function WholeSecond(t: int): int {
    t - t % SECOND
  }

  lemma DateBounds(t: int, offset: int)
    ensures DayStart(DateOf(t, offset), offset) <= t < DayStart(DateOf(t, offset) + 1, offset)
  {
  }

  lemma DateOfUnique(t: int, offset: int, date: int)
    requires DayStart(date, offset) <= t < DayStart(date + 1, offset)
    ensures DateOf(t, offset) == date
  {
  }

  /** The truncation is the one number of whole minutes, for either sign. */
  lemma TruncIsWholeMinutes(ticks: int, m: int)
    ensures WholeMinutes(ticks, m) <==> m == TruncMinutes(ticks)
  {
  }

  /** Day numbers of the week: 1970-01-01 is 4, a Thursday, and each next day has the next number modulo 7. */
  lemma WeekdaysFollow(t: int, u: int, offset: int)
    ensures 0 <= Weekday(t, offset) < 7
    ensures 0 <= t + offset < 86_400_000_000 ==> Weekday(t, offset) == 4
    ensures DateOf(u, offset) == DateOf(t, offset) + 1 ==> Weekday(u, offset) == (Weekday(t, offset) + 1) % 7
    ensures DateOf(u, offset) == DateOf(t, offset) ==> Weekday(u, offset) == Weekday(t, offset)
  {
  }

  lemma TruncMonotone(a: int, b: int)
    requires a <= b
    ensures TruncMinutes(a) <= TruncMinutes(b)
  {
  }

  /** Splitting a non-negative duration in two before truncating loses at most one minute, and exactly when the remainders carry. */
  lemma TruncSplit(a: int, b: int)
    requires a >= 0 && b >= 0
    ensures TruncMinutes(a + b) ==
            TruncMinutes(a) + TruncMinutes(b) + if a % MINUTE + b % MINUTE >= MINUTE then 1 else 0
  {
  }

  /** The difference of two truncated minute counts, for non-negative durations. */
  lemma TruncDifference(whole: int, part: int)
    requires 0 <= part <= whole
    ensures TruncMinutes(whole) - TruncMinutes(part) ==
            (whole - part) / MINUTE + if whole % MINUTE < part % MINUTE then 1 else 0
  {
  }

  /**
    Whatever the signs, if `whole`, `whole - part` and `-part` all stay below `limit` minutes,
    so does the difference of the truncated counts.
   */
  lemma TruncDifferenceBound(whole: int, part: int, limit: int)
    requires limit >= 0
    requires whole <= limit * MINUTE + MINUTE - 1
    requires whole - part <= limit * MINUTE + MINUTE - 1
    requires -part <= limit * MINUTE + MINUTE - 1
    ensures TruncMinutes(whole) - TruncMinutes(part) <= limit
  {
  }
}
